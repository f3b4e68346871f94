/** Concurrent add requests on Redis (handlers/handlers.go, dao/redisdb.go): each checks for its
    URL, obtains some abbreviation, checks that it may save, and runs its transaction, with
    anything in between. As in AddProtocol the abbreviation is arbitrary. */
module RedisAddProtocol {
  import opened Model
  import opened RedisKeys
  import opened RedisPairing
  import RedisRuns

  /** `Storing`: the save has passed its check, and its transaction has still to run. */
  datatype Progress =
    | Checking(url: string)
    | Creating(url: string)
    | Saving(url: string, abv: string)
    | Storing(url: string, abv: string)
    | Replied(url: string, abv: string, ok: bool)

  datatype System = System(db: RedisRuns.State, adds: map<nat, Progress>)

  /** `Other` is any step of another request or of a background update. */
  datatype Event =
    | Other(step: RedisRuns.Step)
    | Arrive(id: nat, url: string)
    | Check(id: nat)
    | Choose(id: nat, abv: string)
    | BeginSave(id: nat)
    | Store(id: nat)

  function Do(sys: System, e: Event): System {
    match e
    case Other(step) => sys.(db := RedisRuns.Do(sys.db, step))
    case Arrive(id, url) => if id in sys.adds then sys else sys.(adds := sys.adds[id := Checking(url)])
    case Check(id) =>
      if id in sys.adds && sys.adds[id].Checking? then
        var url := sys.adds[id].url;
        var abv := match AbvOf(sys.db.ks, url) case Some(a) => a case None => "";
        sys.(adds := sys.adds[id := if abv != "" then Replied(url, abv, true) else Creating(url)])
      else sys
    case Choose(id, abv) =>
      if id in sys.adds && sys.adds[id].Creating? then
        sys.(adds := sys.adds[id := Saving(sys.adds[id].url, abv)])
      else sys
    case BeginSave(id) =>
      if id in sys.adds && sys.adds[id].Saving? then
        var url, abv := sys.adds[id].url, sys.adds[id].abv;
        var may := RedisRuns.MaySave(sys.db.ks, abv, url);
        sys.(adds := sys.adds[id := if may then Storing(url, abv) else Replied(url, abv, false)])
      else sys
    case Store(id) =>
      if id in sys.adds && sys.adds[id].Storing? then
        var url, abv := sys.adds[id].url, sys.adds[id].abv;
        System(sys.db.(ks := StoreTx(sys.db.ks, abv, url)), sys.adds[id := Replied(url, abv, true)])
      else sys
  }

  function After(sys: System, events: seq<Event>): System {
    if events == [] then sys else Do(After(sys, events[..|events| - 1]), events[|events| - 1])
  }

  lemma DoKeepsTypes(sys: System, e: Event)
    requires Typed(sys.db.ks)
    ensures Typed(Do(sys, e).db.ks)
  {
    hide Typed, StoreTx, RedisRuns.Do;
    match e
    case Other(step) => RedisRuns.DoKeepsTypes(sys.db, step);
    case Store(id) =>
      if id in sys.adds && sys.adds[id].Storing? {
        StoreTxKeepsTypes(sys.db.ks, sys.adds[id].abv, sys.adds[id].url);
      }
    case _ =>
  }

  lemma {:induction false} EveryRunIsTyped(sys: System, events: seq<Event>)
    requires Typed(sys.db.ks)
    ensures Typed(After(sys, events).db.ks)
  {
    if events == [] {
    } else {
      hide Typed, Do;
      EveryRunIsTyped(sys, events[..|events| - 1]);
      DoKeepsTypes(After(sys, events[..|events| - 1]), events[|events| - 1]);
    }
  }

  ghost predicate Answered(sys: System, id: nat) {
    id in sys.adds && sys.adds[id].Replied?
  }

  ghost predicate Succeeded(sys: System, id: nat, url: string, abv: string) {
    id in sys.adds && sys.adds[id] == Replied(url, abv, true)
  }

  /** Right after event i, which is no later than its reply, request `id` is in the system and the
      key of its URL names the abbreviation of its reply. */
  ghost predicate StoredAt(sys: System, events: seq<Event>, i: nat, id: nat, url: string, abv: string)
    requires i < |events|
  {
    var now := After(sys, events[..i + 1]);
    !Answered(After(sys, events[..i]), id) && id in now.adds && AbvOf(now.db.ks, url) == Some(abv)
  }

  /** What the event that gives a successful reply leaves behind: the key of the URL names the
      abbreviation of the reply. After the transaction the abbreviation resolves to the URL; at
      the first check it does whenever the two kinds of keys are inverse. */
  lemma ReplyNamesTheStoredKey(sys: System, e: Event, id: nat, url: string, abv: string)
    requires Typed(sys.db.ks) && !Answered(sys, id) && Succeeded(Do(sys, e), id, url, abv)
    ensures e == Check(id) || e == Store(id)
    ensures var ks := Do(sys, e).db.ks;
            && AbvOf(ks, url) == Some(abv)
            && (e.Store? ==> UrlOf(ks, abv) == Some(url))
            && (e.Check? && Paired(sys.db.ks) ==> UrlOf(ks, abv) == Some(url))
  {
    hide Typed, StoreTx, UrlOf, AbvOf, HitsOf, DailyOf, RedisRuns.Do, RedisRuns.MaySave;
    if e == Store(id) {
      StoreTxEffect(sys.db.ks, abv, url, abv);
      StoreTxEffect(sys.db.ks, abv, url, url);
    }
  }

  lemma RepliesAreFinal(sys: System, e: Event, id: nat)
    ensures Answered(sys, id) ==> Answered(Do(sys, e), id) && Do(sys, e).adds[id] == sys.adds[id]
  {
  }

  /** Every successful add has an instant between its arrival and its reply at which the key of its
      URL names the abbreviation that it is answered with, in every interleaving. */
  lemma {:induction false} EverySuccessHadItsUrlStored(sys: System, events: seq<Event>, id: nat, url: string,
                                                       abv: string)
    requires Typed(sys.db.ks) && id !in sys.adds
    requires Succeeded(After(sys, events), id, url, abv)
    ensures exists i :: 0 <= i < |events| && StoredAt(sys, events, i, id, url, abv)
  {
    var n := |events| - 1;
    var before := After(sys, events[..n]);
    EveryRunIsTyped(sys, events[..n]);
    assert events[..n + 1] == events;
    hide Typed, AbvOf, UrlOf;
    if Succeeded(before, id, url, abv) {
      EverySuccessHadItsUrlStored(sys, events[..n], id, url, abv);
      var i :| 0 <= i < n && StoredAt(sys, events[..n], i, id, url, abv);
      assert events[..n][..i] == events[..i] && events[..n][..i + 1] == events[..i + 1];
      assert StoredAt(sys, events, i, id, url, abv);
    } else {
      RepliesAreFinal(before, events[n], id);
      ReplyNamesTheStoredKey(before, events[n], id, url, abv);
      assert StoredAt(sys, events, n, id, url, abv);
    }
  }

  lemma StoringTwice(sys: System, abv: string, url: string, url': string)
    requires Typed(sys.db.ks) && abv != "" && url != url'
    requires sys.adds == map[0 := Storing(url, abv), 1 := Storing(url', abv), 2 := Checking(url)]
    ensures var sys' := Do(Do(Do(sys, Store(0)), Store(1)), Check(2));
            && Succeeded(sys', 0, url, abv) && Succeeded(sys', 1, url', abv) && Succeeded(sys', 2, url, abv)
            && UrlOf(sys'.db.ks, abv) == Some(url') && !Paired(sys'.db.ks)
  {
    hide Typed, UrlOf, AbvOf, HitsOf, DailyOf, StoreTx, RedisRuns.MaySave, RedisRuns.Do, AbvKey, DailyKey, Paired;
    var ks1 := StoreTx(sys.db.ks, abv, url);
    var ks2 := StoreTx(ks1, abv, url');
    StoreTxEffect(sys.db.ks, abv, url, url);
    StoreTxKeepsTypes(sys.db.ks, abv, url);
    StoreTxEffect(ks1, abv, url', url);
    StoreTxEffect(ks1, abv, url', abv);
    BoundTwiceIsUnpaired(ks2, abv, url, url');
    var stored := Do(Do(sys, Store(0)), Store(1));
    assert stored.db.ks == ks2
        && stored.adds == map[0 := Replied(url, abv, true), 1 := Replied(url', abv, true), 2 := Checking(url)];
  }

  /** Two adds of different URLs that choose one abbreviation both succeed, and the abbreviation
      then leads to the second URL for both. A later add of the first URL is given it again. */
  lemma RacingAddsShareAnAbbreviation(sys: System, abv: string, url: string, url': string)
    requires Typed(sys.db.ks) && UrlOf(sys.db.ks, abv) == None && abv != "" && url != url'
    requires sys.adds == map[0 := Saving(url, abv), 1 := Saving(url', abv), 2 := Checking(url)]
    ensures var checked := Do(Do(sys, BeginSave(0)), BeginSave(1));
            var stored := Do(Do(checked, Store(0)), Store(1));
            var sys' := Do(stored, Check(2));
            && Succeeded(sys', 0, url, abv) && Succeeded(sys', 1, url', abv) && Succeeded(sys', 2, url, abv)
            && UrlOf(sys'.db.ks, abv) == Some(url') && !Paired(sys'.db.ks)
  {
    assert RedisRuns.MaySave(sys.db.ks, abv, url) && RedisRuns.MaySave(sys.db.ks, abv, url');
    var checked := Do(Do(sys, BeginSave(0)), BeginSave(1));
    assert checked.db == sys.db
        && checked.adds == map[0 := Storing(url, abv), 1 := Storing(url', abv), 2 := Checking(url)];
    StoringTwice(checked, abv, url, url');
  }
}

/** What each event of a concurrent add on Redis does, told from the keys that it meets; and which
    reply an add request gets in a whole run. */
module RedisAddAnswers {
  import opened Model
  import opened RedisKeys
  import opened RedisAddProtocol
  import RedisRuns
  import RedisDB

  /** The record of the abbreviation names another URL, an empty one not counted. */
  predicate BoundElsewhere(ks: Keys, abv: string, url: string) {
    UrlOf(ks, abv).Some? && UrlOf(ks, abv).value != "" && UrlOf(ks, abv).value != url
  }

  predicate Finds(ks: Keys, url: string, reply: Progress) {
    AbvOf(ks, url).Some? && AbvOf(ks, url).value != "" && reply == Replied(url, AbvOf(ks, url).value, true)
  }

  /** A request at `p` that meets these keys is given this reply by this event. */
  predicate Gives(ks: Keys, p: Progress, e: Event, id: nat, reply: Progress) {
    match p
    case Checking(url) => e == Check(id) && Finds(ks, url, reply)
    case Creating(_) => false
    case Saving(url, abv) => e == BeginSave(id) && BoundElsewhere(ks, abv, url) && reply == Replied(url, abv, false)
    case Storing(url, abv) => e == Store(id) && reply == Replied(url, abv, true)
    case Replied(_, _, _) => false
  }

  /** The event takes the request one step on without an answer. */
  predicate Advances(ks: Keys, p: Progress, e: Event, id: nat, p': Progress) {
    match p
    case Checking(url) => e == Check(id) && AbvOf(ks, url) in {None, Some("")} && p' == Creating(url)
    case Creating(url) => e.Choose? && e.id == id && p' == Saving(url, e.abv)
    case Saving(url, abv) => e == BeginSave(id) && !BoundElsewhere(ks, abv, url) && p' == Storing(url, abv)
    case Storing(_, _) => false
    case Replied(_, _, _) => false
  }

  lemma MaySaveUnlessBoundElsewhere(ks: Keys, abv: string, url: string)
    requires Typed(ks)
    ensures RedisRuns.MaySave(ks, abv, url) <==> !BoundElsewhere(ks, abv, url)
  {
    assert AbvKey(abv) in ks ==> TypedRecord(ks[AbvKey(abv)]);
  }

  /** Each event leaves a request that has arrived where it is, takes it a step on, or gives it its
      reply; and which of these happens is determined by the keys that the event meets. */
  lemma EventsMoveRequests(sys: System, e: Event, id: nat)
    requires Typed(sys.db.ks) && id in sys.adds
    ensures var ks, p, p' := sys.db.ks, sys.adds[id], Do(sys, e).adds[id];
            && id in Do(sys, e).adds
            && (p' == p || Advances(ks, p, e, id, p') || Gives(ks, p, e, id, p'))
            && (forall q :: Advances(ks, p, e, id, q) || Gives(ks, p, e, id, q) ==> q == p')
  {
    hide Typed, UrlOf, AbvOf, StoreTx, RedisRuns.Do, RedisRuns.MaySave;
    match sys.adds[id]
    case Saving(url, abv) => MaySaveUnlessBoundElsewhere(sys.db.ks, abv, url);
    case _ =>
  }

  /** A request that has not arrived arrives with its URL, and nothing else makes it arrive. */
  lemma RequestsArrive(sys: System, e: Event, id: nat)
    requires id !in sys.adds
    ensures var sys' := Do(sys, e);
            if e.Arrive? && e.id == id then sys'.adds == sys.adds[id := Checking(e.url)] else id !in sys'.adds
  {
    hide RedisRuns.Do, StoreTx;
  }

  /** The request that an add event belongs to. */
  function RequestOf(e: Event): Option<nat> {
    match e case Other(_) => None case _ => Some(e.id)
  }

  /** An add event touches no other request. */
  lemma AddEventsMoveOneRequest(sys: System, e: Event, other: nat)
    requires RequestOf(e) != Some(other)
    ensures var sys' := Do(sys, e);
            && (other in sys'.adds <==> other in sys.adds)
            && (other in sys.adds ==> sys'.adds[other] == sys.adds[other])
  {
    hide RedisRuns.Do, StoreTx;
  }

  predicate Stores(sys: System, e: Event) {
    e.Store? && e.id in sys.adds && sys.adds[e.id].Storing?
  }

  /** The only add event that ever writes is the transaction of a save that has passed its check: it
      binds the pair both ways and leaves all other pairs alone. */
  lemma AddEventsOnlyStore(sys: System, e: Event)
    requires Typed(sys.db.ks) && !e.Other?
    ensures var db, db' := sys.db, Do(sys, e).db;
            && db'.tasks == db.tasks
            && if Stores(sys, e) then RedisDB.Stored(db.ks, db'.ks, sys.adds[e.id].abv, sys.adds[e.id].url)
               else db'.ks == db.ks
  {
    hide Typed, StoreTx, RedisDB.Stored;
    if Stores(sys, e) {
      RedisDB.StoreIsLocal(sys.db.ks, sys.adds[e.id].abv, sys.adds[e.id].url);
    }
  }

  // Between the check of a save and its transaction.

  function Others(steps: seq<RedisRuns.Step>): seq<Event> {
    seq(|steps|, i requires 0 <= i < |steps| => Other(steps[i]))
  }

  lemma {:induction false} OthersOnlyStep(sys: System, steps: seq<RedisRuns.Step>)
    ensures After(sys, Others(steps)) == System(RedisRuns.After(sys.db, steps), sys.adds)
  {
    if steps == [] {
    } else {
      var n := |steps| - 1;
      assert Others(steps)[..n] == Others(steps[..n]);
      OthersOnlyStep(sys, steps[..n]);
    }
  }

  lemma RunsKeepTypes(s: RedisRuns.State, steps: seq<RedisRuns.Step>)
    requires Typed(s.ks)
    ensures Typed(RedisRuns.After(s, steps).ks)
  {
    RedisRuns.DailyHitsCountUpdates(s, steps, "");
  }

  /** Whatever others do after the check of a save, its transaction then binds the pair, even when
      they have bound the abbreviation to another URL in the meantime. */
  lemma LateTransactionOverwrites(sys: System, id: nat, steps: seq<RedisRuns.Step>)
    requires Typed(sys.db.ks) && id in sys.adds && sys.adds[id].Saving?
    requires !BoundElsewhere(sys.db.ks, sys.adds[id].abv, sys.adds[id].url)
    ensures var url, abv := sys.adds[id].url, sys.adds[id].abv;
            var met := RedisRuns.After(sys.db, steps);
            var sys' := Do(After(Do(sys, BeginSave(id)), Others(steps)), Store(id));
            && sys' == System(sys'.db, sys.adds[id := Replied(url, abv, true)])
            && sys'.db.tasks == met.tasks && RedisDB.Stored(met.ks, sys'.db.ks, abv, url)
  {
    hide RedisRuns.Do, RedisRuns.After, RedisRuns.MaySave, StoreTx, Typed, RedisDB.Stored;
    var url, abv := sys.adds[id].url, sys.adds[id].abv;
    MaySaveUnlessBoundElsewhere(sys.db.ks, abv, url);
    var checked := Do(sys, BeginSave(id));
    assert checked == System(sys.db, sys.adds[id := Storing(url, abv)]);
    OthersOnlyStep(checked, steps);
    RunsKeepTypes(sys.db, steps);
    RedisDB.StoreIsLocal(RedisRuns.After(sys.db, steps).ks, abv, url);
  }

  // Whole runs.

  /** Event i of the run gives request `id` this reply. */
  ghost predicate GivesAt(sys: System, events: seq<Event>, i: nat, id: nat, reply: Progress)
    requires i < |events|
  {
    var now := After(sys, events[..i]);
    id in now.adds && Gives(now.db.ks, now.adds[id], events[i], id, reply)
  }

  lemma {:induction false} RepliesStay(sys: System, events: seq<Event>, i: nat, k: nat, id: nat)
    requires i <= k <= |events| && Answered(After(sys, events[..i]), id)
    ensures Answered(After(sys, events[..k]), id)
    ensures After(sys, events[..k]).adds[id] == After(sys, events[..i]).adds[id]
  {
    hide Do;
    if i == k {
    } else {
      RepliesStay(sys, events, i, k - 1, id);
      assert events[..k][..k - 1] == events[..k - 1];
      RepliesAreFinal(After(sys, events[..k - 1]), events[k - 1], id);
    }
  }

  lemma NextState(sys: System, events: seq<Event>, i: nat)
    requires Typed(sys.db.ks) && i < |events|
    ensures After(sys, events[..i + 1]) == Do(After(sys, events[..i]), events[i])
    ensures Typed(After(sys, events[..i]).db.ks)
  {
    hide Do, Typed;
    assert events[..i + 1][..i] == events[..i];
    EveryRunIsTyped(sys, events[..i]);
  }

  lemma AnswersAreGiven(sys: System, e: Event, id: nat)
    requires Typed(sys.db.ks) && !Answered(sys, id) && Answered(Do(sys, e), id)
    ensures id in sys.adds && Gives(sys.db.ks, sys.adds[id], e, id, Do(sys, e).adds[id])
  {
    hide Typed, Do;
    if id in sys.adds {
      EventsMoveRequests(sys, e, id);
    } else {
      RequestsArrive(sys, e, id);
    }
  }

  lemma {:induction false} RepliesAreGiven(sys: System, events: seq<Event>, k: nat, id: nat)
    requires Typed(sys.db.ks) && id !in sys.adds && k <= |events| && Answered(After(sys, events[..k]), id)
    ensures exists i :: 0 <= i < k && GivesAt(sys, events, i, id, After(sys, events[..k]).adds[id])
  {
    hide Typed, Do, Gives, Advances;
    if k == 0 {
    } else {
      NextState(sys, events, k - 1);
      var before := After(sys, events[..k - 1]);
      if Answered(before, id) {
        RepliesAreGiven(sys, events, k - 1, id);
        RepliesStay(sys, events, k - 1, k, id);
      } else {
        AnswersAreGiven(before, events[k - 1], id);
        assert GivesAt(sys, events, k - 1, id, After(sys, events[..k]).adds[id]);
      }
    }
  }

  lemma GivenRepliesStay(sys: System, events: seq<Event>, i: nat, id: nat, reply: Progress)
    requires Typed(sys.db.ks) && i < |events| && reply.Replied? && GivesAt(sys, events, i, id, reply)
    ensures id in After(sys, events).adds && After(sys, events).adds[id] == reply
  {
    hide Typed, Do, Gives, Advances;
    assert events[..|events|] == events;
    NextState(sys, events, i);
    EventsMoveRequests(After(sys, events[..i]), events[i], id);
    RepliesStay(sys, events, i + 1, |events|, id);
  }

  /** In every interleaving an add request ends up with a reply if and only if some event of the run
      gives it that reply: it is told of the abbreviation that its first check finds, or of its own
      once its transaction has run, and it fails if and only if the check of its save finds its
      abbreviation bound to another URL. */
  lemma ReplyIffGiven(sys: System, events: seq<Event>, id: nat, reply: Progress)
    requires Typed(sys.db.ks) && id !in sys.adds && reply.Replied?
    ensures id in After(sys, events).adds && After(sys, events).adds[id] == reply
       <==> exists i :: 0 <= i < |events| && GivesAt(sys, events, i, id, reply)
  {
    hide Typed, Do, Gives, Advances;
    assert events[..|events|] == events;
    if id in After(sys, events).adds && After(sys, events).adds[id] == reply {
      RepliesAreGiven(sys, events, |events|, id);
    }
    if i :| 0 <= i < |events| && GivesAt(sys, events, i, id, reply) {
      GivenRepliesStay(sys, events, i, id, reply);
    }
  }

  /** An add whose save finds its abbreviation bound to another URL fails, and in the whole run no
      event of it writes anything; so it never retargets a link that its own check has found. */
  lemma RefusedAddsWriteNothing(sys: System, events: seq<Event>, i: nat, id: nat, url: string, abv: string)
    requires Typed(sys.db.ks) && i < |events| && events[i] == BeginSave(id)
    requires var now := After(sys, events[..i]);
             id in now.adds && now.adds[id] == Saving(url, abv) && BoundElsewhere(now.db.ks, abv, url)
    ensures id in After(sys, events).adds && After(sys, events).adds[id] == Replied(url, abv, false)
    ensures forall k | 0 <= k < |events| && RequestOf(events[k]) == Some(id) ::
              After(sys, events[..k + 1]).db == After(sys, events[..k]).db
  {
    GivenRepliesStay(sys, events, i, id, Replied(url, abv, false));
    forall k | 0 <= k < |events| && RequestOf(events[k]) == Some(id)
      ensures After(sys, events[..k + 1]).db == After(sys, events[..k]).db
    {
      hide Typed, Do;
      NextState(sys, events, k);
      AddEventsOnlyStore(After(sys, events[..k]), events[k]);
      if Stores(After(sys, events[..k]), events[k]) {
        var p := After(sys, events[..k]).adds[id];
        GivenRepliesStay(sys, events, k, id, Replied(p.url, p.abv, true));
      }
    }
  }
}

/** Concurrent add requests on SQLite and on Postgres (handlers/handlers.go, dao/sqlitedb.go,
    dao/postgresdb.go): each checks for its URL, obtains some abbreviation and saves, with
    anything in between. The key size and the random source are shared without
    synchronisation, so the abbreviation is arbitrary. */
module AddProtocol {
  import opened SqlTables
  import SqlRuns

  /** `Verifying`: the insert met the abbreviation, and the check has still to be made. */
  datatype Progress =
    | Checking(url: string)
    | Creating(url: string)
    | Saving(url: string, abv: string)
    | Verifying(url: string, abv: string)
    | Replied(url: string, abv: string, ok: bool)

  datatype System = System(db: SqlRuns.State, adds: map<nat, Progress>)

  const START := System(SqlRuns.START, map[])

  /** `Other` is any atomic step of another request or of a background update, the lookups that
      CreateAbbreviation makes included. SQLite saves by `Store`, insert and check under one lock;
      Postgres by `InsertRow` and, when that has met the abbreviation, `Verify`. */
  datatype Event =
    | Other(step: SqlRuns.Step)
    | Arrive(id: nat, url: string)
    | Check(id: nat)
    | Choose(id: nat, abv: string)
    | Store(id: nat)
    | InsertRow(id: nat)
    | Verify(id: nat)

  ghost function Do(burns: bool, sys: System, e: Event): System {
    match e
    case Other(step) => sys.(db := SqlRuns.Do(burns, sys.db, step))
    case Arrive(id, url) => if id in sys.adds then sys else sys.(adds := sys.adds[id := Checking(url)])
    case Check(id) =>
      if id in sys.adds && sys.adds[id].Checking? then
        var url := sys.adds[id].url;
        var abv := AbvOf(sys.db.t, url);
        sys.(adds := sys.adds[id := if abv != "" then Replied(url, abv, true) else Creating(url)])
      else sys
    case Choose(id, abv) =>
      if id in sys.adds && sys.adds[id].Creating? then
        sys.(adds := sys.adds[id := Saving(sys.adds[id].url, abv)])
      else sys
    case Store(id) =>
      if id in sys.adds && sys.adds[id].Saving? then
        var url, abv := sys.adds[id].url, sys.adds[id].abv;
        var db := SqlRuns.Do(burns, sys.db, SqlRuns.Save(abv, url));
        System(db, sys.adds[id := Replied(url, abv, SaveReturnsNil(sys.db.t, db.t, abv, url))])
      else sys
    case InsertRow(id) =>
      if id in sys.adds && sys.adds[id].Saving? then
        var url, abv := sys.adds[id].url, sys.adds[id].abv;
        System(SqlRuns.Do(burns, sys.db, SqlRuns.Save(abv, url)),
               sys.adds[id := if HasAbv(sys.db.t, abv) then Verifying(url, abv) else Replied(url, abv, true)])
      else sys
    case Verify(id) =>
      if id in sys.adds && sys.adds[id].Verifying? then
        var url, abv := sys.adds[id].url, sys.adds[id].abv;
        sys.(adds := sys.adds[id := Replied(url, abv, HasAbv(sys.db.t, abv) ==> UrlOf(sys.db.t, abv) == url)])
      else sys
  }

  ghost function After(burns: bool, sys: System, events: seq<Event>): System {
    if events == [] then sys else Do(burns, After(burns, sys, events[..|events| - 1]), events[|events| - 1])
  }

  lemma DoKeepsInv(burns: bool, sys: System, e: Event)
    requires SqlRuns.Inv(sys.db)
    ensures SqlRuns.Inv(Do(burns, sys, e).db)
  {
    hide SqlRuns.Inv, SqlRuns.Do;
    if e.Other? {
      SqlRuns.DoKeepsInv(burns, sys.db, e.step);
    } else if (e.Store? || e.InsertRow?) && e.id in sys.adds && sys.adds[e.id].Saving? {
      SqlRuns.DoKeepsInv(burns, sys.db, SqlRuns.Save(sys.adds[e.id].abv, sys.adds[e.id].url));
    }
  }

  lemma {:induction false} EveryRunIsConsistent(burns: bool, sys: System, events: seq<Event>)
    requires SqlRuns.Inv(sys.db)
    ensures SqlRuns.Inv(After(burns, sys, events).db)
  {
    if events == [] {
    } else {
      EveryRunIsConsistent(burns, sys, events[..|events| - 1]);
      DoKeepsInv(burns, After(burns, sys, events[..|events| - 1]), events[|events| - 1]);
    }
  }

  // A success vouches for its URL.

  ghost predicate Answered(sys: System, id: nat) {
    id in sys.adds && sys.adds[id].Replied?
  }

  ghost predicate Succeeded(sys: System, id: nat, url: string) {
    Answered(sys, id) && sys.adds[id].ok && sys.adds[id].url == url
  }

  /** Request `id` is answered with success, or still may be without storing anything more. */
  ghost predicate PastItsInsert(sys: System, id: nat, url: string) {
    Succeeded(sys, id, url) || (id in sys.adds && sys.adds[id].Verifying? && sys.adds[id].url == url)
  }

  /** An insert of request `id` made now leaves its URL stored: the abbreviation is free, or the
      URL is there already. */
  ghost predicate InsertIsSound(sys: System, id: nat) {
    id in sys.adds && sys.adds[id].Saving? ==>
      !HasAbv(sys.db.t, sys.adds[id].abv) || HasUrl(sys.db.t, sys.adds[id].url)
  }

  /** What a Postgres insert of request `id` meets in this run; nothing is asked of SQLite. */
  ghost predicate InsertsAreSound(burns: bool, sys: System, events: seq<Event>, id: nat) {
    forall i | 0 <= i < |events| && events[i] == InsertRow(id) :: InsertIsSound(After(burns, sys, events[..i]), id)
  }

  /** Right after event i, which is no later than its reply, request `id` is in the system and its
      URL is stored. */
  ghost predicate StoredAt(burns: bool, sys: System, events: seq<Event>, i: nat, id: nat, url: string)
    requires i < |events|
  {
    var now := After(burns, sys, events[..i + 1]);
    !Answered(After(burns, sys, events[..i]), id) && id in now.adds && HasUrl(now.db.t, url)
  }

  lemma SuccessComesFromTheStore(burns: bool, sys: System, e: Event, id: nat, url: string)
    requires SqlRuns.Inv(sys.db) && (e == InsertRow(id) ==> InsertIsSound(sys, id))
    requires PastItsInsert(Do(burns, sys, e), id, url) && !PastItsInsert(sys, id, url)
    ensures !Answered(sys, id) && HasUrl(Do(burns, sys, e).db.t, url)
  {
    if e == Store(id) {
      var abv := sys.adds[id].abv;
      InsertKeepsConsistency(sys.db.t, abv, url, burns);
      var row := StoredUnder(sys.db.t, Insert(sys.db.t, abv, url, burns), abv, url, burns);
    } else if e == InsertRow(id) {
      InsertStoresTheUrl(sys.db.t, sys.adds[id].abv, url, burns);
    }
  }

  lemma PrefixIsSound(burns: bool, sys: System, events: seq<Event>, id: nat, n: nat)
    requires n <= |events| && InsertsAreSound(burns, sys, events, id)
    ensures InsertsAreSound(burns, sys, events[..n], id)
  {
    forall i | 0 <= i < n && events[..n][i] == InsertRow(id)
      ensures InsertIsSound(After(burns, sys, events[..n][..i]), id)
    {
      assert events[..n][..i] == events[..i];
    }
  }

  /** Every successful add has an instant between its arrival and its reply at which its URL is
      stored, in every interleaving with other adds, deletes, lookups and background updates; on
      Postgres, as long as its insert does not meet the abbreviation without the URL. */
  lemma {:induction false} EverySuccessHadItsUrlStored(burns: bool, sys: System, events: seq<Event>, id: nat,
                                                       url: string)
    requires SqlRuns.Inv(sys.db) && id !in sys.adds
    requires InsertsAreSound(burns, sys, events, id)
    requires PastItsInsert(After(burns, sys, events), id, url)
    ensures exists i :: 0 <= i < |events| && StoredAt(burns, sys, events, i, id, url)
  {
    var n := |events| - 1;
    var before := After(burns, sys, events[..n]);
    EveryRunIsConsistent(burns, sys, events[..n]);
    if PastItsInsert(before, id, url) {
      PrefixIsSound(burns, sys, events, id, n);
      EverySuccessHadItsUrlStored(burns, sys, events[..n], id, url);
      var i :| 0 <= i < n && StoredAt(burns, sys, events[..n], i, id, url);
      assert events[..n][..i] == events[..i] && events[..n][..i + 1] == events[..i + 1];
      assert StoredAt(burns, sys, events, i, id, url);
    } else {
      SuccessComesFromTheStore(burns, before, events[n], id, url);
      assert events[..n + 1] == events;
      assert StoredAt(burns, sys, events, n, id, url);
    }
  }

  ghost predicate LockedEvents(events: seq<Event>) {
    forall i | 0 <= i < |events| :: !events[i].InsertRow?
  }

  /** On SQLite every success vouches for its URL. */
  lemma EverySqliteSuccessHadItsUrlStored(burns: bool, events: seq<Event>, id: nat, url: string)
    requires LockedEvents(events) && Succeeded(After(burns, START, events), id, url)
    ensures exists i :: 0 <= i < |events| && StoredAt(burns, START, events, i, id, url)
  {
    EverySuccessHadItsUrlStored(burns, START, events, id, url);
  }

  ghost predicate StoredSometime(burns: bool, sys: System, events: seq<Event>, url: string) {
    exists i :: 0 <= i <= |events| && HasUrl(After(burns, sys, events[..i]).db.t, url)
  }

  /** The continuation that shows the other direction: a delete of the abbreviation, and then the
      check. */
  lemma DeleteBeforeVerify(burns: bool, sys: System, id: nat)
    requires SqlRuns.Inv(sys.db) && id in sys.adds && sys.adds[id].Saving? && !InsertIsSound(sys, id)
    ensures var url, abv, inserted := sys.adds[id].url, sys.adds[id].abv, Do(burns, sys, InsertRow(id));
            var events := [Other(SqlRuns.DeleteAbv(abv)), Verify(id)];
            Succeeded(After(burns, inserted, events), id, url) && !StoredSometime(burns, inserted, events, url)
  {
    var url, abv, inserted := sys.adds[id].url, sys.adds[id].abv, Do(burns, sys, InsertRow(id));
    var events := [Other(SqlRuns.DeleteAbv(abv)), Verify(id)];
    InsertStoresTheUrl(sys.db.t, abv, url, burns);
    SqlRuns.DeleteBetweenLosesTheUrl(burns, sys.db, abv, url);
    var deleted := Do(burns, inserted, Other(SqlRuns.DeleteAbv(abv)));
    assert events[..0] == [] && events[..1] == [Other(SqlRuns.DeleteAbv(abv))] && events[..1][..0] == [];
    assert After(burns, inserted, events[..1]) == deleted;
    assert After(burns, inserted, events) == Do(burns, deleted, Verify(id));
    forall i | 0 <= i <= |events|
      ensures !HasUrl(After(burns, inserted, events[..i]).db.t, url)
    {
      assert i == 0 || i == 1 || (i == 2 && events[..i] == events);
    }
  }

  /** On Postgres the condition is exact: from the insert on, every continuation that ends in
      success has an instant at which the URL is stored, if and only if the insert meets a free
      abbreviation or a stored URL. */
  lemma PostgresSuccessNeedsASoundInsert(burns: bool, sys: System, id: nat)
    requires SqlRuns.Inv(sys.db) && id in sys.adds && sys.adds[id].Saving?
    ensures var url, inserted := sys.adds[id].url, Do(burns, sys, InsertRow(id));
            (forall events :: Succeeded(After(burns, inserted, events), id, url)
                              ==> StoredSometime(burns, inserted, events, url))
            <==> InsertIsSound(sys, id)
  {
    var url, abv, inserted := sys.adds[id].url, sys.adds[id].abv, Do(burns, sys, InsertRow(id));
    InsertStoresTheUrl(sys.db.t, abv, url, burns);
    if InsertIsSound(sys, id) {
      forall events
        ensures StoredSometime(burns, inserted, events, url)
      {
        assert HasUrl(After(burns, inserted, events[..0]).db.t, url);
      }
    } else {
      DeleteBeforeVerify(burns, sys, id);
    }
  }

  // What the reply is worth.

  ghost predicate Resolves(t: Tables, abv: string, url: string) {
    HasAbv(t, abv) && UrlOf(t, abv) == url
  }

  lemma FoundAbvResolves(t: Tables, url: string)
    requires Consistent(t) && HasUrl(t, url)
    ensures Resolves(t, AbvOf(t, url), url)
  {
    var id :| id in t.rows && t.rows[id].url == url;
    TheIdOf(t, id);
  }

  /** When the abbreviation in a successful reply resolves to the URL, whichever event gives the
      reply. From the first check it always does. From an insert it does unless the abbreviation
      was free and another request had stored the URL in the meantime. From the check that
      follows a Postgres insert it does if and only if the abbreviation is still stored. */
  lemma ReplyResolvesIff(burns: bool, sys: System, e: Event, id: nat, url: string)
    requires SqlRuns.Inv(sys.db) && !Answered(sys, id) && Succeeded(Do(burns, sys, e), id, url)
    ensures e == Check(id) || e == Store(id) || e == InsertRow(id) || e == Verify(id)
    ensures var sys' := Do(burns, sys, e);
            var t, abv := sys.db.t, sys'.adds[id].abv;
            Resolves(sys'.db.t, abv, url)
            <==> match e
                 case Check(_) => true
                 case Verify(_) => HasAbv(t, abv)
                 case _ => HasAbv(t, abv) || !HasUrl(t, url)
  {
    var abv := Do(burns, sys, e).adds[id].abv;
    if e == Store(id) || e == InsertRow(id) {
      LockedSaveMeaning(sys.db.t, abv, url, burns);
    } else if e == Check(id) {
      FoundAbvResolves(sys.db.t, url);
    }
  }

  /** A dead link from the later check: the pair of a request is stored already, its insert meets
      it, and a delete comes before the check. */
  lemma LateCheckReturnsADeadLink(burns: bool, sys: System, id: nat)
    requires SqlRuns.Inv(sys.db) && id in sys.adds && sys.adds[id].Saving?
    requires Resolves(sys.db.t, sys.adds[id].abv, sys.adds[id].url)
    ensures var url, abv := sys.adds[id].url, sys.adds[id].abv;
            var deleted := Do(burns, Do(burns, sys, InsertRow(id)), Other(SqlRuns.DeleteAbv(abv)));
            var sys' := Do(burns, deleted, Verify(id));
            InsertIsSound(sys, id) && Succeeded(sys', id, url) && !HasAbv(sys'.db.t, abv)
  {
    var abv := sys.adds[id].abv;
    FoundIdIsLive(sys.db.t, abv);
    var inserted := Do(burns, sys, InsertRow(id));
    assert inserted.db.t.rows == sys.db.t.rows;
    var t := SqlTables.DeleteAbv(inserted.db.t, abv);
    assert forall i | i in t.rows :: t.rows[i].abv != abv;
  }

  /** The event by which request `id` reaches the table: one for SQLite, one for Postgres. */
  function SaveEvent(locked: bool, id: nat): Event {
    if locked then Store(id) else InsertRow(id)
  }

  lemma SavesRace(burns: bool, locked: bool, url: string, a: string, b: string)
    requires a != b
    ensures var chosen := System(SqlRuns.START, map[0 := Saving(url, a), 1 := Saving(url, b)]);
            var stored := Do(burns, Do(burns, chosen, SaveEvent(locked, 0)), SaveEvent(locked, 1));
            && stored.adds == map[0 := Replied(url, a, true), 1 := Replied(url, b, true)]
            && !HasAbv(stored.db.t, b)
  {
    var t := Insert(EMPTY, a, url, burns);
    assert t.rows == map[0 := Row(a, url, 0)];
    assert t.rows[0].url == url;
    assert HasUrl(t, url) && !HasAbv(t, b);
  }

  /** The race at the insert: two adds of one URL choose different abbreviations; both succeed, and
      the second is answered with an abbreviation that is not stored. */
  lemma RacingAddsReturnADeadLink(burns: bool, locked: bool, url: string, a: string, b: string)
    requires a != b
    ensures var arrived := Do(burns, Do(burns, START, Arrive(0, url)), Arrive(1, url));
            var checked := Do(burns, Do(burns, arrived, Check(0)), Check(1));
            var chosen := Do(burns, Do(burns, checked, Choose(0, a)), Choose(1, b));
            var stored := Do(burns, Do(burns, chosen, SaveEvent(locked, 0)), SaveEvent(locked, 1));
            && stored.adds == map[0 := Replied(url, a, true), 1 := Replied(url, b, true)]
            && !HasAbv(stored.db.t, b)
  {
    var arrived := Do(burns, Do(burns, START, Arrive(0, url)), Arrive(1, url));
    var checked := Do(burns, Do(burns, arrived, Check(0)), Check(1));
    assert checked == System(SqlRuns.START, map[0 := Creating(url), 1 := Creating(url)]);
    var chosen := Do(burns, Do(burns, checked, Choose(0, a)), Choose(1, b));
    assert chosen == System(SqlRuns.START, map[0 := Saving(url, a), 1 := Saving(url, b)]);
    hide Do;
    SavesRace(burns, locked, url, a, b);
  }
}

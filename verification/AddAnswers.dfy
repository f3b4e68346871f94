/** What each event of a concurrent add on a SQL store does, told from the rows that it meets; and
    which reply an add request gets in a whole run. */
module AddAnswers {
  import opened Model
  import opened SqlTables
  import opened AddProtocol
  import SqlRuns

  /** Some row binds the abbreviation to another URL. */
  ghost predicate BoundElsewhere(t: Tables, abv: string, url: string) {
    exists row | row in t.rows :: t.rows[row].abv == abv && t.rows[row].url != url
  }

  /** The reply names the abbreviation under which the URL is stored; an empty one does not count. */
  ghost predicate Finds(t: Tables, url: string, reply: Progress) {
    exists row | row in t.rows ::
      t.rows[row].url == url && t.rows[row].abv != "" && reply == Replied(url, t.rows[row].abv, true)
  }

  /** A request at `p` that meets these tables is given this reply by this event. */
  ghost predicate Gives(t: Tables, p: Progress, e: Event, id: nat, reply: Progress) {
    match p
    case Checking(url) => e == Check(id) && Finds(t, url, reply)
    case Creating(_) => false
    case Saving(url, abv) =>
      || (e == Store(id) && reply == Replied(url, abv, !BoundElsewhere(t, abv, url)))
      || (e == InsertRow(id) && reply == Replied(url, abv, true)
          && forall row | row in t.rows :: t.rows[row].abv != abv)
    case Verifying(url, abv) => e == Verify(id) && reply == Replied(url, abv, !BoundElsewhere(t, abv, url))
    case Replied(_, _, _) => false
  }

  /** The event takes the request one step on without an answer. */
  ghost predicate Advances(t: Tables, p: Progress, e: Event, id: nat, p': Progress) {
    match p
    case Checking(url) =>
      && e == Check(id) && p' == Creating(url)
      && forall row | row in t.rows && t.rows[row].url == url :: t.rows[row].abv == ""
    case Creating(url) => e.Choose? && e.id == id && p' == Saving(url, e.abv)
    case Saving(url, abv) =>
      e == InsertRow(id) && (exists row | row in t.rows :: t.rows[row].abv == abv) && p' == Verifying(url, abv)
    case Verifying(_, _) => false
    case Replied(_, _, _) => false
  }

  lemma CheckFinds(t: Tables, url: string)
    requires Consistent(t)
    ensures AbvOf(t, url) != "" ==> Finds(t, url, Replied(url, AbvOf(t, url), true))
    ensures forall row | row in t.rows && t.rows[row].url == url :: t.rows[row].abv == AbvOf(t, url)
  {
    if HasUrl(t, url) {
      var row :| row in t.rows && t.rows[row].url == url;
      TheIdOf(t, row);
    }
  }

  lemma NilUnlessBoundElsewhere(t: Tables, abv: string, url: string)
    requires Consistent(t)
    ensures (HasAbv(t, abv) ==> UrlOf(t, abv) == url) <==> !BoundElsewhere(t, abv, url)
  {
    if HasAbv(t, abv) {
      var row :| row in t.rows && t.rows[row].abv == abv;
      TheIdOf(t, row);
    }
  }

  lemma LockedSaveReturnsNil(t: Tables, abv: string, url: string, burns: bool)
    requires Consistent(t)
    ensures SaveReturnsNil(t, Insert(t, abv, url, burns), abv, url) <==> !BoundElsewhere(t, abv, url)
  {
    NilUnlessBoundElsewhere(t, abv, url);
    if HasAbv(t, abv) {
      RefusedInsertChangesNoUrl(t, abv, url, burns);
    }
  }

  /** Each event leaves a request that has arrived where it is, takes it a step on, or gives it its
      reply; and which of these happens is determined by the rows that the event meets. */
  lemma EventsMoveRequests(burns: bool, sys: System, e: Event, id: nat)
    requires SqlRuns.Inv(sys.db) && id in sys.adds
    ensures var t, p, p' := sys.db.t, sys.adds[id], Do(burns, sys, e).adds[id];
            && id in Do(burns, sys, e).adds
            && (p' == p || Advances(t, p, e, id, p') || Gives(t, p, e, id, p'))
            && (forall q :: Advances(t, p, e, id, q) || Gives(t, p, e, id, q) ==> q == p')
  {
    hide SaveReturnsNil, Insert, Consistent, AbvOf, UrlOf;
    var t := sys.db.t;
    match sys.adds[id]
    case Checking(url) => CheckFinds(t, url);
    case Creating(_) =>
    case Saving(url, abv) => LockedSaveReturnsNil(t, abv, url, burns);
    case Verifying(url, abv) => NilUnlessBoundElsewhere(t, abv, url);
    case Replied(_, _, _) =>
  }

  /** A request that has not arrived arrives with its URL, and nothing else makes it arrive. */
  lemma RequestsArrive(burns: bool, sys: System, e: Event, id: nat)
    requires id !in sys.adds
    ensures var sys' := Do(burns, sys, e);
            if e.Arrive? && e.id == id then sys'.adds == sys.adds[id := Checking(e.url)] else id !in sys'.adds
  {
  }

  /** The request that an add event belongs to. */
  function RequestOf(e: Event): Option<nat> {
    match e case Other(_) => None case _ => Some(e.id)
  }

  /** The event inserts the pair of its request, both of which are free. */
  ghost predicate InsertsRow(sys: System, e: Event) {
    && (e.Store? || e.InsertRow?) && e.id in sys.adds && sys.adds[e.id].Saving?
    && forall row | row in sys.db.t.rows ::
         sys.db.t.rows[row].abv != sys.adds[e.id].abv && sys.db.t.rows[row].url != sys.adds[e.id].url
  }

  /** An add event touches no other request. */
  lemma AddEventsMoveOneRequest(burns: bool, sys: System, e: Event, other: nat)
    requires RequestOf(e) != Some(other)
    ensures var sys' := Do(burns, sys, e);
            && (other in sys'.adds <==> other in sys.adds)
            && (other in sys.adds ==> sys'.adds[other] == sys.adds[other])
  {
    hide SqlRuns.Do;
  }

  lemma InsertedPairIsFree(t: Tables, abv: string, url: string, burns: bool)
    ensures var t' := Insert(t, abv, url, burns);
            && t'.daily == t.daily
            && t'.rows == if forall row | row in t.rows :: t.rows[row].abv != abv && t.rows[row].url != url
                          then t.rows[t.nextId := Row(abv, url, 0)] else t.rows
  {
  }

  /** All that an add event ever does to the database is to insert a row without hits for a pair
      that is free; so no add retargets or removes a link. */
  lemma AddEventsOnlyInsert(burns: bool, sys: System, e: Event)
    requires !e.Other?
    ensures var db, db' := sys.db, Do(burns, sys, e).db;
            && db'.waiting == db.waiting && db'.half == db.half && db'.t.daily == db.t.daily
            && db'.t.rows == if InsertsRow(sys, e)
                             then db.t.rows[db.t.nextId := Row(sys.adds[e.id].abv, sys.adds[e.id].url, 0)]
                             else db.t.rows
  {
    hide Insert, AbvOf, UrlOf, HasAbv, SaveReturnsNil;
    if (e.Store? || e.InsertRow?) && e.id in sys.adds && sys.adds[e.id].Saving? {
      InsertedPairIsFree(sys.db.t, sys.adds[e.id].abv, sys.adds[e.id].url, burns);
    }
  }

  // Whole runs.

  /** Event i of the run gives request `id` this reply. */
  ghost predicate GivesAt(burns: bool, sys: System, events: seq<Event>, i: nat, id: nat, reply: Progress)
    requires i < |events|
  {
    var now := After(burns, sys, events[..i]);
    id in now.adds && Gives(now.db.t, now.adds[id], events[i], id, reply)
  }

  lemma RepliesStay(burns: bool, sys: System, e: Event, id: nat)
    requires Answered(sys, id)
    ensures Answered(Do(burns, sys, e), id) && Do(burns, sys, e).adds[id] == sys.adds[id]
  {
    hide SqlRuns.Do;
  }

  lemma {:induction false} RepliesAreFinal(burns: bool, sys: System, events: seq<Event>, i: nat, k: nat, id: nat)
    requires i <= k <= |events| && Answered(After(burns, sys, events[..i]), id)
    ensures Answered(After(burns, sys, events[..k]), id)
    ensures After(burns, sys, events[..k]).adds[id] == After(burns, sys, events[..i]).adds[id]
  {
    hide Do;
    if i == k {
    } else {
      RepliesAreFinal(burns, sys, events, i, k - 1, id);
      assert events[..k][..k - 1] == events[..k - 1];
      RepliesStay(burns, After(burns, sys, events[..k - 1]), events[k - 1], id);
    }
  }

  lemma NextState(burns: bool, sys: System, events: seq<Event>, i: nat)
    requires SqlRuns.Inv(sys.db) && i < |events|
    ensures After(burns, sys, events[..i + 1]) == Do(burns, After(burns, sys, events[..i]), events[i])
    ensures SqlRuns.Inv(After(burns, sys, events[..i]).db)
  {
    assert events[..i + 1][..i] == events[..i];
    EveryRunIsConsistent(burns, sys, events[..i]);
  }

  lemma AnswersAreGiven(burns: bool, sys: System, e: Event, id: nat)
    requires SqlRuns.Inv(sys.db) && !Answered(sys, id) && Answered(Do(burns, sys, e), id)
    ensures id in sys.adds && Gives(sys.db.t, sys.adds[id], e, id, Do(burns, sys, e).adds[id])
  {
    if id in sys.adds {
      EventsMoveRequests(burns, sys, e, id);
    } else {
      RequestsArrive(burns, sys, e, id);
    }
  }

  lemma {:induction false} RepliesAreGiven(burns: bool, sys: System, events: seq<Event>, k: nat, id: nat)
    requires SqlRuns.Inv(sys.db) && id !in sys.adds && k <= |events| && Answered(After(burns, sys, events[..k]), id)
    ensures exists i :: 0 <= i < k && GivesAt(burns, sys, events, i, id, After(burns, sys, events[..k]).adds[id])
  {
    hide SqlRuns.Inv, Do, Gives, Advances;
    if k == 0 {
    } else {
      NextState(burns, sys, events, k - 1);
      var before := After(burns, sys, events[..k - 1]);
      if Answered(before, id) {
        RepliesAreGiven(burns, sys, events, k - 1, id);
        RepliesAreFinal(burns, sys, events, k - 1, k, id);
      } else {
        AnswersAreGiven(burns, before, events[k - 1], id);
        assert GivesAt(burns, sys, events, k - 1, id, After(burns, sys, events[..k]).adds[id]);
      }
    }
  }

  /** In every interleaving an add request ends up with a reply if and only if some event of the run
      gives it that reply: it is told of the abbreviation that its first check finds, or of its
      own, and it fails if and only if its save meets its abbreviation bound to another URL. */
  lemma ReplyIffGiven(burns: bool, sys: System, events: seq<Event>, id: nat, reply: Progress)
    requires SqlRuns.Inv(sys.db) && id !in sys.adds && reply.Replied?
    ensures id in After(burns, sys, events).adds && After(burns, sys, events).adds[id] == reply
       <==> exists i :: 0 <= i < |events| && GivesAt(burns, sys, events, i, id, reply)
  {
    hide SqlRuns.Inv, Do, Gives, Advances;
    assert events[..|events|] == events;
    if id in After(burns, sys, events).adds && After(burns, sys, events).adds[id] == reply {
      RepliesAreGiven(burns, sys, events, |events|, id);
    }
    if i :| 0 <= i < |events| && GivesAt(burns, sys, events, i, id, reply) {
      NextState(burns, sys, events, i);
      EventsMoveRequests(burns, After(burns, sys, events[..i]), events[i], id);
      RepliesAreFinal(burns, sys, events, i + 1, |events|, id);
    }
  }

  // The two statements of a Postgres Save.

  function Others(steps: seq<SqlRuns.Step>): seq<Event> {
    seq(|steps|, i requires 0 <= i < |steps| => Other(steps[i]))
  }

  lemma {:induction false} OthersOnlyStep(burns: bool, sys: System, steps: seq<SqlRuns.Step>)
    ensures After(burns, sys, Others(steps)) == System(SqlRuns.After(burns, sys.db, steps), sys.adds)
  {
    if steps == [] {
    } else {
      var n := |steps| - 1;
      assert Others(steps)[..n] == Others(steps[..n]);
      OthersOnlyStep(burns, sys, steps[..n]);
    }
  }

  /** An insert, any steps of others and the check: if the insert has not answered already, the
      request is answered by what Save returns. */
  lemma PostgresAnswersWhatSaveReturns(burns: bool, sys: System, id: nat, steps: seq<SqlRuns.Step>)
    requires SqlRuns.Inv(sys.db) && id in sys.adds && sys.adds[id].Saving?
    ensures var url, abv := sys.adds[id].url, sys.adds[id].abv;
            var sys' := Do(burns, After(burns, Do(burns, sys, InsertRow(id)), Others(steps)), Verify(id));
            id in sys'.adds && sys'.adds[id] == Replied(url, abv, SqlRuns.NilAfter(burns, sys.db, abv, url, steps))
  {
    OthersOnlyStep(burns, Do(burns, sys, InsertRow(id)), steps);
  }
}

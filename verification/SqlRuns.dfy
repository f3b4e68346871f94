/** Concurrent runs of the SQL stores: requests, deletes and background hit updates in any
    interleaving of their atomic steps. */
module SqlRuns {
  import opened Model
  import opened SqlTables

  /** `waiting` holds the row ids read by GetUrl calls whose background update has not begun;
      `half` those whose first statement has run and whose second has not. */
  datatype State = State(t: Tables, waiting: multiset<nat>, half: multiset<nat>)

  const START := State(EMPTY, multiset{}, multiset{})

  datatype Step =
    | Save(abv: string, url: string)
    | DeleteAbv(abv: string)
    | DeleteUrl(url: string)
    | Lookup(abv: string)
    | BeginFlush(id: nat)
    | EndFlush(id: nat, date: Date)
    | Flush(id: nat, date: Date)

  /** The steps of dao/sqlitedb.go: both statements of an update run under the write lock. */
  predicate OfSqlite(step: Step) {
    !step.BeginFlush? && !step.EndFlush?
  }

  ghost function Do(burns: bool, s: State, step: Step): State {
    match step
    case Save(abv, url) => s.(t := Insert(s.t, abv, url, burns))
    case DeleteAbv(abv) => s.(t := SqlTables.DeleteAbv(s.t, abv))
    case DeleteUrl(url) => s.(t := SqlTables.DeleteUrl(s.t, url))
    case Lookup(abv) =>
      (match IdOf(s.t, abv)
       case None => s
       case Some(id) => s.(waiting := s.waiting + multiset{id}))
    case BeginFlush(id) =>
      if id in s.waiting then State(UpdateHits(s.t, id), s.waiting - multiset{id}, s.half + multiset{id}) else s
    case EndFlush(id, date) =>
      if id in s.half then s.(t := UpsertDaily(s.t, id, date), half := s.half - multiset{id}) else s
    case Flush(id, date) =>
      if id in s.waiting then
        s.(t := UpsertDaily(UpdateHits(s.t, id), id, date), waiting := s.waiting - multiset{id})
      else s
  }

  ghost function After(burns: bool, s: State, steps: seq<Step>): State {
    if steps == [] then s else Do(burns, After(burns, s, steps[..|steps| - 1]), steps[|steps| - 1])
  }

  lemma BeginFlushStep(burns: bool, s: State, id: nat)
    requires id in s.waiting
    ensures Do(burns, s, BeginFlush(id))
         == State(UpdateHits(s.t, id), s.waiting - multiset{id}, s.half + multiset{id})
  {
  }

  lemma OneMoreStep(burns: bool, s: State, steps: seq<Step>, step: Step)
    ensures After(burns, s, steps + [step]) == Do(burns, After(burns, s, steps), step)
  {
    assert (steps + [step])[..|steps|] == steps;
  }

  ghost predicate Inv(s: State) {
    && Consistent(s.t)
    && forall id | id in s.waiting || id in s.half :: id < s.t.nextId
  }

  lemma DoKeepsInv(burns: bool, s: State, step: Step)
    requires Inv(s)
    ensures Inv(Do(burns, s, step)) && Do(burns, s, step).t.nextId >= s.t.nextId
  {
    hide Consistent, Insert, IdOf, RowsWithAbv, RowsWithUrl, DeleteRows, UpdateHits, UpsertDaily;
    match step
    case Save(abv, url) => InsertKeepsConsistency(s.t, abv, url, burns);
    case DeleteAbv(abv) => DeletesKeepConsistency(s.t, RowsWithAbv(s.t, abv));
    case DeleteUrl(url) => DeletesKeepConsistency(s.t, RowsWithUrl(s.t, url));
    case Lookup(abv) => FoundIdIsLive(s.t, abv);
    case BeginFlush(id) => UpdatesKeepConsistency(s.t, id, "");
    case EndFlush(id, date) => UpdatesKeepConsistency(s.t, id, date);
    case Flush(id, date) =>
      UpdatesKeepConsistency(s.t, id, date);
      UpdatesKeepConsistency(UpdateHits(s.t, id), id, date);
  }

  /** Both columns stay unique and daily rows keep their parent, in every interleaving. */
  lemma {:induction false} EveryRunIsConsistent(burns: bool, s: State, steps: seq<Step>)
    requires Inv(s)
    ensures Inv(After(burns, s, steps)) && After(burns, s, steps).t.nextId >= s.t.nextId
  {
    if steps == [] {
    } else {
      EveryRunIsConsistent(burns, s, steps[..|steps| - 1]);
      DoKeepsInv(burns, After(burns, s, steps[..|steps| - 1]), steps[|steps| - 1]);
    }
  }

  /** A locked update is a two-statement update that nothing interrupts, so every SQLite run is
      also a run of the two-statement machine. */
  lemma LockedFlushIsBothHalves(burns: bool, s: State, id: nat, date: Date)
    requires id in s.waiting
    ensures Do(burns, s, Flush(id, date)) == Do(burns, Do(burns, s, BeginFlush(id)), EndFlush(id, date))
  {
    var half := s.half + multiset{id};
    assert half - multiset{id} == s.half;
  }

  // Delayed-hit accounting.

  /** The step is a lookup that reads row `id`. */
  ghost predicate ReadsRow(s: State, step: Step, id: nat) {
    step.Lookup? && IdOf(s.t, step.abv) == Some(id)
  }

  /** How many lookups among `steps`, taken from `s` on, read row `id`. */
  ghost function Reads(burns: bool, s: State, steps: seq<Step>, id: nat): nat {
    if steps == [] then 0
    else
      var n := |steps| - 1;
      Reads(burns, s, steps[..n], id) + if ReadsRow(After(burns, s, steps[..n]), steps[n], id) then 1 else 0
  }

  /** The books of row `id` after `looked` lookups of it. */
  ghost predicate Balanced(s: State, id: nat, looked: nat) {
    && (id in s.t.rows ==>
          && looked == s.t.rows[id].hits + s.waiting[id]
          && s.t.rows[id].hits == Sum(DailyOf(s.t, id)) + s.half[id])
    && (id >= s.t.nextId ==> looked == 0)
  }

  lemma DoKeepsBalance(burns: bool, s: State, step: Step, id: nat, looked: nat)
    requires Inv(s) && Balanced(s, id, looked)
    ensures Balanced(Do(burns, s, step), id, looked + if ReadsRow(s, step, id) then 1 else 0)
  {
    hide Consistent, Insert, IdOf, DeleteRows, RowsWithAbv, RowsWithUrl, UpdateHits, UpsertDaily, DailyOf;
    DoKeepsInv(burns, s, step);
    match step
    case Save(abv, url) =>
      InsertAccounts(s.t, abv, url, burns, id);
      assert Sum<Date>(map[]) == 0;
    case DeleteAbv(abv) => DeleteAccounts(s.t, RowsWithAbv(s.t, abv), id);
    case DeleteUrl(url) => DeleteAccounts(s.t, RowsWithUrl(s.t, url), id);
    case Lookup(abv) => FoundIdIsLive(s.t, abv);
    case BeginFlush(other) => UpdateAccounts(s.t, other, id);
    case EndFlush(other, date) =>
      UpsertAccounts(s.t, other, date, id);
      SumAddHits(DailyOf(s.t, id), date, 1);
    case Flush(other, date) =>
      UpdateAccounts(s.t, other, id);
      UpsertAccounts(UpdateHits(s.t, other), other, date, id);
      SumAddHits(DailyOf(s.t, id), date, 1);
  }

  /** In every interleaving: each live row has been looked up as often as its hits and its
      not yet started updates say, and its hits exceed its daily hits by its half-done updates. */
  lemma {:induction false} EveryRunBalances(burns: bool, steps: seq<Step>, id: nat)
    ensures Balanced(After(burns, START, steps), id, Reads(burns, START, steps, id))
  {
    if steps == [] {
    } else {
      var n := |steps| - 1;
      EveryRunBalances(burns, steps[..n], id);
      EveryRunIsConsistent(burns, START, steps[..n]);
      DoKeepsBalance(burns, After(burns, START, steps[..n]), steps[n], id,
                     Reads(burns, START, steps[..n], id));
    }
  }

  /** At quiescence lookups, hits and daily hits of every live row agree. */
  lemma QuiescentRunsAgree(burns: bool, steps: seq<Step>, id: nat)
    requires var s := After(burns, START, steps);
             s.waiting == multiset{} && s.half == multiset{} && id in s.t.rows
    ensures var t := After(burns, START, steps).t;
            Reads(burns, START, steps, id) == t.rows[id].hits == Sum(DailyOf(t, id))
  {
    EveryRunBalances(burns, steps, id);
  }

  lemma {:induction false} AfterConcat(burns: bool, s: State, first: seq<Step>, second: seq<Step>)
    ensures After(burns, s, first + second) == After(burns, After(burns, s, first), second)
  {
    if second == [] {
      assert first + second == first;
    } else {
      var n := |second| - 1;
      assert (first + second)[..|first + second| - 1] == first + second[..n];
      AfterConcat(burns, s, first, second[..n]);
    }
  }

  // Statistics.

  ghost predicate SqliteRun(steps: seq<Step>) {
    forall i | 0 <= i < |steps| :: OfSqlite(steps[i])
  }

  lemma {:induction false} LockedRunsHaveNoHalves(burns: bool, steps: seq<Step>)
    requires SqliteRun(steps)
    ensures After(burns, START, steps).half == multiset{}
  {
    if steps == [] {
    } else {
      LockedRunsHaveNoHalves(burns, steps[..|steps| - 1]);
      assert OfSqlite(steps[|steps| - 1]);
    }
  }

  /** SQLite statistics are never torn: in every interleaving, what GetStats reports for a live
      row has hits equal to the sum of its daily hits. */
  lemma SqliteStatsAreNeverTorn(burns: bool, steps: seq<Step>, abv: string)
    requires SqliteRun(steps)
    ensures var stats := GetStats(After(burns, START, steps).t, abv);
            stats.Ok? ==> stats.value.hits == Sum(stats.value.daily)
  {
    LockedRunsHaveNoHalves(burns, steps);
    assert Sum<Date>(map[]) == 0;
    var t := After(burns, START, steps).t;
    if IdOf(t, abv).Some? {
      EveryRunBalances(burns, steps, IdOf(t, abv).value);
    }
  }

  /** The step is the first statement of an update of row `id`. */
  predicate BeginsUpdate(s: State, step: Step, id: nat) {
    (step.BeginFlush? || step.Flush?) && step.id == id && id in s.waiting
  }

  /** How many updates of row `id` run their first statement among `steps`, taken from `s` on. */
  ghost function Begun(burns: bool, s: State, steps: seq<Step>, id: nat): nat {
    if steps == [] then 0
    else
      var n := |steps| - 1;
      Begun(burns, s, steps[..n], id) + if BeginsUpdate(After(burns, s, steps[..n]), steps[n], id) then 1 else 0
  }

  lemma DoMovesHits(burns: bool, s: State, step: Step, id: nat)
    requires Inv(s) && id < s.t.nextId
    ensures var t := Do(burns, s, step).t;
            id in t.rows ==>
              id in s.t.rows && t.rows[id].hits == s.t.rows[id].hits + if BeginsUpdate(s, step, id) then 1 else 0
  {
    hide Consistent, Insert, IdOf, DeleteRows, RowsWithAbv, RowsWithUrl, UpdateHits, UpsertDaily, DailyOf;
    match step
    case Save(abv, url) => InsertAccounts(s.t, abv, url, burns, id);
    case DeleteAbv(abv) => DeleteAccounts(s.t, RowsWithAbv(s.t, abv), id);
    case DeleteUrl(url) => DeleteAccounts(s.t, RowsWithUrl(s.t, url), id);
    case Lookup(_) =>
    case BeginFlush(other) => UpdateAccounts(s.t, other, id);
    case EndFlush(other, date) => UpsertAccounts(s.t, other, date, id);
    case Flush(other, date) =>
      UpdateAccounts(s.t, other, id);
      UpsertAccounts(UpdateHits(s.t, other), other, date, id);
  }

  /** The hits of a row that stays are those it had and one for each update begun since. */
  lemma {:induction false} HitsCountBegunUpdates(burns: bool, s: State, steps: seq<Step>, id: nat)
    requires Inv(s) && id in s.t.rows
    ensures var t := After(burns, s, steps).t;
            id in t.rows ==> t.rows[id].hits == s.t.rows[id].hits + Begun(burns, s, steps, id)
  {
    hide Do, BeginsUpdate;
    if steps == [] {
    } else {
      var n := |steps| - 1;
      HitsCountBegunUpdates(burns, s, steps[..n], id);
      EveryRunIsConsistent(burns, s, steps[..n]);
      DoMovesHits(burns, After(burns, s, steps[..n]), steps[n], id);
    }
  }

  /** Postgres statistics: GetStats reads the row in one statement and its daily hits in a later
      one, with steps of others in between. If the row is still there, what it reports differs by
      the updates begun in between on one side, and those half done at the end on the other; if
      it is gone, no daily hits are reported. */
  lemma TwoReadStatistics(burns: bool, before: seq<Step>, between: seq<Step>, abv: string)
    requires HasAbv(After(burns, START, before).t, abv)
    ensures var s1 := After(burns, START, before);
            var s2 := After(burns, s1, between);
            var id := IdOf(s1.t, abv).value;
            && id in s1.t.rows
            && var hits, daily := s1.t.rows[id].hits, DailyOf(s2.t, id);
            && (id in s2.t.rows ==> hits + Begun(burns, s1, between, id) == Sum(daily) + s2.half[id])
            && (id !in s2.t.rows ==> daily == map[])
            && (hits == Sum(daily) <==>
                  if id in s2.t.rows then Begun(burns, s1, between, id) == s2.half[id] else hits == 0)
  {
    var s1 := After(burns, START, before);
    var s2 := After(burns, s1, between);
    EveryRunIsConsistent(burns, START, before);
    FoundIdIsLive(s1.t, abv);
    var id := IdOf(s1.t, abv).value;
    HitsCountBegunUpdates(burns, s1, between, id);
    AfterConcat(burns, START, before, between);
    EveryRunBalances(burns, before + between, id);
    EveryRunIsConsistent(burns, s1, between);
    assert id !in s2.t.rows ==> DailyOf(s2.t, id) == map[];
    assert Sum<Date>(map[]) == 0;
  }

  /** Statistics whose two reads nothing separates are whole exactly when no update of that row
      is between its two statements. */
  lemma StatsAreWholeIffNoHalfDoneUpdate(burns: bool, steps: seq<Step>, abv: string)
    requires GetStats(After(burns, START, steps).t, abv).Ok? && HasAbv(After(burns, START, steps).t, abv)
    ensures var s := After(burns, START, steps);
            var stats := GetStats(s.t, abv).value;
            stats.hits == Sum(stats.daily) <==> IdOf(s.t, abv).value !in s.half
  {
    TwoReadStatistics(burns, steps, [], abv);
  }

  // Rows and their incarnations.

  lemma DoKeepsRow(burns: bool, s: State, step: Step, id: nat)
    requires Inv(s) && id < s.t.nextId
    ensures var t := Do(burns, s, step).t;
            && (id in t.rows ==> SameRow(s.t, t, id))
            && (id in s.t.rows && step != DeleteAbv(s.t.rows[id].abv) && step != DeleteUrl(s.t.rows[id].url) ==>
                  SameRow(s.t, t, id))
  {
    hide Consistent, Insert, IdOf, DeleteRows, UpdateHits, UpsertDaily;
    match step
    case Save(abv, url) => InsertKeepsRow(s.t, abv, url, burns, id);
    case DeleteAbv(abv) => DeleteKeepsRow(s.t, RowsWithAbv(s.t, abv), id);
    case DeleteUrl(url) => DeleteKeepsRow(s.t, RowsWithUrl(s.t, url), id);
    case Lookup(_) =>
    case BeginFlush(other) => UpdateKeepsRow(s.t, other, "", id);
    case EndFlush(other, date) => UpdateKeepsRow(s.t, other, date, id);
    case Flush(other, date) =>
      UpdateKeepsRow(s.t, other, date, id);
      UpdateKeepsRow(UpdateHits(s.t, other), other, date, id);
  }

  /** Ids are never reused and a row is never retargeted: a row with an id that was already
      given out is the same row as before, with the same abbreviation and URL. */
  lemma {:induction false} RowsKeepTheirIdentity(burns: bool, s: State, steps: seq<Step>, id: nat)
    requires Inv(s) && id < s.t.nextId
    ensures var t := After(burns, s, steps).t; id in t.rows ==> SameRow(s.t, t, id)
  {
    hide Do, Inv;
    if steps == [] {
    } else {
      var n := |steps| - 1;
      RowsKeepTheirIdentity(burns, s, steps[..n], id);
      EveryRunIsConsistent(burns, s, steps[..n]);
      DoKeepsRow(burns, After(burns, s, steps[..n]), steps[n], id);
    }
  }

  /** Only a delete of its abbreviation or of its URL removes a row. */
  lemma {:induction false} RowsSurvive(burns: bool, s: State, steps: seq<Step>, id: nat)
    requires Inv(s) && id in s.t.rows
    requires forall i | 0 <= i < |steps| ::
               steps[i] != DeleteAbv(s.t.rows[id].abv) && steps[i] != DeleteUrl(s.t.rows[id].url)
    ensures SameRow(s.t, After(burns, s, steps).t, id)
  {
    hide Do;
    if steps == [] {
    } else {
      var n := |steps| - 1;
      RowsSurvive(burns, s, steps[..n], id);
      EveryRunIsConsistent(burns, s, steps[..n]);
      DoKeepsRow(burns, After(burns, s, steps[..n]), steps[n], id);
    }
  }

  /** SQL saves never retarget an abbreviation: if a later lookup of a stored abbreviation does
      not find the same URL, one of its deletes came in between. */
  lemma RetargetingNeedsADelete(burns: bool, s: State, steps: seq<Step>, abv: string)
    requires Inv(s) && HasAbv(s.t, abv)
    requires UrlOf(After(burns, s, steps).t, abv) != UrlOf(s.t, abv)
    ensures exists i | 0 <= i < |steps| ::
              steps[i] == DeleteAbv(abv) || steps[i] == DeleteUrl(UrlOf(s.t, abv))
  {
    if forall i | 0 <= i < |steps| :: steps[i] != DeleteAbv(abv) && steps[i] != DeleteUrl(UrlOf(s.t, abv)) {
      FoundIdIsLive(s.t, abv);
      var id := IdOf(s.t, abv).value;
      RowsSurvive(burns, s, steps, id);
      EveryRunIsConsistent(burns, s, steps);
      TheIdOf(After(burns, s, steps).t, id);
    }
  }

  lemma {:induction false} UnreadRowIsNeverRead(burns: bool, s: State, later: seq<Step>, id: nat, i: nat)
    requires Inv(s) && id in s.t.rows && i < |later|
    requires later[i] != Lookup(s.t.rows[id].abv)
    ensures later[i].Lookup? ==> IdOf(After(burns, s, later[..i]).t, later[i].abv) != Some(id)
  {
    EveryRunIsConsistent(burns, s, later[..i]);
    RowsKeepTheirIdentity(burns, s, later[..i], id);
    if later[i].Lookup? {
      FoundIdIsLive(After(burns, s, later[..i]).t, later[i].abv);
    }
  }

  lemma {:induction false} ReadsConcat(burns: bool, s: State, first: seq<Step>, second: seq<Step>, id: nat)
    ensures Reads(burns, s, first + second, id)
         == Reads(burns, s, first, id) + Reads(burns, After(burns, s, first), second, id)
  {
    if second == [] {
      assert first + second == first;
    } else {
      hide Do, ReadsRow;
      var n := |second| - 1;
      assert (first + second)[..|first + second| - 1] == first + second[..n];
      ReadsConcat(burns, s, first, second[..n], id);
      AfterConcat(burns, s, first, second[..n]);
    }
  }

  lemma {:induction false} UnreadRowHasNoReads(burns: bool, s: State, later: seq<Step>, id: nat)
    requires Inv(s) && id in s.t.rows
    requires forall i | 0 <= i < |later| :: later[i] != Lookup(s.t.rows[id].abv)
    ensures Reads(burns, s, later, id) == 0
  {
    if later == [] {
    } else {
      UnreadRowHasNoReads(burns, s, later[..|later| - 1], id);
      UnreadRowIsNeverRead(burns, s, later, id, |later| - 1);
    }
  }

  lemma SavedRowIsUnread(burns: bool, before: seq<Step>, abv: string, url: string)
    requires var t := After(burns, START, before).t; !HasAbv(t, abv) && !HasUrl(t, url)
    ensures var id := After(burns, START, before).t.nextId;
            var saved := Do(burns, After(burns, START, before), Save(abv, url));
            && After(burns, START, before + [Save(abv, url)]) == saved
            && id in saved.t.rows && saved.t.rows[id] == Row(abv, url, 0) && id < saved.t.nextId
            && Reads(burns, START, before + [Save(abv, url)], id) == 0
  {
    var steps := before + [Save(abv, url)];
    assert steps[..|steps| - 1] == before;
    EveryRunBalances(burns, before, After(burns, START, before).t.nextId);
  }

  /** No credit across incarnations: however many updates are outstanding for earlier rows of the
      same abbreviation or URL, the books of a newly saved row start from zero and balance
      against the lookups of that row alone. */
  lemma OldFlushesNeverCreditANewRow(burns: bool, before: seq<Step>, abv: string, url: string, later: seq<Step>)
    requires var t := After(burns, START, before).t; !HasAbv(t, abv) && !HasUrl(t, url)
    ensures var id := After(burns, START, before).t.nextId;
            var saved := Do(burns, After(burns, START, before), Save(abv, url));
            var s := After(burns, saved, later);
            id in s.t.rows ==>
              && s.t.rows[id].abv == abv && s.t.rows[id].url == url
              && s.t.rows[id].hits + s.waiting[id] == Reads(burns, saved, later, id)
              && s.t.rows[id].hits == Sum(DailyOf(s.t, id)) + s.half[id]
  {
    var id := After(burns, START, before).t.nextId;
    var steps := before + [Save(abv, url)];
    SavedRowIsUnread(burns, before, abv, url);
    EveryRunIsConsistent(burns, START, steps);
    hide Do, Consistent;
    RowsKeepTheirIdentity(burns, After(burns, START, steps), later, id);
    AfterConcat(burns, START, steps, later);
    ReadsConcat(burns, START, steps, later, id);
    EveryRunBalances(burns, steps + later, id);
  }

  lemma StoredDailyHitsArePositive(t: Tables, id: nat)
    requires Consistent(t)
    ensures DailyOf(t, id) != map[] ==> Sum(DailyOf(t, id)) > 0
  {
    var m := DailyOf(t, id);
    if m != map[] {
      var d :| d in m;
      assert t.daily[(id, d)] > 0;
      SumRemove(m, d);
    }
  }

  lemma ZeroBooksAreEmpty(s: State, id: nat)
    requires Consistent(s.t)
    ensures id in s.t.rows && s.t.rows[id].hits == 0 == Sum(DailyOf(s.t, id)) + s.half[id] ==> DailyOf(s.t, id) == map[]
  {
    StoredDailyHitsArePositive(s.t, id);
  }

  /** So a new row that is not looked up keeps no hits and no daily hits. */
  lemma UnreadNewRowStaysEmpty(burns: bool, before: seq<Step>, abv: string, url: string, later: seq<Step>)
    requires var t := After(burns, START, before).t; !HasAbv(t, abv) && !HasUrl(t, url)
    requires forall i | 0 <= i < |later| :: later[i] != Lookup(abv)
    ensures var id := After(burns, START, before).t.nextId;
            var t := After(burns, Do(burns, After(burns, START, before), Save(abv, url)), later).t;
            id in t.rows ==> t.rows[id] == Row(abv, url, 0) && DailyOf(t, id) == map[]
  {
    var id := After(burns, START, before).t.nextId;
    var saved := Do(burns, After(burns, START, before), Save(abv, url));
    SavedRowIsUnread(burns, before, abv, url);
    EveryRunIsConsistent(burns, START, before + [Save(abv, url)]);
    EveryRunIsConsistent(burns, saved, later);
    assert Consistent(After(burns, saved, later).t);
    hide Do, Consistent, Inv, After, DailyOf, HasAbv, HasUrl, IdOf, Reads, ReadsRow, Sum;
    OldFlushesNeverCreditANewRow(burns, before, abv, url, later);
    UnreadRowHasNoReads(burns, saved, later, id);
    ZeroBooksAreEmpty(After(burns, saved, later), id);
  }

  // A Save whose check is a statement of its own.

  /** Save returns nil when `steps` of others come between its insert, made at `s`, and its check. */
  ghost predicate NilAfter(burns: bool, s: State, abv: string, url: string, steps: seq<Step>) {
    SaveReturnsNil(s.t, After(burns, Do(burns, s, Save(abv, url)), steps).t, abv, url)
  }

  ghost predicate StoredAtInsertOrCheck(burns: bool, s: State, abv: string, url: string, steps: seq<Step>) {
    || HasUrl(Do(burns, s, Save(abv, url)).t, url)
    || HasUrl(After(burns, Do(burns, s, Save(abv, url)), steps).t, url)
  }

  /** When the insert meets the abbreviation without the URL, a delete of the abbreviation between
      the two statements loses the URL. */
  lemma DeleteBetweenLosesTheUrl(burns: bool, s: State, abv: string, url: string)
    requires Inv(s) && HasAbv(s.t, abv) && !HasUrl(s.t, url)
    ensures NilAfter(burns, s, abv, url, [DeleteAbv(abv)])
    ensures !StoredAtInsertOrCheck(burns, s, abv, url, [DeleteAbv(abv)])
  {
    var inserted := Do(burns, s, Save(abv, url));
    var steps := [DeleteAbv(abv)];
    assert steps[..|steps| - 1] == [];
    assert After(burns, inserted, steps) == Do(burns, inserted, DeleteAbv(abv));
    assert inserted.t.rows == s.t.rows;
    var t := SqlTables.DeleteAbv(inserted.t, abv);
    assert forall id | id in t.rows :: id in s.t.rows && t.rows[id] == s.t.rows[id] && t.rows[id].abv != abv;
  }

  /** Postgres: a nil Save is sure to have had its URL stored at one of its two statements,
      whatever happens in between, if and only if its insert meets an abbreviation that is free
      or a URL that is stored. */
  lemma TwoStatementSaveMeaning(burns: bool, s: State, abv: string, url: string)
    requires Inv(s)
    ensures (forall steps ::
               NilAfter(burns, s, abv, url, steps) ==> StoredAtInsertOrCheck(burns, s, abv, url, steps))
       <==> !HasAbv(s.t, abv) || HasUrl(s.t, url)
  {
    InsertStoresTheUrl(s.t, abv, url, burns);
    if HasAbv(s.t, abv) && !HasUrl(s.t, url) {
      DeleteBetweenLosesTheUrl(burns, s, abv, url);
    }
  }
}

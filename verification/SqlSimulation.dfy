/** The SQL stores, used sequentially, simulate the abstract store, in whatever order their
    background updates are run before the next request. */
module SqlSimulation {
  import opened Model
  import opened ShortUrlDao
  import opened SqlTables
  import opened SqlRuns
  import opened Refinement
  import A = AbstractStore

  /** Runs every outstanding background update, in some order. */
  ghost function Settle(burns: bool, s: State, date: Date): State
    decreases |s.waiting|, |s.half|
  {
    if s.half != multiset{} then
      var id :| id in s.half;
      Settle(burns, Do(burns, s, EndFlush(id, date)), date)
    else if s.waiting != multiset{} then
      var id :| id in s.waiting;
      Settle(burns, Do(burns, s, Flush(id, date)), date)
    else s
  }

  ghost function SqlDao(burns: bool): Dao<State> {
    Dao((s: State, abv: string, date: Date) => (Do(burns, s, Lookup(abv)), UrlOf(s.t, abv)),
        (s: State, url: string) => AbvOf(s.t, url),
        (s: State, abv: string) => GetStats(s.t, abv),
        (s: State, abv: string, url: string) =>
          (Do(burns, s, Save(abv, url)), SaveReturnsNil(s.t, Do(burns, s, Save(abv, url)).t, abv, url)),
        (s: State, abv: string) => Do(burns, s, DeleteAbv(abv)),
        (s: State, date: Date) => Settle(burns, s, date))
  }

  /** Row `id` is worth `e` once its outstanding updates have run on `date`. */
  ghost predicate WillMatch(s: State, id: nat, e: A.Entry, date: Date)
    requires id in s.t.rows
  {
    && s.t.rows[id].url == e.url
    && s.t.rows[id].hits + s.waiting[id] == e.hits
    && AddHits(DailyOf(s.t, id), date, s.waiting[id] + s.half[id]) == e.daily
  }

  ghost predicate RepresentsOn(s: State, st: Store, date: Date) {
    && Inv(s)
    && (forall id | id in s.t.rows :: s.t.rows[id].abv in st && WillMatch(s, id, st[s.t.rows[id].abv], date))
    && (forall a | a in st :: HasAbv(s.t, a))
  }

  ghost predicate Represents(s: State, st: Store) {
    s.waiting == multiset{} && s.half == multiset{} && RepresentsOn(s, st, "")
  }

  lemma LookupsAgree(s: State, st: Store, date: Date, abv: string, url: string)
    requires RepresentsOn(s, st, date) && A.OneToOne(st)
    ensures UrlOf(s.t, abv) == A.UrlOf(st, abv) && AbvOf(s.t, url) == A.AbvOf(st, url)
    ensures (abv in st <==> HasAbv(s.t, abv)) && (A.HasUrl(st, url) <==> HasUrl(s.t, url))
  {
    FoundIdIsLive(s.t, abv);
    if A.HasUrl(st, url) {
      var a :| a in st && st[a].url == url;
      FoundIdIsLive(s.t, a);
      assert s.t.rows[IdOf(s.t, a).value].url == url;
    }
    if HasUrl(s.t, url) {
      var id :| id in s.t.rows && s.t.rows[id].url == url;
      assert st[s.t.rows[id].abv].url == url;
    }
  }

  lemma LookupKeepsMatch(burns: bool, s: State, abv: string, id: nat, e: A.Entry, date: Date)
    requires Inv(s) && id in s.t.rows && WillMatch(s, id, e, date)
    ensures WillMatch(Do(burns, s, Lookup(abv)), id, if s.t.rows[id].abv == abv then A.Credit(e, date) else e, date)
  {
    hide DailyOf;
    TheIdOf(s.t, id);
    FoundIdIsLive(s.t, abv);
    hide Inv, IdOf;
    AddHitsTwice(DailyOf(s.t, id), date, s.waiting[id] + s.half[id], 1);
  }

  lemma LookupLeavesTables(burns: bool, s: State, abv: string)
    ensures Do(burns, s, Lookup(abv)).t == s.t
  {
  }

  lemma LookupRepresents(burns: bool, s: State, st: Store, abv: string, date: Date)
    requires RepresentsOn(s, st, date) && A.OneToOne(st)
    ensures RepresentsOn(Do(burns, s, Lookup(abv)), A.GetUrl(st, abv, date).0, date)
  {
    hide Inv, HasAbv, IdOf, DailyOf, Do, UrlOf, AbvOf, A.OneToOne, A.AbvOf, AddHits, WillMatch;
    DoKeepsInv(burns, s, Lookup(abv));
    LookupLeavesTables(burns, s, abv);
    var s', st' := Do(burns, s, Lookup(abv)), A.GetUrl(st, abv, date).0;
    forall id | id in s'.t.rows
      ensures s'.t.rows[id].abv in st' && WillMatch(s', id, st'[s'.t.rows[id].abv], date)
    {
      LookupKeepsMatch(burns, s, abv, id, st[s.t.rows[id].abv], date);
    }
  }

  lemma NewRowMatches(s: State, id: nat, abv: string, url: string, date: Date)
    requires id in s.t.rows && s.t.rows[id] == Row(abv, url, 0)
    requires s.waiting[id] == 0 && s.half[id] == 0 && DailyOf(s.t, id) == map[]
    ensures WillMatch(s, id, A.Entry(url, 0, map[]), date)
  {
  }

  lemma MatchCarriesOver(s: State, s': State, id: nat, e: A.Entry, date: Date)
    requires id in s.t.rows && WillMatch(s, id, e, date)
    requires id in s'.t.rows && s'.t.rows[id] == s.t.rows[id] && DailyOf(s'.t, id) == DailyOf(s.t, id)
    requires s'.waiting == s.waiting && s'.half == s.half
    ensures WillMatch(s', id, e, date)
  {
  }

  lemma SaveAddsTheRow(burns: bool, s: State, abv: string, url: string)
    requires Inv(s) && !HasAbv(s.t, abv) && !HasUrl(s.t, url)
    ensures var s', added := Do(burns, s, Save(abv, url)), s.t.nextId;
            && added !in s.t.rows && s'.t.rows == s.t.rows[added := Row(abv, url, 0)]
            && s'.waiting == s.waiting && s'.half == s.half && s.waiting[added] == s.half[added] == 0
            && DailyOf(s'.t, added) == map[]
            && forall id | id in s.t.rows :: DailyOf(s'.t, id) == DailyOf(s.t, id)
  {
    InsertAccounts(s.t, abv, url, burns, s.t.nextId);
    forall id | id in s.t.rows
      ensures DailyOf(Insert(s.t, abv, url, burns), id) == DailyOf(s.t, id)
    {
      InsertAccounts(s.t, abv, url, burns, id);
    }
  }

  lemma SaveRepresents(burns: bool, s: State, st: Store, abv: string, url: string, date: Date)
    requires RepresentsOn(s, st, date) && A.OneToOne(st) && abv !in st && !A.HasUrl(st, url)
    ensures RepresentsOn(Do(burns, s, Save(abv, url)), A.Save(st, abv, url), date)
    ensures SaveReturnsNil(s.t, Do(burns, s, Save(abv, url)).t, abv, url)
  {
    hide Do, Insert, Inv, WillMatch, DailyOf, UrlOf, AbvOf, IdOf, A.OneToOne, A.HasUrl, HasUrl;
    DoKeepsInv(burns, s, Save(abv, url));
    LookupsAgree(s, st, date, abv, url);
    SaveAddsTheRow(burns, s, abv, url);
    var s', st' := Do(burns, s, Save(abv, url)), A.Save(st, abv, url);
    forall id | id in s'.t.rows
      ensures s'.t.rows[id].abv in st' && WillMatch(s', id, st'[s'.t.rows[id].abv], date)
    {
      if id == s.t.nextId {
        NewRowMatches(s', id, abv, url, date);
      } else {
        assert s.t.rows[id].abv in st && WillMatch(s, id, st[s.t.rows[id].abv], date);
        MatchCarriesOver(s, s', id, st[s.t.rows[id].abv], date);
      }
    }
    forall a | a in st'
      ensures HasAbv(s'.t, a)
    {
      if a == abv {
        assert s'.t.rows[s.t.nextId].abv == a;
      } else {
        var id :| id in s.t.rows && s.t.rows[id].abv == a;
        assert s'.t.rows[id].abv == a;
      }
    }
  }

  lemma DeleteKeepsMatch(burns: bool, s: State, abv: string, id: nat, e: A.Entry, date: Date)
    requires id in s.t.rows && s.t.rows[id].abv != abv && WillMatch(s, id, e, date)
    ensures var s' := Do(burns, s, DeleteAbv(abv));
            id in s'.t.rows && s'.t.rows[id] == s.t.rows[id] && WillMatch(s', id, e, date)
  {
    hide DailyOf, AddHits;
    DeleteAccounts(s.t, RowsWithAbv(s.t, abv), id);
  }

  lemma DeletedRowIsGone(burns: bool, s: State, abv: string, id: nat)
    ensures var t := Do(burns, s, DeleteAbv(abv)).t; id in t.rows ==> id in s.t.rows && s.t.rows[id].abv != abv
  {
  }

  lemma DeleteLeavesUpdates(burns: bool, s: State, abv: string)
    ensures var s' := Do(burns, s, DeleteAbv(abv)); s'.waiting == s.waiting && s'.half == s.half
  {
  }

  lemma DeleteRepresents(burns: bool, s: State, st: Store, abv: string)
    requires Represents(s, st)
    ensures Represents(Do(burns, s, DeleteAbv(abv)), st - {abv})
  {
    hide Inv, Do, WillMatch;
    DoKeepsInv(burns, s, DeleteAbv(abv));
    DeleteLeavesUpdates(burns, s, abv);
    var s', st' := Do(burns, s, DeleteAbv(abv)), st - {abv};
    forall id | id in s'.t.rows
      ensures s'.t.rows[id].abv in st' && WillMatch(s', id, st'[s'.t.rows[id].abv], "")
    {
      DeletedRowIsGone(burns, s, abv, id);
      DeleteKeepsMatch(burns, s, abv, id, st[s.t.rows[id].abv], "");
    }
    forall a | a in st'
      ensures HasAbv(s'.t, a)
    {
      var id :| id in s.t.rows && s.t.rows[id].abv == a;
      DeleteKeepsMatch(burns, s, abv, id, st[a], "");
    }
  }

  predicate BackgroundStep(step: Step, date: Date) {
    step.BeginFlush? || (step.EndFlush? && step.date == date) || (step.Flush? && step.date == date)
  }

  lemma BackgroundStepKeepsRow(burns: bool, s: State, step: Step, id: nat)
    requires Inv(s) && (step.BeginFlush? || step.EndFlush? || step.Flush?)
    ensures var t := Do(burns, s, step).t; id in s.t.rows || id in t.rows ==> SameRow(s.t, t, id)
  {
    if id < s.t.nextId {
      DoKeepsRow(burns, s, step, id);
    } else {
      UpdateKeepsRow(s.t, step.id, "", id);
    }
  }

  lemma BeginKeepsMatch(burns: bool, s: State, other: nat, id: nat, e: A.Entry, date: Date)
    requires id in s.t.rows && WillMatch(s, id, e, date)
    ensures var s' := Do(burns, s, BeginFlush(other)); id in s'.t.rows && WillMatch(s', id, e, date)
  {
    hide DailyOf, UpdateHits;
    UpdateAccounts(s.t, other, id);
    UpdateKeepsRow(s.t, other, date, id);
  }

  lemma EndKeepsMatch(burns: bool, s: State, other: nat, id: nat, e: A.Entry, date: Date)
    requires id in s.t.rows && WillMatch(s, id, e, date)
    ensures var s' := Do(burns, s, EndFlush(other, date)); id in s'.t.rows && WillMatch(s', id, e, date)
  {
    hide DailyOf, UpsertDaily;
    UpsertAccounts(s.t, other, date, id);
    if other == id && id in s.half {
      AddHitsTwice(DailyOf(s.t, id), date, 1, s.waiting[id] + s.half[id] - 1);
    }
  }

  lemma BackgroundStepKeepsMatch(burns: bool, s: State, step: Step, id: nat, e: A.Entry, date: Date)
    requires id in s.t.rows && WillMatch(s, id, e, date) && BackgroundStep(step, date)
    ensures var s' := Do(burns, s, step); id in s'.t.rows && WillMatch(s', id, e, date)
  {
    match step
    case BeginFlush(other) => BeginKeepsMatch(burns, s, other, id, e, date);
    case EndFlush(other, _) => EndKeepsMatch(burns, s, other, id, e, date);
    case Flush(other, _) =>
      if other in s.waiting {
        LockedFlushIsBothHalves(burns, s, other, date);
        BeginKeepsMatch(burns, s, other, id, e, date);
        EndKeepsMatch(burns, Do(burns, s, BeginFlush(other)), other, id, e, date);
      }
  }

  /** Any background step leaves what the store is worth as it is, so their order is immaterial. */
  lemma BackgroundStepsRepresent(burns: bool, s: State, st: Store, date: Date, step: Step)
    requires RepresentsOn(s, st, date) && BackgroundStep(step, date)
    ensures RepresentsOn(Do(burns, s, step), st, date)
  {
    DoKeepsInv(burns, s, step);
    var s' := Do(burns, s, step);
    assert step.BeginFlush? || step.EndFlush? || step.Flush?;
    hide Do, Consistent, WillMatch, BackgroundStep;
    forall id | id in s'.t.rows
      ensures s'.t.rows[id].abv in st && WillMatch(s', id, st[s'.t.rows[id].abv], date)
    {
      BackgroundStepKeepsRow(burns, s, step, id);
      BackgroundStepKeepsMatch(burns, s, step, id, st[s.t.rows[id].abv], date);
    }
    forall a | a in st
      ensures HasAbv(s'.t, a)
    {
      var id :| id in s.t.rows && s.t.rows[id].abv == a;
      BackgroundStepKeepsRow(burns, s, step, id);
      assert s'.t.rows[id].abv == a;
    }
  }

  lemma AnyDayWillDo(s: State, st: Store, date: Date, date': Date)
    requires s.waiting == multiset{} && s.half == multiset{} && RepresentsOn(s, st, date)
    ensures RepresentsOn(s, st, date')
  {
  }

  lemma {:induction false} SettleRepresents(burns: bool, s: State, st: Store, date: Date)
    requires RepresentsOn(s, st, date)
    ensures Represents(Settle(burns, s, date), st)
    decreases |s.waiting|, |s.half|
  {
    hide RepresentsOn;
    if s.half != multiset{} {
      var id :| id in s.half && Settle(burns, s, date) == Settle(burns, Do(burns, s, EndFlush(id, date)), date);
      BackgroundStepsRepresent(burns, s, st, date, EndFlush(id, date));
      SettleRepresents(burns, Do(burns, s, EndFlush(id, date)), st, date);
    } else if s.waiting != multiset{} {
      var id :| id in s.waiting && Settle(burns, s, date) == Settle(burns, Do(burns, s, Flush(id, date)), date);
      BackgroundStepsRepresent(burns, s, st, date, Flush(id, date));
      SettleRepresents(burns, Do(burns, s, Flush(id, date)), st, date);
    } else {
      AnyDayWillDo(s, st, date, "");
    }
  }

  lemma StatsAgree(s: State, st: Store, abv: string)
    requires Represents(s, st) && A.OneToOne(st)
    ensures GetStats(s.t, abv) == A.StatsOf(Scanned, st, abv)
  {
    LookupsAgree(s, st, "", abv, "");
    FoundIdIsLive(s.t, abv);
  }

  lemma SqlSimulates(burns: bool)
    ensures Simulates(SqlDao(burns), RepresentsOn, Represents)
    ensures Reports(SqlDao(burns), Scanned, Represents)
  {
    hide Do, RepresentsOn, UrlOf, AbvOf, GetStats, SaveReturnsNil, Settle, A.OneToOne;
    var dao := SqlDao(burns);
    forall s, st, d, a | RepresentsOn(s, st, d) && A.OneToOne(st)
      ensures dao.getUrl(s, a, d).1 == A.UrlOf(st, a) && RepresentsOn(dao.getUrl(s, a, d).0, A.GetUrl(st, a, d).0, d)
    {
      LookupRepresents(burns, s, st, a, d);
      LookupsAgree(s, st, d, a, "");
    }
    forall s, st, d, u | RepresentsOn(s, st, d) && A.OneToOne(st)
      ensures dao.getAbv(s, u) == A.AbvOf(st, u)
    {
      LookupsAgree(s, st, d, "", u);
    }
    forall s, st, d, a, u | RepresentsOn(s, st, d) && A.OneToOne(st)
                            && a !in st && !A.HasUrl(st, u) && a != "" && u != ""
      ensures dao.save(s, a, u).1 && RepresentsOn(dao.save(s, a, u).0, A.Save(st, a, u), d)
    {
      SaveRepresents(burns, s, st, a, u, d);
    }
    forall s, st, a | Represents(s, st) && A.OneToOne(st)
      ensures Represents(dao.deleteAbv(s, a), st - {a}) && dao.getStats(s, a) == A.StatsOf(Scanned, st, a)
    {
      DeleteRepresents(burns, s, st, a);
      StatsAgree(s, st, a);
    }
    forall s, st, d | Represents(s, st)
      ensures RepresentsOn(s, st, d)
    {
      AnyDayWillDo(s, st, "", d);
    }
    forall s, st, d | RepresentsOn(s, st, d) && A.OneToOne(st)
      ensures Represents(dao.settle(s, d), st)
    {
      SettleRepresents(burns, s, st, d);
    }
  }

}

/** The Redis store, used sequentially, simulates the abstract store. */
module RedisSimulation {
  import opened Model
  import opened ShortUrlDao
  import opened RedisKeys
  import opened RedisRuns
  import R = Refinement
  import A = AbstractStore

  /** Runs every outstanding task, in some order. */
  ghost function Settle(s: State, date: Date): State
    decreases |s.tasks|
  {
    if s.tasks == multiset{} then s
    else
      var task :| task in s.tasks;
      Settle(Do(s, Exec(task, date, "")), date)
  }

  function OrEmpty(o: Option<string>): string {
    match o case Some(v) => v case None => ""
  }

  ghost function RedisDao(): Dao<State> {
    Dao((s: State, abv: string, date: Date) => (Do(s, Lookup(abv)), OrEmpty(UrlOf(s.ks, abv))),
        (s: State, url: string) => OrEmpty(AbvOf(s.ks, url)),
        (s: State, abv: string) => GetStats(s.ks, abv),
        (s: State, abv: string, url: string) =>
          if MaySave(s.ks, abv, url) then (s.(ks := StoreTx(s.ks, abv, url)), true) else (s, false),
        (s: State, abv: string) => s.(ks := Deleted(s.ks, abv)),
        (s: State, date: Date) => Settle(s, date))
  }

  /** What the store holds for `abv` once its outstanding hit updates have run on `date`. */
  ghost predicate WillMatch(s: State, abv: string, e: A.Entry, date: Date) {
    && UrlOf(s.ks, abv) == Some(e.url)
    && HitsOf(s.ks, abv) + s.tasks[Hit(abv)] == e.hits
    && AddHits(DailyOf(s.ks, abv), date, s.tasks[Hit(abv)]) == e.daily
  }

  ghost predicate Absent(s: State, abv: string) {
    AbvKey(abv) !in s.ks && DailyKey(abv) !in s.ks && Hit(abv) !in s.tasks
  }

  ghost predicate Holds(s: State, st: R.Store, abv: string, date: Date) {
    if abv in st then AbvKey(abv) in s.ks && WillMatch(s, abv, st[abv], date) else Absent(s, abv)
  }

  ghost predicate HoldsUrl(s: State, st: R.Store, url: string) {
    AbvOf(s.ks, url) == if A.HasUrl(st, url) then Some(A.AbvOf(st, url)) else None
  }

  ghost predicate RepresentsOn(s: State, st: R.Store, date: Date) {
    && Typed(s.ks)
    && (forall task | task in s.tasks :: task.Hit?)
    && (forall abv :: Holds(s, st, abv, date))
    && (forall url :: HoldsUrl(s, st, url))
  }

  ghost predicate Represents(s: State, st: R.Store) {
    s.tasks == multiset{} && RepresentsOn(s, st, "")
  }

  lemma AbsentHasNoUrl(s: State, abv: string)
    ensures AbvKey(abv) !in s.ks ==> UrlOf(s.ks, abv) == None && HitsOf(s.ks, abv) == 0
    ensures DailyKey(abv) !in s.ks ==> DailyOf(s.ks, abv) == map[]
  {
  }

  lemma LookupKeepsHolding(s: State, st: R.Store, abv: string, date: Date, b: string)
    requires Holds(s, st, abv, date) && Holds(s, st, b, date)
    ensures Holds(Do(s, Lookup(abv)), A.GetUrl(st, abv, date).0, b, date)
  {
    hide UrlOf, HitsOf, DailyOf;
    AbsentHasNoUrl(s, abv);
    AddHitsTwice(DailyOf(s.ks, b), date, s.tasks[Hit(b)], 1);
  }

  lemma SameAbvOf(st: R.Store, st': R.Store, url: string)
    requires A.OneToOne(st) && A.OneToOne(st')
    requires st'.Keys == st.Keys && forall a | a in st :: st'[a].url == st[a].url
    ensures (A.HasUrl(st', url) <==> A.HasUrl(st, url)) && A.AbvOf(st', url) == A.AbvOf(st, url)
  {
    if A.HasUrl(st, url) {
      var a :| a in st && st[a].url == url;
      assert a in st' && st'[a].url == url;
    }
    if A.HasUrl(st', url) {
      var a :| a in st' && st'[a].url == url;
      assert a in st && st[a].url == url;
    }
  }

  lemma LookupFindsTheUrl(s: State, st: R.Store, abv: string, date: Date)
    requires Holds(s, st, abv, date)
    ensures OrEmpty(UrlOf(s.ks, abv)) == A.UrlOf(st, abv)
  {
    hide UrlOf, HitsOf, DailyOf;
    AbsentHasNoUrl(s, abv);
  }

  lemma LookupQueuesOnlyHits(s: State, abv: string)
    ensures var s' := Do(s, Lookup(abv));
            s'.ks == s.ks && forall task | task in s'.tasks :: task in s.tasks || task == Hit(abv)
  {
  }

  lemma LookupRepresents(s: State, st: R.Store, abv: string, date: Date)
    requires RepresentsOn(s, st, date) && A.OneToOne(st)
    ensures RepresentsOn(Do(s, Lookup(abv)), A.GetUrl(st, abv, date).0, date)
  {
    hide Typed, UrlOf, HitsOf, DailyOf, AbvOf, Do, Holds, A.OneToOne;
    var s', st' := Do(s, Lookup(abv)), A.GetUrl(st, abv, date).0;
    LookupQueuesOnlyHits(s, abv);
    assert Holds(s, st, abv, date);
    forall b
      ensures Holds(s', st', b, date)
    {
      assert Holds(s, st, b, date);
      LookupKeepsHolding(s, st, abv, date, b);
    }
    A.CreditKeepsOneToOne(st, abv, date);
    forall url
      ensures HoldsUrl(s', st', url)
    {
      assert HoldsUrl(s, st, url);
      SameAbvOf(st, st', url);
    }
  }

  lemma AbvOfAfterSave(st: R.Store, abv: string, url: string, v: string)
    requires A.OneToOne(st) && abv !in st && !A.HasUrl(st, url) && abv != "" && url != ""
    ensures var st' := A.Save(st, abv, url);
            && (A.HasUrl(st', v) <==> v == url || A.HasUrl(st, v))
            && A.AbvOf(st', v) == if v == url then abv else A.AbvOf(st, v)
  {
    var st' := A.Save(st, abv, url);
    assert abv in st' && st'[abv].url == url;
    if A.HasUrl(st, v) {
      var a :| a in st && st[a].url == v;
      assert a in st' && st'[a].url == v;
    }
    A.SaveKeepsOneToOne(st, abv, url);
  }

  lemma SaveRepresents(s: State, st: R.Store, abv: string, url: string, date: Date)
    requires RepresentsOn(s, st, date) && A.OneToOne(st) && abv !in st && !A.HasUrl(st, url) && abv != "" && url != ""
    ensures MaySave(s.ks, abv, url)
    ensures RepresentsOn(s.(ks := StoreTx(s.ks, abv, url)), A.Save(st, abv, url), date)
  {
    var s', st' := s.(ks := StoreTx(s.ks, abv, url)), A.Save(st, abv, url);
    assert Holds(s, st, abv, date);
    AbsentHasNoUrl(s, abv);
    StoreTxKeepsTypes(s.ks, abv, url);
    hide Typed, UrlOf, HitsOf, DailyOf, AbvOf, StoreTx;
    forall b
      ensures Holds(s', st', b, date)
    {
      assert Holds(s, st, b, date);
      StoreTxEffect(s.ks, abv, url, b);
    }
    A.SaveKeepsOneToOne(st, abv, url);
    forall v
      ensures HoldsUrl(s', st', v)
    {
      assert HoldsUrl(s, st, v);
      StoreTxEffect(s.ks, abv, url, v);
      AbvOfAfterSave(st, abv, url, v);
    }
  }

  lemma AbvOfAfterDelete(st: R.Store, abv: string, v: string)
    requires A.OneToOne(st) && abv in st
    ensures var st' := st - {abv};
            && (A.HasUrl(st', v) <==> v != st[abv].url && A.HasUrl(st, v))
            && (v != st[abv].url ==> A.AbvOf(st', v) == A.AbvOf(st, v))
  {
    var st' := st - {abv};
    if v != st[abv].url && A.HasUrl(st, v) {
      var a :| a in st && st[a].url == v;
      assert a in st' && st'[a].url == v;
    }
  }

  lemma DeleteRepresents(s: State, st: R.Store, abv: string)
    requires Represents(s, st) && A.OneToOne(st)
    ensures Represents(s.(ks := Deleted(s.ks, abv)), st - {abv})
  {
    var s', st' := s.(ks := Deleted(s.ks, abv)), st - {abv};
    assert Holds(s, st, abv, "");
    AbsentHasNoUrl(s, abv);
    if abv in st {
      var url := st[abv].url;
      EraseTxKeepsTypes(s.ks, abv, url);
      hide Typed, UrlOf, HitsOf, DailyOf, AbvOf, EraseTx;
      forall b
        ensures Holds(s', st', b, "")
      {
        assert Holds(s, st, b, "");
        EraseTxEffect(s.ks, abv, url, b);
      }
      forall v
        ensures HoldsUrl(s', st', v)
      {
        assert HoldsUrl(s, st, v);
        EraseTxEffect(s.ks, abv, url, v);
        AbvOfAfterDelete(st, abv, v);
      }
    } else {
      assert st' == st;
    }
  }

  lemma HitKeepsHolding(s: State, s': State, st: R.Store, abv: string, date: Date, b: string)
    requires Typed(s.ks) && Hit(abv) in s.tasks && Holds(s, st, abv, date) && Holds(s, st, b, date)
    requires s' == State(HitTx(s.ks, abv, date, ""), s.tasks - multiset{Hit(abv)})
    ensures Holds(s', st, b, date)
  {
    hide Typed, UrlOf, HitsOf, DailyOf, AbvOf, HitTx;
    HitTxEffect(s.ks, abv, date, "", b);
    if b == abv {
      AddHitsTwice(DailyOf(s.ks, b), date, 1, s.tasks[Hit(b)] - 1);
    }
  }

  /** Any background update leaves what the store is worth as it is. */
  lemma HitRepresents(s: State, st: R.Store, task: Task, date: Date)
    requires RepresentsOn(s, st, date) && task in s.tasks
    ensures RepresentsOn(Do(s, Exec(task, date, "")), st, date)
  {
    var abv := task.abv;
    var s' := Do(s, Exec(task, date, ""));
    HitTxKeepsTypes(s.ks, abv, date, "");
    assert Holds(s, st, abv, date);
    assert s' == State(HitTx(s.ks, abv, date, ""), s.tasks - multiset{task});
    hide Typed, UrlOf, HitsOf, DailyOf, AbvOf, HitTx, Do, Holds;
    forall b
      ensures Holds(s', st, b, date)
    {
      HitKeepsHolding(s, s', st, abv, date, b);
    }
    forall v
      ensures HoldsUrl(s', st, v)
    {
      assert HoldsUrl(s, st, v);
      HitTxEffect(s.ks, abv, date, "", v);
    }
  }

  lemma AnyDayWillDo(s: State, st: R.Store, date: Date, date': Date)
    requires s.tasks == multiset{} && RepresentsOn(s, st, date)
    ensures RepresentsOn(s, st, date')
  {
    forall b
      ensures Holds(s, st, b, date')
    {
      assert Holds(s, st, b, date);
    }
  }

  lemma {:induction false} SettleRepresents(s: State, st: R.Store, date: Date)
    requires RepresentsOn(s, st, date)
    ensures Represents(Settle(s, date), st)
    decreases |s.tasks|
  {
    hide RepresentsOn;
    if s.tasks == multiset{} {
      AnyDayWillDo(s, st, date, "");
    } else {
      var task :| task in s.tasks && Settle(s, date) == Settle(Do(s, Exec(task, date, "")), date);
      HitRepresents(s, st, task, date);
      SettleRepresents(Do(s, Exec(task, date, "")), st, date);
    }
  }

  lemma StatsAgree(s: State, st: R.Store, abv: string)
    requires Represents(s, st)
    ensures GetStats(s.ks, abv) == A.StatsOf(Saturated, st, abv)
  {
    assert Holds(s, st, abv, "");
    assert AbvKey(abv) in s.ks ==> TypedRecord(s.ks[AbvKey(abv)]);
  }

  lemma AbvOfAgrees(s: State, st: R.Store, url: string, date: Date)
    requires RepresentsOn(s, st, date)
    ensures OrEmpty(AbvOf(s.ks, url)) == A.AbvOf(st, url)
  {
    assert HoldsUrl(s, st, url);
  }

  lemma EmptyRepresents()
    ensures Represents(START, map[])
  {
  }

  lemma HoldsAll(s: State, st: R.Store, abv: string, date: Date)
    requires RepresentsOn(s, st, date)
    ensures Holds(s, st, abv, date)
  {
  }

  lemma RedisSimulates()
    ensures R.Simulates(RedisDao(), RepresentsOn, Represents)
    ensures R.Reports(RedisDao(), Saturated, Represents)
  {
    hide Do, RepresentsOn, Holds, UrlOf, AbvOf, GetStats, MaySave, StoreTx, Deleted, Settle, A.OneToOne;
    var dao := RedisDao();
    forall s, st, d, a | RepresentsOn(s, st, d) && A.OneToOne(st)
      ensures dao.getUrl(s, a, d).1 == A.UrlOf(st, a) && RepresentsOn(dao.getUrl(s, a, d).0, A.GetUrl(st, a, d).0, d)
    {
      HoldsAll(s, st, a, d);
      LookupFindsTheUrl(s, st, a, d);
      LookupRepresents(s, st, a, d);
    }
    forall s, st, d, u | RepresentsOn(s, st, d) && A.OneToOne(st)
      ensures dao.getAbv(s, u) == A.AbvOf(st, u)
    {
      AbvOfAgrees(s, st, u, d);
    }
    forall s, st, d, a, u | RepresentsOn(s, st, d) && A.OneToOne(st)
                            && a !in st && !A.HasUrl(st, u) && a != "" && u != ""
      ensures dao.save(s, a, u).1 && RepresentsOn(dao.save(s, a, u).0, A.Save(st, a, u), d)
    {
      SaveRepresents(s, st, a, u, d);
    }
    forall s, st, a | Represents(s, st) && A.OneToOne(st)
      ensures Represents(dao.deleteAbv(s, a), st - {a}) && dao.getStats(s, a) == A.StatsOf(Saturated, st, a)
    {
      DeleteRepresents(s, st, a);
      StatsAgree(s, st, a);
    }
    forall s, st, d | Represents(s, st)
      ensures RepresentsOn(s, st, d)
    {
      AnyDayWillDo(s, st, "", d);
    }
    forall s, st, d | RepresentsOn(s, st, d) && A.OneToOne(st)
      ensures Represents(dao.settle(s, d), st)
    {
      SettleRepresents(s, st, d);
    }
  }
}

/** When a store simulates the abstract one, every sequential run of requests is answered
    exactly as the abstract store answers it. */
module Refinement {
  import opened Model
  import opened ShortUrlDao
  import opened Generator
  import opened Protocol
  import A = AbstractStore
  import opened ReservedWords
  import opened Rando

  type Store = A.Store

  /** `during` relates the states within a request on a given day, when hit updates may be
      outstanding; `between` relates the states between requests. */
  ghost predicate Simulates<S(!new)>(dao: Dao<S>, during: (S, Store, Date) -> bool, between: (S, Store) -> bool) {
    && (forall s, st, d, a | during(s, st, d) && A.OneToOne(st) ::
          dao.getUrl(s, a, d).1 == A.UrlOf(st, a) && during(dao.getUrl(s, a, d).0, A.GetUrl(st, a, d).0, d))
    && (forall s, st, d, u | during(s, st, d) && A.OneToOne(st) :: dao.getAbv(s, u) == A.AbvOf(st, u))
    && (forall s, st, d, a, u | during(s, st, d) && A.OneToOne(st)
                                && a !in st && !A.HasUrl(st, u) && a != "" && u != "" ::
          dao.save(s, a, u).1 && during(dao.save(s, a, u).0, A.Save(st, a, u), d))
    && (forall s, st, a | between(s, st) && A.OneToOne(st) :: between(dao.deleteAbv(s, a), st - {a}))
    && (forall s, st, d | between(s, st) && A.OneToOne(st) :: during(s, st, d))
    && (forall s, st, d | during(s, st, d) && A.OneToOne(st) :: between(dao.settle(s, d), st))
  }

  /** Between requests, statistics are those of the abstract store, narrowed as this store does. */
  ghost predicate Reports<S(!new)>(dao: Dao<S>, narrow: A.Narrowing, between: (S, Store) -> bool) {
    forall s, st, a | between(s, st) && A.OneToOne(st) :: dao.getStats(s, a) == A.StatsOf(narrow, st, a)
  }

  predicate SameVariables<S, T>(p: Probe<S>, q: Probe<T>) {
    && p.size == q.size && p.pos == q.pos && p.tries == q.tries
    && p.abv == q.abv && p.url == q.url && p.rejected == q.rejected
  }

  /** Two creations stand at the same point: both have run into a call that does not return, or
      their variables agree and their stores are related. */
  ghost predicate InStep<S(!new)>(during: (S, Store, Date) -> bool, date: Date, urls: map<string, string>,
                                  p: Option<Probe<S>>, q: Option<Probe<Store>>) {
    && p.Some? == q.Some?
    && (p.Some? ==> SameVariables(p.value, q.value) && during(p.value.store, q.value.store, date)
                    && A.OneToOne(q.value.store) && A.Urls(q.value.store) == urls)
  }

  lemma LookupSimulates<S(!new)>(dao: Dao<S>, during: (S, Store, Date) -> bool, between: (S, Store) -> bool,
                                 s: S, st: Store, abv: string, date: Date)
    requires Simulates(dao, during, between) && during(s, st, date) && A.OneToOne(st)
    ensures dao.getUrl(s, abv, date).1 == A.GetUrl(st, abv, date).1
    ensures var st' := A.GetUrl(st, abv, date).0;
            during(dao.getUrl(s, abv, date).0, st', date) && A.OneToOne(st') && A.Urls(st') == A.Urls(st)
  {
    A.CreditKeepsOneToOne(st, abv, date);
  }

  lemma LookSimulates<S(!new)>(dao: Dao<S>, narrow: A.Narrowing,
      during: (S, Store, Date) -> bool, between: (S, Store) -> bool,
      cfg: Config, s: S, st: Store, size: int, pos: nat, tries: nat, date: Date)
    requires Simulates(dao, during, between) && during(s, st, date) && A.OneToOne(st)
    ensures InStep(during, date, A.Urls(st), Look(dao, cfg, s, size, pos, tries, date),
                   Look(A.AbstractDao(narrow), cfg, st, size, pos, tries, date))
  {
    hide Simulates, A.OneToOne, A.Urls, A.GetUrl, RandString;
    var r := RandString(cfg, size, pos);
    if r.Some? {
      LookupSimulates(dao, during, between, s, st, r.value.word, date);
    }
  }

  lemma NextProbeSimulates<S(!new)>(dao: Dao<S>, narrow: A.Narrowing, during: (S, Store, Date) -> bool,
      between: (S, Store) -> bool, cfg: Config, p: Probe<S>, q: Probe<Store>, date: Date)
    requires Simulates(dao, during, between)
    requires SameVariables(p, q) && during(p.store, q.store, date) && A.OneToOne(q.store)
    ensures InStep(during, date, A.Urls(q.store), NextProbe(dao, cfg, p, date),
                   NextProbe(A.AbstractDao(narrow), cfg, q, date))
  {
    hide Simulates, A.OneToOne, A.Urls, A.GetUrl, Look, InStep;
    var g := Grow(cfg.retries, p.size, p.tries);
    LookupSimulates(dao, during, between, p.store, q.store, p.abv, date);
    LookSimulates(dao, narrow, during, between, cfg, dao.getUrl(p.store, p.abv, date).0,
                  A.GetUrl(q.store, p.abv, date).0, g.size, p.pos, g.tries, date);
  }

  /** The same call, on a store and on the abstract store that it stands for. */
  ghost predicate SameCall<S(!new)>(during: (S, Store, Date) -> bool, c: Call<S>, c': Call<Store>) {
    && c.cfg == c'.cfg && c.size == c'.size && c.pos == c'.pos && c.url == c'.url && c.date == c'.date
    && during(c.store, c'.store, c.date) && A.OneToOne(c'.store)
  }

  lemma {:induction false} ProbesSimulate<S(!new)>(dao: Dao<S>, narrow: A.Narrowing,
      during: (S, Store, Date) -> bool, between: (S, Store) -> bool, c: Call<S>, c': Call<Store>, n: nat)
    requires Simulates(dao, during, between) && SameCall(during, c, c')
    ensures InStep(during, c.date, A.Urls(c'.store), ProbeN(dao, c, n), ProbeN(A.AbstractDao(narrow), c', n))
  {
    hide Simulates, A.OneToOne, A.Urls, Look, NextProbe, SameVariables;
    if n == 0 {
      LookSimulates(dao, narrow, during, between, c.cfg, c.store, c'.store, c.size, c.pos, 0, c.date);
    } else {
      ProbesSimulate(dao, narrow, during, between, c, c', n - 1);
      var p, q := ProbeN(dao, c, n - 1), ProbeN(A.AbstractDao(narrow), c', n - 1);
      if p.Some? {
        NextProbeSimulates(dao, narrow, during, between, c.cfg, p.value, q.value, c.date);
      }
    }
  }

  /** The stores at the same randString call. */
  lemma StoresReachedSimulate<S(!new)>(dao: Dao<S>, narrow: A.Narrowing,
      during: (S, Store, Date) -> bool, between: (S, Store) -> bool, c: Call<S>, c': Call<Store>, n: nat)
    requires Simulates(dao, during, between) && SameCall(during, c, c')
    ensures var st := StoreReached(A.AbstractDao(narrow), c', n);
            during(StoreReached(dao, c, n), st, c.date) && A.OneToOne(st) && A.Urls(st) == A.Urls(c'.store)
  {
    hide Simulates, A.OneToOne, A.Urls, A.GetUrl, ProbeN;
    if n == 0 {
    } else {
      ProbesSimulate(dao, narrow, during, between, c, c', n - 1);
      var p, q := ProbeN(dao, c, n - 1), ProbeN(A.AbstractDao(narrow), c', n - 1);
      if p.Some? {
        LookupSimulates(dao, during, between, p.value.store, q.value.store, p.value.abv, c.date);
      }
    }
  }

  ghost predicate SameUrls(st: Store, st': Store) {
    st'.Keys == st.Keys && forall a | a in st :: st'[a].url == st[a].url
  }

  /** What a creation that returns leaves behind, on a store and on the abstract one. */
  ghost predicate SameReturn<S(!new)>(during: (S, Store, Date) -> bool, c': Call<Store>,
                                      p: Probe<S>, q: Probe<Store>) {
    && SameVariables(p, q) && during(p.store, q.store, c'.date)
    && A.OneToOne(q.store) && SameUrls(c'.store, q.store) && !A.HasUrl(q.store, c'.url)
    && p.abv !in c'.store && p.url == ""
    && Acceptable(c'.cfg.bad, p.abv) && OverAlphabet(p.abv) && |p.abv| == Length(p.size) && p.size >= c'.size
  }

  /** What a creation that does not return leaves behind. */
  ghost predicate SameStop<S(!new)>(during: (S, Store, Date) -> bool, c': Call<Store>, s: S, st: Store) {
    during(s, st, c'.date) && A.OneToOne(st) && SameUrls(c'.store, st)
  }

  ghost predicate SameCreation<S(!new)>(during: (S, Store, Date) -> bool, c': Call<Store>,
                                        made: Creation<S>, made': Creation<Store>) {
    && made.Returned? == made'.Returned? && made.collisions == made'.collisions
    && if made.Returned? then SameReturn(during, c', made.last, made'.last)
       else SameStop(during, c', made.store, made'.store)
  }

  lemma SameWord<S, T>(p: Probe<S>, q: Probe<T>)
    requires SameVariables(p, q)
    ensures p.abv == q.abv && p.url == q.url && p.size == q.size
  {
  }

  /** Creations in step collide, return and fail to return together. */
  lemma CollideTogether<S(!new)>(dao: Dao<S>, abs: Dao<Store>, during: (S, Store, Date) -> bool,
                                 c: Call<S>, c': Call<Store>)
    requires c.url == c'.url
    requires forall j: nat :: InStep(during, c.date, A.Urls(c'.store), ProbeN(dao, c, j), ProbeN(abs, c', j))
    ensures forall n: nat ::
              && (CreatesAfter(dao, c, n) <==> CreatesAfter(abs, c', n))
              && (StuckAfter(dao, c, n) <==> StuckAfter(abs, c', n))
    ensures CallsReturn(dao, c) <==> CallsReturn(abs, c')
  {
    hide ProbeN;
    forall j: nat
      ensures ProbeN(dao, c, j).Some? == ProbeN(abs, c', j).Some?
      ensures Collides(ProbeN(dao, c, j), c.url) <==> Collides(ProbeN(abs, c', j), c.url)
    {
      assert InStep(during, c.date, A.Urls(c'.store), ProbeN(dao, c, j), ProbeN(abs, c', j));
    }
    forall n: nat
      ensures AllCollide(dao, c, n) <==> AllCollide(abs, c', n)
    {
    }
    forall n: nat
      ensures StuckAfter(dao, c, n) <==> StuckAfter(abs, c', n)
    {
    }
  }

  lemma FreeWhenEmpty(st: Store, abv: string, url: string, u: string)
    requires A.OneToOne(st) && !A.HasUrl(st, url)
    requires u == A.ResolveIn(A.Urls(st), abv) && (u == "" || u == url)
    ensures abv !in st && u == ""
  {
  }

  lemma UrlsDecide(st: Store, st': Store, url: string)
    requires A.Urls(st) == A.Urls(st')
    ensures SameUrls(st, st') && (A.HasUrl(st, url) <==> A.HasUrl(st', url))
  {
    assert A.Urls(st).Keys == st.Keys && A.Urls(st').Keys == st'.Keys;
    forall a | a in st
      ensures st'[a].url == st[a].url
    {
      assert A.Urls(st)[a] == A.Urls(st')[a];
    }
  }

  /** A creation for a URL that is not stored: it returns if and only if each randString call that
      it makes does, just when it returns on the abstract store, and with the same outcome; its
      abbreviation is free, acceptable and as long as the key size. */
  lemma CreationSimulates<S(!new)>(dao: Dao<S>, narrow: A.Narrowing,
      during: (S, Store, Date) -> bool, between: (S, Store) -> bool, c: Call<S>, c': Call<Store>)
    requires Simulates(dao, during, between)
    requires SameCall(during, c, c') && !A.HasUrl(c'.store, c'.url)
    ensures CreateAbbreviation(dao, c).Returned? <==> CallsReturn(dao, c)
    ensures SameCreation(during, c', CreateAbbreviation(dao, c), CreateAbbreviation(A.AbstractDao(narrow), c'))
  {
    hide Simulates, A.OneToOne, A.AbstractDao, ProbeN, SameVariables, StoreReached;
    var abs := A.AbstractDao(narrow);
    var longest := SomeKeyIsLongest(c'.store.Keys);
    A.AbstractOnlyCounts(narrow);
    CreationOutcome(abs, c', longest, A.Urls, A.ResolveIn, A.TotalHits);
    forall j: nat
      ensures InStep(during, c.date, A.Urls(c'.store), ProbeN(dao, c, j), ProbeN(abs, c', j))
    {
      ProbesSimulate(dao, narrow, during, between, c, c', j);
    }
    CollideTogether(dao, abs, during, c, c');
    var n := CreateAbbreviation(abs, c').collisions;
    if CallsReturn(abs, c') {
      n :| CreatesAfter(abs, c', n);
      CreatesOnce(abs, c', n);
      CreatesOnce(dao, c, n);
      var q := ProbeN(abs, c', n).value;
      UrlsDecide(c'.store, q.store, c'.url);
      FreeWhenEmpty(c'.store, q.abv, c'.url, q.url);
      SameWord(ProbeN(dao, c, n).value, q);
    } else {
      StuckOnce(abs, c', n);
      StuckOnce(dao, c, n);
      StoresReachedSimulate(dao, narrow, during, between, c, c', n);
      UrlsDecide(c'.store, StoreReached(abs, c', n), c'.url);
    }
  }

  // Requests and runs.

  /** The add request creates a new abbreviation rather than finding one. */
  ghost predicate IsCreation(st: Store, req: Request) {
    req.Add? && req.url != "" && req.valid && !A.HasUrl(st, req.url)
  }

  ghost predicate Related<S>(between: (S, Store) -> bool, sys: Sys<S>, abs: Sys<Store>) {
    && between(sys.store, abs.store) && A.OneToOne(abs.store)
    && sys.size == abs.size >= 1 && sys.pos == abs.pos && sys.halted == abs.halted
  }

  /** What the abstract store promises about one request that is answered. */
  ghost predicate Answered(cfg: Config, abs: Sys<Store>, req: Request, abs': Sys<Store>, response: Response) {
    && abs'.size >= abs.size
    && (req.Add? && req.url != "" && req.valid && !abs'.halted ==>
          && response.Link?
          && response.abv in abs'.store && abs'.store[response.abv].url == req.url
          && (IsCreation(abs.store, req) ==>
                && response.abv !in abs.store && |response.abv| == abs'.size
                && Acceptable(cfg.bad, response.abv) && OverAlphabet(response.abv))
          && forall a | a in abs.store :: a in abs'.store && abs'.store[a].url == abs.store[a].url)
  }

  lemma SaveSimulates<S(!new)>(dao: Dao<S>, during: (S, Store, Date) -> bool, between: (S, Store) -> bool,
      c': Call<Store>, p: Probe<S>, q: Probe<Store>)
    requires Simulates(dao, during, between) && c'.size >= 1 && c'.url != ""
    requires SameReturn(during, c', p, q)
    ensures dao.save(p.store, p.abv, c'.url).1
    ensures var st' := A.Save(q.store, q.abv, c'.url);
            && during(dao.save(p.store, p.abv, c'.url).0, st', c'.date) && A.OneToOne(st')
            && forall a | a in c'.store :: a in st' && st'[a].url == c'.store[a].url
  {
    A.SaveKeepsOneToOne(q.store, q.abv, c'.url);
  }

  lemma AddSimulates<S(!new)>(dao: Dao<S>, narrow: A.Narrowing,
      during: (S, Store, Date) -> bool, between: (S, Store) -> bool,
      cfg: Config, sys: Sys<S>, abs: Sys<Store>, req: Request)
    requires Simulates(dao, during, between)
    requires Related(between, sys, abs) && !sys.halted && IsCreation(abs.store, req)
    ensures var (sys', response) := Respond(dao, cfg, sys, req);
            var (abs', response') := Respond(A.AbstractDao(narrow), cfg, abs, req);
            && response == response' && Answered(cfg, abs, req, abs', response)
            && (sys'.halted <==> !AddReturns(dao, cfg, sys, req.url, req.valid, req.date))
            && sys'.size == abs'.size && sys'.pos == abs'.pos && sys'.halted == abs'.halted
            && during(sys'.store, abs'.store, req.date) && A.OneToOne(abs'.store)
            && Collisions(dao, cfg, sys, req) == Collisions(A.AbstractDao(narrow), cfg, abs, req)
  {
    A.GetAbvFinds(abs.store, req.url);
    assert during(sys.store, abs.store, req.date);
    assert dao.getAbv(sys.store, req.url) == "";
    var c, c' := CallOf(cfg, sys, req.url, req.date), CallOf(cfg, abs, req.url, req.date);
    CreationSimulates(dao, narrow, during, between, c, c');
    hide CreateAbbreviation, CallsReturn;
    var made, made' := CreateAbbreviation(dao, c), CreateAbbreviation(A.AbstractDao(narrow), c');
    if made.Returned? {
      SaveSimulates(dao, during, between, c', made.last, made'.last);
    }
  }

  lemma RequestSimulates<S(!new)>(dao: Dao<S>, narrow: A.Narrowing,
      during: (S, Store, Date) -> bool, between: (S, Store) -> bool,
      cfg: Config, sys: Sys<S>, abs: Sys<Store>, req: Request)
    requires Simulates(dao, during, between) && Related(between, sys, abs)
    ensures var (sys', response) := Handle(dao, cfg, sys, req);
            var (abs', response') := Handle(A.AbstractDao(narrow), cfg, abs, req);
            && Related(between, sys', abs')
            && Answered(cfg, abs, req, abs', response')
            && (!req.GetStats? || Reports(dao, narrow, between) ==> response == response')
            && (!sys.halted ==>
                  (sys'.halted <==> req.Add? && !AddReturns(dao, cfg, sys, req.url, req.valid, req.date)))
            && Collisions(dao, cfg, sys, req) == Collisions(A.AbstractDao(narrow), cfg, abs, req)
  {
    if !sys.halted {
      assert during(sys.store, abs.store, req.date);
      match req
      case Add(url, valid, date) =>
        A.GetAbvFinds(abs.store, url);
        if IsCreation(abs.store, req) {
          AddSimulates(dao, narrow, during, between, cfg, sys, abs, req);
        }
      case Get(abv, date) =>
        A.CreditKeepsOneToOne(abs.store, abv, date);
      case GetStats(abv, _) =>
      case Delete(abv, date) =>
        assert A.OneToOne(abs.store - {abv});
        assert during(dao.deleteAbv(sys.store, abv), abs.store - {abv}, date);
    }
  }

  lemma {:induction false} FinalSimulates<S(!new)>(dao: Dao<S>, narrow: A.Narrowing,
      during: (S, Store, Date) -> bool, between: (S, Store) -> bool,
      cfg: Config, sys: Sys<S>, abs: Sys<Store>, reqs: seq<Request>)
    requires Simulates(dao, during, between) && Related(between, sys, abs)
    ensures Related(between, Final(dao, cfg, sys, reqs), Final(A.AbstractDao(narrow), cfg, abs, reqs))
  {
    hide Simulates, Related, Handle;
    if reqs == [] {
    } else {
      var n := |reqs| - 1;
      FinalSimulates(dao, narrow, during, between, cfg, sys, abs, reqs[..n]);
      RequestSimulates(dao, narrow, during, between, cfg, Final(dao, cfg, sys, reqs[..n]),
                       Final(A.AbstractDao(narrow), cfg, abs, reqs[..n]), reqs[n]);
    }
  }

  /** Every sequential run on a simulating store: between any two requests it represents the
      abstract store, and each request is answered as the abstract store answers it. */
  lemma RunSimulates<S(!new)>(dao: Dao<S>, narrow: A.Narrowing,
      during: (S, Store, Date) -> bool, between: (S, Store) -> bool,
      cfg: Config, sys: Sys<S>, abs: Sys<Store>, reqs: seq<Request>)
    requires Simulates(dao, during, between) && Reports(dao, narrow, between)
    requires Related(between, sys, abs)
    ensures Related(between, Final(dao, cfg, sys, reqs), Final(A.AbstractDao(narrow), cfg, abs, reqs))
    ensures Responses(dao, cfg, sys, reqs) == Responses(A.AbstractDao(narrow), cfg, abs, reqs)
  {
    hide Simulates, Reports, Related, Handle, Final;
    FinalSimulates(dao, narrow, during, between, cfg, sys, abs, reqs);
    forall i | 0 <= i < |reqs|
      ensures Responses(dao, cfg, sys, reqs)[i] == Responses(A.AbstractDao(narrow), cfg, abs, reqs)[i]
    {
      FinalSimulates(dao, narrow, during, between, cfg, sys, abs, reqs[..i]);
      RequestSimulates(dao, narrow, during, between, cfg, Final(dao, cfg, sys, reqs[..i]),
                       Final(A.AbstractDao(narrow), cfg, abs, reqs[..i]), reqs[i]);
    }
  }

  lemma ResponseAt<S>(dao: Dao<S>, cfg: Config, sys: Sys<S>, reqs: seq<Request>, i: nat)
    requires i < |reqs|
    ensures (Final(dao, cfg, sys, reqs[..i + 1]), Responses(dao, cfg, sys, reqs)[i])
         == Handle(dao, cfg, Final(dao, cfg, sys, reqs[..i]), reqs[i])
  {
    assert reqs[..i + 1][..i] == reqs[..i];
  }

  /** A run in which each randString call returns is never halted. */
  lemma {:induction false} ReturningRunsGoOn<S(!new)>(dao: Dao<S>, narrow: A.Narrowing,
      during: (S, Store, Date) -> bool, between: (S, Store) -> bool,
      cfg: Config, sys: Sys<S>, abs: Sys<Store>, reqs: seq<Request>, i: nat)
    requires Simulates(dao, during, between) && Related(between, sys, abs) && !sys.halted
    requires RunReturns(dao, cfg, sys, reqs) && i <= |reqs|
    ensures !Final(dao, cfg, sys, reqs[..i]).halted
  {
    hide Simulates, Handle, AddReturns;
    if i == 0 {
    } else {
      ReturningRunsGoOn(dao, narrow, during, between, cfg, sys, abs, reqs, i - 1);
      FinalSimulates(dao, narrow, during, between, cfg, sys, abs, reqs[..i - 1]);
      RequestSimulates(dao, narrow, during, between, cfg, Final(dao, cfg, sys, reqs[..i - 1]),
                       Final(A.AbstractDao(narrow), cfg, abs, reqs[..i - 1]), reqs[i - 1]);
      ResponseAt(dao, cfg, sys, reqs, i - 1);
    }
  }

  lemma AbstractSimulatesItself(narrow: A.Narrowing)
    ensures Simulates(A.AbstractDao(narrow), (s: Store, st: Store, d: Date) => s == st,
                      (s: Store, st: Store) => s == st)
    ensures Reports(A.AbstractDao(narrow), narrow, (s: Store, st: Store) => s == st)
  {
  }

  /** The abstract state before request i of a run that starts with an empty store. */
  ghost function Before(cfg: Config, narrow: A.Narrowing, size: int, pos: nat, reqs: seq<Request>, i: nat): Sys<Store>
    requires i <= |reqs|
  {
    Final(A.AbstractDao(narrow), cfg, Start(map[], size, pos), reqs[..i])
  }

  lemma BeforeIsOneToOne(cfg: Config, narrow: A.Narrowing, size: int, pos: nat, reqs: seq<Request>, i: nat)
    requires size >= 1 && i <= |reqs|
    ensures var abs := Before(cfg, narrow, size, pos, reqs, i); A.OneToOne(abs.store) && abs.size >= 1
  {
    AbstractSimulatesItself(narrow);
    var start: Sys<Store> := Start(map[], size, pos);
    FinalSimulates(A.AbstractDao(narrow), narrow, (s: Store, st: Store, d: Date) => s == st,
                   (s: Store, st: Store) => s == st, cfg, start, start, reqs[..i]);
  }

  lemma BeforeStep(cfg: Config, narrow: A.Narrowing, size: int, pos: nat, reqs: seq<Request>, i: nat)
    requires size >= 1 && i < |reqs|
    ensures var abs := Before(cfg, narrow, size, pos, reqs, i);
            var abs' := Before(cfg, narrow, size, pos, reqs, i + 1);
            var responses := Responses(A.AbstractDao(narrow), cfg, Start(map[], size, pos), reqs);
            && |responses| == |reqs|
            && (abs', responses[i]) == Handle(A.AbstractDao(narrow), cfg, abs, reqs[i])
            && Answered(cfg, abs, reqs[i], abs', responses[i])
  {
    var dao := A.AbstractDao(narrow);
    BeforeIsOneToOne(cfg, narrow, size, pos, reqs, i);
    ResponseAt(dao, cfg, Start(map[], size, pos), reqs, i);
    AbstractSimulatesItself(narrow);
    var abs := Before(cfg, narrow, size, pos, reqs, i);
    hide Handle, Answered;
    RequestSimulates(dao, narrow, (s: Store, st: Store, d: Date) => s == st, (s: Store, st: Store) => s == st,
                     cfg, abs, abs, reqs[i]);
  }

  lemma {:induction false} SizesNeverShrink(cfg: Config, narrow: A.Narrowing, size: int, pos: nat, reqs: seq<Request>,
                                            i: nat, j: nat)
    requires size >= 1 && i <= j <= |reqs|
    ensures Before(cfg, narrow, size, pos, reqs, i).size <= Before(cfg, narrow, size, pos, reqs, j).size
  {
    hide Handle;
    if i == j {
    } else {
      SizesNeverShrink(cfg, narrow, size, pos, reqs, i, j - 1);
      BeforeStep(cfg, narrow, size, pos, reqs, j - 1);
    }
  }

  // Consequences for any simulating store that starts empty.

  /** A store in a run from `empty`, before request i, and the abstract store it represents. */
  lemma RunState<S(!new)>(dao: Dao<S>, narrow: A.Narrowing, during: (S, Store, Date) -> bool,
      between: (S, Store) -> bool, empty: S, cfg: Config, size: int, pos: nat, reqs: seq<Request>, i: nat)
    requires Simulates(dao, during, between) && between(empty, map[]) && size >= 1 && i <= |reqs|
    ensures Related(between, Final(dao, cfg, Start(empty, size, pos), reqs[..i]),
                    Before(cfg, narrow, size, pos, reqs, i))
  {
    hide Simulates;
    FinalSimulates(dao, narrow, during, between, cfg, Start(empty, size, pos), Start(map[], size, pos), reqs[..i]);
  }

  /** In every sequential run whose randString calls return, each add request for a valid URL is
      answered with a non-empty abbreviation, and a lookup of it then finds that URL. */
  lemma EveryAddIsAnswered<S(!new)>(dao: Dao<S>, narrow: A.Narrowing, during: (S, Store, Date) -> bool,
      between: (S, Store) -> bool, empty: S, cfg: Config, size: int, pos: nat, reqs: seq<Request>, i: nat, date: Date)
    requires Simulates(dao, during, between) && Reports(dao, narrow, between) && between(empty, map[])
    requires size >= 1 && RunReturns(dao, cfg, Start(empty, size, pos), reqs)
    requires i < |reqs| && reqs[i].Add? && reqs[i].url != "" && reqs[i].valid
    ensures var response := Responses(dao, cfg, Start(empty, size, pos), reqs)[i];
            && response.Link? && response.abv != ""
            && dao.getUrl(Final(dao, cfg, Start(empty, size, pos), reqs[..i + 1]).store, response.abv, date).1
               == reqs[i].url
  {
    hide Handle;
    var start, abstractStart := Start(empty, size, pos), Start(map[], size, pos);
    RunSimulates(dao, narrow, during, between, cfg, start, abstractStart, reqs);
    ReturningRunsGoOn(dao, narrow, during, between, cfg, start, abstractStart, reqs, i + 1);
    RunState(dao, narrow, during, between, empty, cfg, size, pos, reqs, i + 1);
    BeforeStep(cfg, narrow, size, pos, reqs, i);
    var abv := Responses(dao, cfg, start, reqs)[i].abv;
    LookupSimulates(dao, during, between, Final(dao, cfg, start, reqs[..i + 1]).store,
                    Before(cfg, narrow, size, pos, reqs, i + 1).store, abv, date);
  }

  lemma HaltedRequestsGetNoReply<S>(dao: Dao<S>, cfg: Config, sys: Sys<S>, req: Request)
    ensures Handle(dao, cfg, sys, req).0.halted ==> Handle(dao, cfg, sys, req).1 == NoReply
  {
  }

  lemma CreationIsAbstract<S(!new)>(dao: Dao<S>, narrow: A.Narrowing, during: (S, Store, Date) -> bool,
      between: (S, Store) -> bool, empty: S, cfg: Config, size: int, pos: nat, reqs: seq<Request>, i: nat)
    requires Simulates(dao, during, between) && between(empty, map[]) && size >= 1 && i < |reqs| && reqs[i].Add?
    ensures ReachesCreation(dao, Final(dao, cfg, Start(empty, size, pos), reqs[..i]), reqs[i].url, reqs[i].valid)
       <==> IsCreation(Before(cfg, narrow, size, pos, reqs, i).store, reqs[i])
  {
    RunState(dao, narrow, during, between, empty, cfg, size, pos, reqs, i);
    var s := Final(dao, cfg, Start(empty, size, pos), reqs[..i]).store;
    var st := Before(cfg, narrow, size, pos, reqs, i).store;
    A.GetAbvFinds(st, reqs[i].url);
    assert during(s, st, "");
  }

  /** Newly issued abbreviations never get shorter in the course of a run. */
  lemma IssuedLengthsNeverShrink<S(!new)>(dao: Dao<S>, narrow: A.Narrowing, during: (S, Store, Date) -> bool,
      between: (S, Store) -> bool, empty: S, cfg: Config, size: int, pos: nat, reqs: seq<Request>, i: nat, j: nat)
    requires Simulates(dao, during, between) && Reports(dao, narrow, between) && between(empty, map[])
    requires size >= 1 && i < j < |reqs|
    requires reqs[i].Add?
    requires ReachesCreation(dao, Final(dao, cfg, Start(empty, size, pos), reqs[..i]), reqs[i].url, reqs[i].valid)
    requires reqs[j].Add?
    requires ReachesCreation(dao, Final(dao, cfg, Start(empty, size, pos), reqs[..j]), reqs[j].url, reqs[j].valid)
    ensures var responses := Responses(dao, cfg, Start(empty, size, pos), reqs);
            responses[i].Link? && responses[j].Link? ==> size <= |responses[i].abv| <= |responses[j].abv|
  {
    hide Handle;
    RunSimulates(dao, narrow, during, between, cfg, Start(empty, size, pos), Start(map[], size, pos), reqs);
    CreationIsAbstract(dao, narrow, during, between, empty, cfg, size, pos, reqs, i);
    CreationIsAbstract(dao, narrow, during, between, empty, cfg, size, pos, reqs, j);
    BeforeStep(cfg, narrow, size, pos, reqs, i);
    BeforeStep(cfg, narrow, size, pos, reqs, j);
    HaltedRequestsGetNoReply(A.AbstractDao(narrow), cfg, Before(cfg, narrow, size, pos, reqs, i), reqs[i]);
    HaltedRequestsGetNoReply(A.AbstractDao(narrow), cfg, Before(cfg, narrow, size, pos, reqs, j), reqs[j]);
    SizesNeverShrink(cfg, narrow, size, pos, reqs, 0, i + 1);
    SizesNeverShrink(cfg, narrow, size, pos, reqs, i + 1, j);
  }
}

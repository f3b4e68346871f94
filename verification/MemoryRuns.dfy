/** The in-memory store in sequential runs of requests: it simulates the abstract store, keeps
    its indexes paired, and accounts for every hit. */
module MemoryRuns {
  import opened Model
  import opened ShortUrlDao
  import opened MemoryState
  import opened MemoryCreation
  import opened Generator
  import opened Protocol
  import opened Refinement
  import A = AbstractStore

  /** A Go int32 counter reports the wrapped total. */
  function Wrapped(hits: nat): Reply<int> {
    Ok(Wrap32(hits))
  }

  predicate RecordMatches(r: Record, e: A.Entry) {
    r.url == e.url && r.hits == Wrap32(e.hits) && r.daily == e.daily
  }

  ghost predicate Represents(m: Mem, st: Store) {
    && Paired(m) && m.abvNdx.Keys == st.Keys
    && forall a | a in st :: RecordMatches(m.heap[m.abvNdx[a]], st[a])
  }

  ghost predicate RepresentsOn(m: Mem, st: Store, date: Date) {
    Represents(m, st)
  }

  lemma UrlIsIndexed(m: Mem, st: Store, url: string)
    requires Represents(m, st) && A.OneToOne(st)
    ensures A.HasUrl(st, url) <==> url in m.urlNdx
    ensures GetAbv(m, url) == A.AbvOf(st, url)
  {
    if url in m.urlNdx {
      var a := m.heap[m.urlNdx[url]].abv;
      assert a in st && st[a].url == url;
    }
  }

  lemma CreditMatches(r: Record, e: A.Entry, date: Date)
    requires RecordMatches(r, e)
    ensures RecordMatches(MemoryState.Credit(r, date), A.Credit(e, date))
  {
    WrapStep(e.hits);
  }

  lemma LookupFindsTheUrl(m: Mem, st: Store, abv: string, date: Date)
    requires Represents(m, st) && A.OneToOne(st)
    ensures GetUrl(m, abv, date).1 == A.UrlOf(st, abv)
    ensures GetUrl(m, abv, date).0.abvNdx.Keys == A.GetUrl(st, abv, date).0.Keys == st.Keys
  {
    assert abv in st ==> RecordMatches(m.heap[m.abvNdx[abv]], st[abv]) && st[abv].url != "";
  }

  lemma LookupKeepsMatch(m: Mem, st: Store, abv: string, date: Date, a: string)
    requires Represents(m, st) && A.OneToOne(st) && a in st
    ensures var m', st' := GetUrl(m, abv, date).0, A.GetUrl(st, abv, date).0;
            a in m'.abvNdx && RecordMatches(m'.heap[m'.abvNdx[a]], st'[a])
  {
    assert RecordMatches(m.heap[m.abvNdx[a]], st[a]);
    CreditMatches(m.heap[m.abvNdx[a]], st[a], date);
    assert a != abv && abv in st ==> m.abvNdx[a] != m.abvNdx[abv];
  }

  lemma LookupRepresents(m: Mem, st: Store, abv: string, date: Date)
    requires Represents(m, st) && A.OneToOne(st)
    ensures var (m', url) := GetUrl(m, abv, date);
            url == A.UrlOf(st, abv) && Represents(m', A.GetUrl(st, abv, date).0)
  {
    DeletesAndLookupsKeepPairing(m, abv, date);
    LookupFindsTheUrl(m, st, abv, date);
    var m', st' := GetUrl(m, abv, date).0, A.GetUrl(st, abv, date).0;
    hide Paired, A.OneToOne, A.GetUrl, GetUrl, RecordMatches;
    forall a | a in st'
      ensures RecordMatches(m'.heap[m'.abvNdx[a]], st'[a])
    {
      LookupKeepsMatch(m, st, abv, date, a);
    }
  }

  lemma SaveKeepsMatch(m: Mem, st: Store, abv: string, url: string, a: string)
    requires m.abvNdx.Keys == st.Keys && (a == abv || a in st)
    requires a in st ==> RecordMatches(m.heap[m.abvNdx[a]], st[a])
    ensures var m', st' := Save(m, abv, url), A.Save(st, abv, url);
            RecordMatches(m'.heap[m'.abvNdx[a]], st'[a])
  {
  }

  lemma SaveRepresents(m: Mem, st: Store, abv: string, url: string)
    requires Represents(m, st) && A.OneToOne(st) && abv !in st && !A.HasUrl(st, url)
    ensures Represents(Save(m, abv, url), A.Save(st, abv, url))
  {
    UrlIsIndexed(m, st, url);
    SaveKeepsPairing(m, abv, url);
    var m', st' := Save(m, abv, url), A.Save(st, abv, url);
    hide Paired, A.OneToOne, A.HasUrl;
    forall a | a in st'
      ensures RecordMatches(m'.heap[m'.abvNdx[a]], st'[a])
    {
      SaveKeepsMatch(m, st, abv, url, a);
    }
  }

  lemma DeleteRepresents(m: Mem, st: Store, abv: string)
    requires Represents(m, st)
    ensures Represents(DeleteAbv(m, abv), st - {abv})
  {
    DeletesAndLookupsKeepPairing(m, abv, "");
  }

  lemma MemorySimulates()
    ensures Simulates(MemDao(), RepresentsOn, Represents)
    ensures Reports(MemDao(), Wrapped, Represents)
  {
    forall m: Mem, st, d, a | RepresentsOn(m, st, d) && A.OneToOne(st)
      ensures MemDao().getUrl(m, a, d).1 == A.UrlOf(st, a)
      ensures RepresentsOn(MemDao().getUrl(m, a, d).0, A.GetUrl(st, a, d).0, d)
    {
      LookupRepresents(m, st, a, d);
    }
    forall m: Mem, st, d, u | RepresentsOn(m, st, d) && A.OneToOne(st)
      ensures MemDao().getAbv(m, u) == A.AbvOf(st, u)
    {
      UrlIsIndexed(m, st, u);
    }
    forall m: Mem, st, d, a, u | RepresentsOn(m, st, d) && A.OneToOne(st)
                                 && a !in st && !A.HasUrl(st, u) && a != "" && u != ""
      ensures MemDao().save(m, a, u).1 && RepresentsOn(MemDao().save(m, a, u).0, A.Save(st, a, u), d)
    {
      SaveRepresents(m, st, a, u);
    }
    forall m: Mem, st, a | Represents(m, st) && A.OneToOne(st)
      ensures Represents(MemDao().deleteAbv(m, a), st - {a})
    {
      DeleteRepresents(m, st, a);
    }
    forall m: Mem, st, a | Represents(m, st) && A.OneToOne(st)
      ensures MemDao().getStats(m, a) == A.StatsOf(Wrapped, st, a)
    {
      assert a in m.abvNdx <==> a in st;
    }
  }

  /** What a run from an empty store has made of it represents this abstract store. */
  lemma RunRepresents(cfg: Config, size: int, pos: nat, reqs: seq<Request>) returns (st: Store)
    requires size >= 1
    ensures st == Final(A.AbstractDao(Wrapped), cfg, Start(map[], size, pos), reqs).store
    ensures Represents(Final(MemDao(), cfg, Start(EMPTY, size, pos), reqs).store, st) && A.OneToOne(st)
  {
    MemorySimulates();
    st := Final(A.AbstractDao(Wrapped), cfg, Start(map[], size, pos), reqs).store;
    FinalSimulates(MemDao(), Wrapped, RepresentsOn, Represents, cfg, Start(EMPTY, size, pos), Start(map[], size, pos),
                   reqs);
  }

  /** Starting empty, with keys of at least one character, every sequential run leaves the two
      indexes exact inverses that share their records, with no empty key on either side. */
  lemma EveryRunStaysPaired(cfg: Config, size: int, pos: nat, reqs: seq<Request>)
    requires size >= 1
    ensures var m := Final(MemDao(), cfg, Start(EMPTY, size, pos), reqs).store;
            Paired(m) && "" !in m.abvNdx && "" !in m.urlNdx
  {
    var st := RunRepresents(cfg, size, pos, reqs);
    UrlIsIndexed(Final(MemDao(), cfg, Start(EMPTY, size, pos), reqs).store, st, "");
  }

  // The hit ledger.

  /** What a request adds to the daily hits of all records: one for a redirect, two for every
      colliding abbreviation that a creation has tried, whether or not it returns. */
  ghost function Earned(cfg: Config, sys: Sys<Mem>, req: Request): nat
  {
    match req
    case Get(_, _) => if Handle(MemDao(), cfg, sys, req).1.Redirect? then 1 else 0
    case Add(_, _, _) => 2 * Collisions(MemDao(), cfg, sys, req)
    case _ => 0
  }

  ghost function TotalEarned(cfg: Config, sys: Sys<Mem>, reqs: seq<Request>): nat
  {
    if reqs == [] then 0
    else
      var n := |reqs| - 1;
      TotalEarned(cfg, sys, reqs[..n]) + Earned(cfg, Final(MemDao(), cfg, sys, reqs[..n]), reqs[n])
  }

  lemma SaveAddsNoHits(m: Mem, abv: string, url: string)
    ensures Total(Save(m, abv, url)) == Total(m)
  {
    var heap := Save(m, abv, url).heap;
    assert heap[..|heap| - 1] == m.heap;
    assert Sum<Date>(map[]) == 0;
  }

  lemma NewUrlResolvesNowhere(m: Mem, abv: string, url: string)
    requires Paired(m) && url !in m.urlNdx
    ensures Resolve(m, abv) != url || url == ""
  {
  }

  lemma AddEarns(cfg: Config, sys: Sys<Mem>, st: Store, url: string, date: Date)
    requires Represents(sys.store, st) && A.OneToOne(st) && !sys.halted
    requires url != "" && GetAbv(sys.store, url) == ""
    ensures Total(Respond(MemDao(), cfg, sys, Add(url, true, date)).0.store)
         == Total(sys.store) + 2 * Collisions(MemDao(), cfg, sys, Add(url, true, date))
  {
    UrlIsIndexed(sys.store, st, url);
    A.GetAbvFinds(st, url);
    var longest := SomeKeyIsLongest(sys.store.abvNdx.Keys);
    var c := CallOf(cfg, sys, url, date);
    CreationOnMemory(c, longest);
    hide Represents, A.OneToOne, CreateAbbreviation, CallsReturn, Total;
    var made := CreateAbbreviation(MemDao(), c);
    if made.Returned? {
      NewUrlResolvesNowhere(sys.store, made.last.abv, url);
      SaveAddsNoHits(made.last.store, made.last.abv, url);
    }
  }

  lemma DeleteKeepsHits(m: Mem, abv: string)
    ensures Total(DeleteAbv(m, abv)) == Total(m)
  {
  }

  lemma RequestEarns(cfg: Config, sys: Sys<Mem>, st: Store, req: Request)
    requires Represents(sys.store, st) && A.OneToOne(st)
    ensures Total(Handle(MemDao(), cfg, sys, req).0.store) == Total(sys.store) + Earned(cfg, sys, req)
  {
    hide Represents, A.OneToOne, CreateAbbreviation, Total;
    if !sys.halted {
      match req
      case Add(url, valid, date) =>
        if url != "" && valid && GetAbv(sys.store, url) == "" {
          AddEarns(cfg, sys, st, url, date);
        }
      case Get(abv, date) =>
        MemoryOnlyCounts();
        assert Total(MemDao().getUrl(sys.store, abv, date).0)
            == Total(sys.store) + Counted(MemDao().getUrl(sys.store, abv, date).1);
      case GetStats(_, _) =>
      case Delete(abv, _) =>
        DeleteKeepsHits(sys.store, abv);
    }
  }

  /** Across any sequential run from an empty store, the daily hits on live and deleted records
      together equal the successful redirects plus twice the collisions of all creations, that
      of a halted run's last one included. */
  lemma {:induction false} RunLedger(cfg: Config, size: int, pos: nat, reqs: seq<Request>)
    requires size >= 1
    ensures Total(Final(MemDao(), cfg, Start(EMPTY, size, pos), reqs).store)
         == TotalEarned(cfg, Start(EMPTY, size, pos), reqs)
  {
    if reqs == [] {
    } else {
      var n := |reqs| - 1;
      hide Handle, Earned, Represents, Total, A.OneToOne;
      RunLedger(cfg, size, pos, reqs[..n]);
      var st := RunRepresents(cfg, size, pos, reqs[..n]);
      RequestEarns(cfg, Final(MemDao(), cfg, Start(EMPTY, size, pos), reqs[..n]), st, reqs[n]);
    }
  }
}

/** All the stores answer the same requests alike: the refinement theorem across the in-memory
    store, SQLite, Postgres and Redis, for sequential runs with the same draws and clock. */
module StoreAgreement {
  import opened Model
  import opened ShortUrlDao
  import opened Generator
  import opened Protocol
  import opened Refinement
  import opened History
  import A = AbstractStore
  import MemoryState
  import MemoryRuns
  import SqlTables
  import SqlRuns
  import SqlSimulation
  import RedisKeys
  import RedisRuns
  import RedisSimulation

  // The answers of each store, started empty with the generator at (size, pos).

  ghost function MemoryAnswers(cfg: Config, size: int, pos: nat, reqs: seq<Request>): seq<Response> {
    Responses(MemoryState.MemDao(), cfg, Start(MemoryState.EMPTY, size, pos), reqs)
  }

  /** `burns` as in SqlTables.Insert. Postgres keeps totals in a 32-bit column; these are its
      answers as long as no total asked for exceeds that. */
  ghost function SqlAnswers(burns: bool, cfg: Config, size: int, pos: nat, reqs: seq<Request>): seq<Response> {
    Responses(SqlSimulation.SqlDao(burns), cfg, Start(SqlRuns.START, size, pos), reqs)
  }

  ghost function RedisAnswers(cfg: Config, size: int, pos: nat, reqs: seq<Request>): seq<Response> {
    Responses(RedisSimulation.RedisDao(), cfg, Start(RedisRuns.START, size, pos), reqs)
  }

  ghost function AbstractAnswers(narrow: A.Narrowing, cfg: Config, size: int, pos: nat, reqs: seq<Request>)
    : seq<Response>
  {
    Responses(A.AbstractDao(narrow), cfg, Start(map[], size, pos), reqs)
  }

  /** A store answers as the abstract store whose totals are narrowed in that store's way. */
  lemma AnswersAbstractly<S(!new)>(dao: Dao<S>, narrow: A.Narrowing, during: (S, Store, Date) -> bool,
      between: (S, Store) -> bool, empty: S, cfg: Config, size: int, pos: nat, reqs: seq<Request>)
    requires size >= 1
    requires Simulates(dao, during, between) && Reports(dao, narrow, between) && between(empty, map[])
    ensures Responses(dao, cfg, Start(empty, size, pos), reqs) == AbstractAnswers(narrow, cfg, size, pos, reqs)
  {
    hide Simulates, Reports;
    RunSimulates(dao, narrow, during, between, cfg, Start(empty, size, pos), Start(map[], size, pos), reqs);
  }

  /** The four databases simulate the abstract store, and start as the empty one. */
  lemma EachStoreSimulates(burns: bool)
    ensures Simulates(MemoryState.MemDao(), MemoryRuns.RepresentsOn, MemoryRuns.Represents)
    ensures Reports(MemoryState.MemDao(), MemoryRuns.Wrapped, MemoryRuns.Represents)
    ensures MemoryRuns.Represents(MemoryState.EMPTY, map[])
    ensures Simulates(SqlSimulation.SqlDao(burns), SqlSimulation.RepresentsOn, SqlSimulation.Represents)
    ensures Reports(SqlSimulation.SqlDao(burns), SqlTables.Scanned, SqlSimulation.Represents)
    ensures SqlSimulation.Represents(SqlRuns.START, map[])
    ensures Simulates(RedisSimulation.RedisDao(), RedisSimulation.RepresentsOn, RedisSimulation.Represents)
    ensures Reports(RedisSimulation.RedisDao(), RedisKeys.Saturated, RedisSimulation.Represents)
    ensures RedisSimulation.Represents(RedisRuns.START, map[])
  {
    hide Simulates, Reports;
    MemoryRuns.MemorySimulates();
    SqlSimulation.SqlSimulates(burns);
    RedisSimulation.RedisSimulates();
    RedisSimulation.EmptyRepresents();
  }

  lemma EachStoreAnswersAbstractly(cfg: Config, size: int, pos: nat, reqs: seq<Request>, burns: bool)
    requires size >= 1
    ensures MemoryAnswers(cfg, size, pos, reqs) == AbstractAnswers(MemoryRuns.Wrapped, cfg, size, pos, reqs)
    ensures SqlAnswers(burns, cfg, size, pos, reqs) == AbstractAnswers(SqlTables.Scanned, cfg, size, pos, reqs)
    ensures RedisAnswers(cfg, size, pos, reqs) == AbstractAnswers(RedisKeys.Saturated, cfg, size, pos, reqs)
  {
    hide Simulates, Reports, AbstractAnswers, Responses;
    hide MemoryRuns.Represents, SqlSimulation.Represents, RedisSimulation.Represents;
    EachStoreSimulates(burns);
    AnswersAbstractly(MemoryState.MemDao(), MemoryRuns.Wrapped, MemoryRuns.RepresentsOn, MemoryRuns.Represents,
                      MemoryState.EMPTY, cfg, size, pos, reqs);
    AnswersAbstractly(SqlSimulation.SqlDao(burns), SqlTables.Scanned, SqlSimulation.RepresentsOn,
                      SqlSimulation.Represents, SqlRuns.START, cfg, size, pos, reqs);
    AnswersAbstractly(RedisSimulation.RedisDao(), RedisKeys.Saturated, RedisSimulation.RepresentsOn,
                      RedisSimulation.Represents, RedisRuns.START, cfg, size, pos, reqs);
  }

  // How the narrowings differ.

  /** Totals up to the largest int32 are reported alike by all stores, larger ones are not. */
  lemma NarrowingsAgreeIffInRange(hits: nat)
    ensures MemoryRuns.Wrapped(hits) == SqlTables.Scanned(hits) == RedisKeys.Saturated(hits) <==> hits <= MAX_INT32
    ensures hits <= MAX_INT32 ==> SqlTables.Scanned(hits) == Ok(hits)
  {
  }

  function Exact(hits: nat): Reply<int> {
    Ok(hits)
  }

  /** The hit total that request i asks for, when it asks for one, is at most the largest int32. */
  ghost predicate InRange(cfg: Config, size: int, pos: nat, reqs: seq<Request>, i: nat)
    requires i < |reqs|
  {
    var sys := Before(cfg, Exact, size, pos, reqs, i);
    reqs[i].GetStats? && !sys.halted && reqs[i].abv in sys.store ==> sys.store[reqs[i].abv].hits <= MAX_INT32
  }

  ghost predicate AllInRange(cfg: Config, size: int, pos: nat, reqs: seq<Request>) {
    forall i | 0 <= i < |reqs| :: InRange(cfg, size, pos, reqs, i)
  }

  /** How totals are narrowed has no effect on the state of the store. */
  lemma NarrowingLeavesStates(n1: A.Narrowing, n2: A.Narrowing, cfg: Config, size: int, pos: nat,
                              reqs: seq<Request>, i: nat)
    requires size >= 1 && i <= |reqs|
    ensures Before(cfg, n1, size, pos, reqs, i) == Before(cfg, n2, size, pos, reqs, i)
  {
    AbstractSimulatesItself(n1);
    FinalSimulates(A.AbstractDao(n1), n2, (s: Store, st: Store, d: Date) => s == st, (s: Store, st: Store) => s == st,
                   cfg, Start(map[], size, pos), Start(map[], size, pos), reqs[..i]);
  }

  /** Two narrowings give request i different answers exactly when it asks for the statistics of
      a stored abbreviation whose total they narrow differently. */
  lemma AnswersDiffer(n1: A.Narrowing, n2: A.Narrowing, cfg: Config, size: int, pos: nat, reqs: seq<Request>, i: nat)
    requires size >= 1 && i < |reqs|
    ensures var sys := Before(cfg, Exact, size, pos, reqs, i);
            AbstractAnswers(n1, cfg, size, pos, reqs)[i] == AbstractAnswers(n2, cfg, size, pos, reqs)[i]
            <==> (reqs[i].GetStats? && !sys.halted && reqs[i].abv in sys.store ==>
                    n1(sys.store[reqs[i].abv].hits) == n2(sys.store[reqs[i].abv].hits))
  {
    NarrowingLeavesStates(n1, Exact, cfg, size, pos, reqs, i);
    NarrowingLeavesStates(n2, Exact, cfg, size, pos, reqs, i);
    BeforeIsOneToOne(cfg, Exact, size, pos, reqs, i);
    ResponseAt(A.AbstractDao(n1), cfg, Start(map[], size, pos), reqs, i);
    ResponseAt(A.AbstractDao(n2), cfg, Start(map[], size, pos), reqs, i);
    var abs := Before(cfg, Exact, size, pos, reqs, i);
    if !reqs[i].GetStats? {
      AbstractSimulatesItself(n1);
      hide Handle;
      RequestSimulates(A.AbstractDao(n1), n2, (s: Store, st: Store, d: Date) => s == st,
                       (s: Store, st: Store) => s == st, cfg, abs, abs, reqs[i]);
    }
  }

  /** The in-memory store, SQLite and Redis agree on a whole run, request by request, if and only
      if no request of the run asks for a hit total above the largest int32. */
  lemma StoresAgree(cfg: Config, size: int, pos: nat, reqs: seq<Request>, burns: bool)
    requires size >= 1
    ensures MemoryAnswers(cfg, size, pos, reqs)
         == SqlAnswers(burns, cfg, size, pos, reqs)
         == RedisAnswers(cfg, size, pos, reqs)
       <==> AllInRange(cfg, size, pos, reqs)
  {
    EachStoreAnswersAbstractly(cfg, size, pos, reqs, burns);
    hide MemoryAnswers, SqlAnswers, RedisAnswers;
    var m := AbstractAnswers(MemoryRuns.Wrapped, cfg, size, pos, reqs);
    var s := AbstractAnswers(SqlTables.Scanned, cfg, size, pos, reqs);
    var r := AbstractAnswers(RedisKeys.Saturated, cfg, size, pos, reqs);
    assert |m| == |s| == |r| == |reqs|;
    forall i | 0 <= i < |reqs|
      ensures m[i] == s[i] == r[i] <==> InRange(cfg, size, pos, reqs, i)
    {
      AnswersDiffer(MemoryRuns.Wrapped, SqlTables.Scanned, cfg, size, pos, reqs, i);
      AnswersDiffer(SqlTables.Scanned, RedisKeys.Saturated, cfg, size, pos, reqs, i);
      var sys := Before(cfg, Exact, size, pos, reqs, i);
      if reqs[i].GetStats? && !sys.halted && reqs[i].abv in sys.store {
        NarrowingsAgreeIffInRange(sys.store[reqs[i].abv].hits);
      }
    }
    hide AbstractAnswers;
    if m == s == r {
      forall i | 0 <= i < |reqs|
        ensures InRange(cfg, size, pos, reqs, i)
      {
        assert m[i] == s[i] == r[i];
      }
    }
  }

  /** On such a run all four databases give the answers of the abstract store, whose totals and
      daily hits are exact. */
  lemma StoresAreExactInRange(cfg: Config, size: int, pos: nat, reqs: seq<Request>)
    requires size >= 1 && AllInRange(cfg, size, pos, reqs)
    ensures var exact := AbstractAnswers(Exact, cfg, size, pos, reqs);
            && MemoryAnswers(cfg, size, pos, reqs) == exact && RedisAnswers(cfg, size, pos, reqs) == exact
            && SqlAnswers(false, cfg, size, pos, reqs) == exact && SqlAnswers(true, cfg, size, pos, reqs) == exact
  {
    StoresAgree(cfg, size, pos, reqs, false);
    StoresAgree(cfg, size, pos, reqs, true);
    EachStoreAnswersAbstractly(cfg, size, pos, reqs, true);
    hide MemoryAnswers, SqlAnswers, RedisAnswers;
    var s := AbstractAnswers(SqlTables.Scanned, cfg, size, pos, reqs);
    var exact := AbstractAnswers(Exact, cfg, size, pos, reqs);
    assert |s| == |exact| == |reqs|;
    forall i | 0 <= i < |reqs|
      ensures s[i] == exact[i]
    {
      AnswersDiffer(SqlTables.Scanned, Exact, cfg, size, pos, reqs, i);
      assert InRange(cfg, size, pos, reqs, i);
    }
  }

  // A run on which the stores part.

  /** An add, `n` lookups of the abbreviation it was given, and a request for its statistics. */
  function BusyLink(url: string, abv: string, n: nat): seq<Request> {
    [Add(url, true, "")] + seq(n, _ => Get(abv, "")) + [GetStats(abv, "")]
  }

  lemma BusyLinkStarts(cfg: Config, size: int, pos: nat, url: string, abv: string, n: nat)
    requires url != ""
    requires Handle(A.AbstractDao(Exact), cfg, Start(map[], size, pos), Add(url, true, "")).1 == Link(abv)
    ensures var sys := Before(cfg, Exact, size, pos, BusyLink(url, abv, n), 1);
            !sys.halted && abv in sys.store && sys.store[abv] == A.Entry(url, 0, map[])
  {
    ResponseAt(A.AbstractDao(Exact), cfg, Start(map[], size, pos), BusyLink(url, abv, n), 0);
    assert A.AbstractDao(Exact).getAbv(map[], url) == "";
  }

  lemma LookupCountsOne(cfg: Config, sys: Sys<Store>, abv: string)
    requires !sys.halted && abv in sys.store
    ensures var sys' := Handle(A.AbstractDao(Exact), cfg, sys, Get(abv, "")).0;
            !sys'.halted && abv in sys'.store && sys'.store[abv] == A.Credit(sys.store[abv], "")
  {
  }

  lemma BusyLinkIsLookedUp(url: string, abv: string, n: nat, k: nat)
    requires 0 < k <= n
    ensures BusyLink(url, abv, n)[k] == Get(abv, "")
  {
  }

  lemma {:induction false} BusyLinkCounts(cfg: Config, size: int, pos: nat, url: string, abv: string, n: nat, k: nat)
    requires url != "" && k <= n
    requires Handle(A.AbstractDao(Exact), cfg, Start(map[], size, pos), Add(url, true, "")).1 == Link(abv)
    ensures var sys := Before(cfg, Exact, size, pos, BusyLink(url, abv, n), k + 1);
            !sys.halted && abv in sys.store && sys.store[abv] == A.Entry(url, k, AddHits(map[], "", k))
  {
    hide Handle;
    if k == 0 {
      BusyLinkStarts(cfg, size, pos, url, abv, n);
    } else {
      BusyLinkCounts(cfg, size, pos, url, abv, n, k - 1);
      ResponseAt(A.AbstractDao(Exact), cfg, Start(map[], size, pos), BusyLink(url, abv, n), k);
      BusyLinkIsLookedUp(url, abv, n, k);
      AddHitsTwice(map[], "", k - 1, 1);
      LookupCountsOne(cfg, Before(cfg, Exact, size, pos, BusyLink(url, abv, n), k), abv);
    }
  }

  lemma BusyLinkInRange(cfg: Config, size: int, pos: nat, url: string, abv: string, n: nat)
    requires url != ""
    requires Handle(A.AbstractDao(Exact), cfg, Start(map[], size, pos), Add(url, true, "")).1 == Link(abv)
    ensures AllInRange(cfg, size, pos, BusyLink(url, abv, n)) <==> n <= MAX_INT32
  {
    var reqs := BusyLink(url, abv, n);
    hide Handle, Before;
    BusyLinkCounts(cfg, size, pos, url, abv, n, n);
    assert |reqs| == n + 2 && reqs[n + 1] == GetStats(abv, "");
    assert forall i | 0 <= i < |reqs| && reqs[i].GetStats? :: i == n + 1;
    assert InRange(cfg, size, pos, reqs, n + 1) <==> n <= MAX_INT32;
  }

  /** Once a URL has been given an abbreviation, the in-memory store, SQLite and Redis agree on
      the statistics of `n` lookups of it if and only if `n` is at most the largest int32. */
  lemma BusyLinkPartsTheStores(cfg: Config, size: int, pos: nat, url: string, abv: string, n: nat, burns: bool)
    requires size >= 1 && url != ""
    requires Handle(A.AbstractDao(Exact), cfg, Start(map[], size, pos), Add(url, true, "")).1 == Link(abv)
    ensures MemoryAnswers(cfg, size, pos, BusyLink(url, abv, n))
         == SqlAnswers(burns, cfg, size, pos, BusyLink(url, abv, n))
         == RedisAnswers(cfg, size, pos, BusyLink(url, abv, n))
       <==> n <= MAX_INT32
  {
    var reqs := BusyLink(url, abv, n);
    StoresAgree(cfg, size, pos, reqs, burns);
    hide MemoryAnswers, SqlAnswers, RedisAnswers, Handle, Before, AllInRange;
    BusyLinkInRange(cfg, size, pos, url, abv, n);
  }

  lemma ReportsOf(n: nat)
    ensures var memory := MemoryRuns.Wrapped(n);
            memory.Ok? && -0x8000_0000 <= memory.value < 0x8000_0000 && (memory.value - n) % 0x1_0000_0000 == 0
    ensures SqlTables.Scanned(n) == if n < 0x8000_0000 then Ok(n) else Failed
    ensures RedisKeys.Saturated(n) == Ok(if n < 0x8000_0000 then n else 0x7FFF_FFFF)
    ensures AddHits(map[], "", n) == if n == 0 then map[] else map["" := n]
  {
    WrapStep(n);
  }

  function Report(hits: Reply<int>, abv: string, url: string, daily: map<Date, nat>): Response {
    match hits
    case Failed => ServerError
    case Ok(h) => Shown(Stats(abv, url, h, daily))
  }

  lemma StatsAreReported(narrow: A.Narrowing, cfg: Config, sys: Sys<Store>, abv: string)
    ensures !sys.halted && abv in sys.store && abv != "" ==>
              var e := sys.store[abv];
              Handle(A.AbstractDao(narrow), cfg, sys, GetStats(abv, "")).1
              == Report(narrow(e.hits), abv, e.url, e.daily)
  {
  }

  lemma BusyLinkEnds(url: string, abv: string, n: nat)
    ensures |BusyLink(url, abv, n)| == n + 2 && BusyLink(url, abv, n)[n + 1] == GetStats(abv, "")
  {
  }

  lemma StatsOfBusyLink(narrow: A.Narrowing, cfg: Config, size: int, pos: nat, url: string, abv: string, n: nat)
    requires size >= 1 && url != "" && abv != ""
    requires Handle(A.AbstractDao(Exact), cfg, Start(map[], size, pos), Add(url, true, "")).1 == Link(abv)
    ensures AbstractAnswers(narrow, cfg, size, pos, BusyLink(url, abv, n))[n + 1]
         == Report(narrow(n), abv, url, AddHits(map[], "", n))
  {
    hide Handle, Report, BusyLink, AddHits;
    BusyLinkEnds(url, abv, n);
    BusyLinkCounts(cfg, size, pos, url, abv, n, n);
    StatsAreReported(narrow, cfg, Before(cfg, narrow, size, pos, BusyLink(url, abv, n), n + 1), abv);
    NarrowingLeavesStates(narrow, Exact, cfg, size, pos, BusyLink(url, abv, n), n + 1);
    ResponseAt(A.AbstractDao(narrow), cfg, Start(map[], size, pos), BusyLink(url, abv, n), n + 1);
  }

  lemma StatsOfBusyLinkEverywhere(cfg: Config, size: int, pos: nat, url: string, abv: string, n: nat, burns: bool)
    requires size >= 1 && url != "" && abv != ""
    requires Handle(A.AbstractDao(Exact), cfg, Start(map[], size, pos), Add(url, true, "")).1 == Link(abv)
    ensures var reqs, daily := BusyLink(url, abv, n), AddHits(map[], "", n);
            && |reqs| == n + 2
            && MemoryAnswers(cfg, size, pos, reqs)[n + 1] == Report(MemoryRuns.Wrapped(n), abv, url, daily)
            && SqlAnswers(burns, cfg, size, pos, reqs)[n + 1] == Report(SqlTables.Scanned(n), abv, url, daily)
            && RedisAnswers(cfg, size, pos, reqs)[n + 1] == Report(RedisKeys.Saturated(n), abv, url, daily)
  {
    hide AddHits, Handle, Report, MemoryRuns.Wrapped, SqlTables.Scanned, RedisKeys.Saturated;
    EachStoreAnswersAbstractly(cfg, size, pos, BusyLink(url, abv, n), burns);
    StatsOfBusyLink(MemoryRuns.Wrapped, cfg, size, pos, url, abv, n);
    StatsOfBusyLink(SqlTables.Scanned, cfg, size, pos, url, abv, n);
    StatsOfBusyLink(RedisKeys.Saturated, cfg, size, pos, url, abv, n);
  }

  /** What each store then answers: the in-memory store the total modulo 2^32 as a signed number,
      SQLite an error beyond the largest int32, Redis at most that number; the daily hits are
      exact where there are any. */
  lemma BusyLinkAnswers(cfg: Config, size: int, pos: nat, url: string, abv: string, n: nat, burns: bool)
    requires size >= 1 && url != "" && abv != ""
    requires Handle(A.AbstractDao(Exact), cfg, Start(map[], size, pos), Add(url, true, "")).1 == Link(abv)
    ensures var reqs := BusyLink(url, abv, n);
            var daily: map<Date, nat> := if n == 0 then map[] else map["" := n];
            && |MemoryAnswers(cfg, size, pos, reqs)| == |reqs| == n + 2
            && var memory := MemoryAnswers(cfg, size, pos, reqs)[n + 1];
            && memory.Shown? && memory == Shown(Stats(abv, url, memory.stats.hits, daily))
            && -0x8000_0000 <= memory.stats.hits < 0x8000_0000 && (memory.stats.hits - n) % 0x1_0000_0000 == 0
            && SqlAnswers(burns, cfg, size, pos, reqs)[n + 1]
               == (if n < 0x8000_0000 then Shown(Stats(abv, url, n, daily)) else ServerError)
            && RedisAnswers(cfg, size, pos, reqs)[n + 1]
               == Shown(Stats(abv, url, if n < 0x8000_0000 then n else 0x7FFF_FFFF, daily))
  {
    hide BusyLink, AddHits, Handle, MemoryRuns.Wrapped, SqlTables.Scanned, RedisKeys.Saturated;
    StatsOfBusyLinkEverywhere(cfg, size, pos, url, abv, n, burns);
    ReportsOf(n);
  }

  // What every database promises about add requests.

  ghost predicate AddIsAnswered<S>(dao: Dao<S>, empty: S, cfg: Config, size: int, pos: nat, reqs: seq<Request>, i: nat)
    requires i < |reqs| && reqs[i].Add?
  {
    var response := Responses(dao, cfg, Start(empty, size, pos), reqs)[i];
    var after := Final(dao, cfg, Start(empty, size, pos), reqs[..i + 1]).store;
    response.Link? && response.abv != "" && dao.getUrl(after, response.abv, reqs[i].date).1 == reqs[i].url
  }

  /** In a run whose randString calls return, each add request for a valid URL is answered with a
      non-empty abbreviation, and a lookup of it right afterwards finds that URL. */
  ghost predicate AddsAreAnswered<S>(dao: Dao<S>, empty: S, cfg: Config, size: int, pos: nat, reqs: seq<Request>) {
    RunReturns(dao, cfg, Start(empty, size, pos), reqs) ==>
      forall i | 0 <= i < |reqs| && reqs[i].Add? && reqs[i].url != "" && reqs[i].valid ::
        AddIsAnswered(dao, empty, cfg, size, pos, reqs, i)
  }

  /** Request i is an add that creates a new abbreviation, and is answered. */
  ghost predicate Issues<S>(dao: Dao<S>, empty: S, cfg: Config, size: int, pos: nat, reqs: seq<Request>, i: nat)
    requires i < |reqs|
  {
    && reqs[i].Add?
    && ReachesCreation(dao, Final(dao, cfg, Start(empty, size, pos), reqs[..i]), reqs[i].url, reqs[i].valid)
    && Responses(dao, cfg, Start(empty, size, pos), reqs)[i].Link?
  }

  ghost predicate LengthsNeverShrink<S>(dao: Dao<S>, empty: S, cfg: Config, size: int, pos: nat, reqs: seq<Request>) {
    var responses := Responses(dao, cfg, Start(empty, size, pos), reqs);
    forall i, j | 0 <= i < j < |reqs| && Issues(dao, empty, cfg, size, pos, reqs, i)
                  && Issues(dao, empty, cfg, size, pos, reqs, j) ::
      size <= |responses[i].abv| <= |responses[j].abv|
  }

  lemma SimulatingStoresServeAdds<S(!new)>(dao: Dao<S>, narrow: A.Narrowing, during: (S, Store, Date) -> bool,
      between: (S, Store) -> bool, empty: S, cfg: Config, size: int, pos: nat, reqs: seq<Request>)
    requires size >= 1
    requires Simulates(dao, during, between) && Reports(dao, narrow, between) && between(empty, map[])
    ensures AddsAreAnswered(dao, empty, cfg, size, pos, reqs) && LengthsNeverShrink(dao, empty, cfg, size, pos, reqs)
  {
    hide Simulates, Reports;
    if RunReturns(dao, cfg, Start(empty, size, pos), reqs) {
      forall i | 0 <= i < |reqs| && reqs[i].Add? && reqs[i].url != "" && reqs[i].valid
        ensures AddIsAnswered(dao, empty, cfg, size, pos, reqs, i)
      {
        EveryAddIsAnswered(dao, narrow, during, between, empty, cfg, size, pos, reqs, i, reqs[i].date);
      }
    }
    forall i, j | 0 <= i < j < |reqs| && Issues(dao, empty, cfg, size, pos, reqs, i)
                  && Issues(dao, empty, cfg, size, pos, reqs, j)
      ensures var responses := Responses(dao, cfg, Start(empty, size, pos), reqs);
              size <= |responses[i].abv| <= |responses[j].abv|
    {
      IssuedLengthsNeverShrink(dao, narrow, during, between, empty, cfg, size, pos, reqs, i, j);
    }
  }

  /** On each of the four databases every add is answered with an abbreviation that resolves, and
      the abbreviations issued in a run never get shorter. */
  lemma EveryStoreServesAdds(cfg: Config, size: int, pos: nat, reqs: seq<Request>, burns: bool)
    requires size >= 1
    ensures AddsAreAnswered(MemoryState.MemDao(), MemoryState.EMPTY, cfg, size, pos, reqs)
    ensures AddsAreAnswered(SqlSimulation.SqlDao(burns), SqlRuns.START, cfg, size, pos, reqs)
    ensures AddsAreAnswered(RedisSimulation.RedisDao(), RedisRuns.START, cfg, size, pos, reqs)
    ensures LengthsNeverShrink(MemoryState.MemDao(), MemoryState.EMPTY, cfg, size, pos, reqs)
    ensures LengthsNeverShrink(SqlSimulation.SqlDao(burns), SqlRuns.START, cfg, size, pos, reqs)
    ensures LengthsNeverShrink(RedisSimulation.RedisDao(), RedisRuns.START, cfg, size, pos, reqs)
  {
    hide Simulates, Reports, AddsAreAnswered, LengthsNeverShrink;
    hide MemoryRuns.Represents, SqlSimulation.Represents, RedisSimulation.Represents;
    EachStoreSimulates(burns);
    SimulatingStoresServeAdds(MemoryState.MemDao(), MemoryRuns.Wrapped, MemoryRuns.RepresentsOn,
                              MemoryRuns.Represents, MemoryState.EMPTY, cfg, size, pos, reqs);
    SimulatingStoresServeAdds(SqlSimulation.SqlDao(burns), SqlTables.Scanned, SqlSimulation.RepresentsOn,
                              SqlSimulation.Represents, SqlRuns.START, cfg, size, pos, reqs);
    SimulatingStoresServeAdds(RedisSimulation.RedisDao(), RedisKeys.Saturated, RedisSimulation.RepresentsOn,
                              RedisSimulation.Represents, RedisRuns.START, cfg, size, pos, reqs);
  }

  /** On each of the four databases every response is the one that the requests and responses
      before it call for; they differ in how they report a total only. */
  lemma EveryStoreFollowsItsHistory(cfg: Config, size: int, pos: nat, reqs: seq<Request>, i: nat, burns: bool)
    requires size >= 1 && i < |reqs|
    ensures FollowsHistory(MemoryState.MemDao(), MemoryRuns.Wrapped, cfg, Start(MemoryState.EMPTY, size, pos), reqs, i)
    ensures FollowsHistory(SqlSimulation.SqlDao(burns), SqlTables.Scanned, cfg, Start(SqlRuns.START, size, pos),
                           reqs, i)
    ensures FollowsHistory(RedisSimulation.RedisDao(), RedisKeys.Saturated, cfg, Start(RedisRuns.START, size, pos),
                           reqs, i)
  {
    hide Simulates, Reports, FollowsHistory;
    hide MemoryRuns.Represents, SqlSimulation.Represents, RedisSimulation.Represents;
    EachStoreSimulates(burns);
    SimulatingStoresFollowHistory(MemoryState.MemDao(), MemoryRuns.Wrapped, MemoryRuns.RepresentsOn,
                                  MemoryRuns.Represents, MemoryState.EMPTY, cfg, size, pos, reqs, i);
    SimulatingStoresFollowHistory(SqlSimulation.SqlDao(burns), SqlTables.Scanned, SqlSimulation.RepresentsOn,
                                  SqlSimulation.Represents, SqlRuns.START, cfg, size, pos, reqs, i);
    SimulatingStoresFollowHistory(RedisSimulation.RedisDao(), RedisKeys.Saturated, RedisSimulation.RepresentsOn,
                                  RedisSimulation.Represents, RedisRuns.START, cfg, size, pos, reqs, i);
  }
}

/** The request handlers of handlers/handlers.go, serving from the in-memory store. */
module Handlers {
  import opened Model
  import MemoryState
  import MemoryCreation
  import MemoryDB
  import Abbreviator
  import Generator
  import opened Protocol

  type Counter = n: int | 0 <= n < 0x1_0000_0000_0000_0000

  /** atomic.AddUint64(&n, 1) */
  function Bump(n: Counter): Counter {
    (n + 1) % 0x1_0000_0000_0000_0000
  }

  lemma AddOutcome(cfg: Generator.Config, before: Sys<MemoryState.Mem>, u: string, date: Date,
                   created: Sys<MemoryState.Mem>, abv: string)
    requires !before.halted && u != "" && MemoryState.GetAbv(before.store, u) == ""
    requires MemoryCreation.Creates(Generator.Call(cfg, before.store, before.size, before.pos, u, date),
                                    created.store, created.size, created.pos, abv)
    requires !created.halted
    ensures HandleAdd(MemoryState.MemDao(), cfg, before, u, true, date)
         == (created.(store := MemoryState.Save(created.store, abv, u)), Link(abv))
  {
  }

  lemma DeleteKeepsOthers(m: MemoryState.Mem, abv: string)
    ensures var m' := MemoryState.DeleteAbv(m, abv);
            abv !in m'.abvNdx && forall a | a in m.abvNdx && a != abv :: a in m'.abvNdx && m'.abvNdx[a] == m.abvNdx[a]
  {
  }

  /** A counter after `k` requests of its kind. */
  function Bumped(n: Counter, k: nat): Counter {
    if k == 0 then n else Bump(Bumped(n, k - 1))
  }

  lemma WrapsOnce(m: nat)
    ensures (m % 0x1_0000_0000_0000_0000 + 1) % 0x1_0000_0000_0000_0000 == (m + 1) % 0x1_0000_0000_0000_0000
  {
  }

  lemma {:induction false} CountersWrapAround(n: Counter, k: nat)
    ensures Bumped(n, k) == (n + k) % 0x1_0000_0000_0000_0000
  {
    if k == 0 {
    } else {
      CountersWrapAround(n, k - 1);
      WrapsOnce(n + k - 1);
    }
  }

  class Handlers {
    const dao: MemoryDB.MemoryDB
    const generator: Abbreviator.Abbreviator
    var redirects: Counter
    var urlStats: Counter
    var newUrls: Counter
    var deletes: Counter

    constructor (dao: MemoryDB.MemoryDB, generator: Abbreviator.Abbreviator)
      requires dao.Valid() && generator !in dao.Repr && generator.r !in dao.Repr
      ensures Valid() && this.dao == dao && this.generator == generator && Counters() == (0, 0, 0, 0)
    {
      this.dao, this.generator := dao, generator;
      redirects, urlStats, newUrls, deletes := 0, 0, 0, 0;
    }

    ghost predicate Valid()
      reads this, dao, dao.Repr
    {
      dao.Valid() && this !in dao.Repr && generator !in dao.Repr && generator.r !in dao.Repr
    }

    /** The store and the generator state that requests are served from. */
    ghost function System(): Sys<MemoryState.Mem>
      reads this, dao, generator, generator.r
    {
      Start(dao.state, generator.keySize, generator.r.pos)
    }

    /** The four request counters. */
    ghost function Counters(): (Counter, Counter, Counter, Counter)
      reads this
    {
      (redirects, urlStats, newUrls, deletes)
    }

    method GetHandler(abv: string, date: Date) returns (response: Response)
      requires Valid()
      modifies this, dao.Repr
      ensures Valid() && fresh(dao.Repr - old(dao.Repr))
      ensures (System(), response) == HandleGet(MemoryState.MemDao(), old(System()), abv, date)
      ensures var m := old(dao.state);
              var url := if abv in m.abvNdx then m.heap[m.abvNdx[abv]].url else "";
              response == if url == "" then NotFound else Redirect(url)
      ensures Counters() == old((Bump(redirects), urlStats, newUrls, deletes))
    {
      redirects := Bump(redirects);
      var u := dao.GetUrl(abv, date);
      if u == "" {
        return NotFound;
      }
      return Redirect(u);
    }

    method StatsHandler(abv: string) returns (response: Response)
      requires Valid()
      modifies this
      ensures Valid() && System() == old(System())
      ensures (System(), response) == HandleStats(MemoryState.MemDao(), old(System()), abv)
      ensures abv !in dao.state.abvNdx ==> response == NotFound
      ensures abv in dao.state.abvNdx ==>
                var r := dao.state.heap[dao.state.abvNdx[abv]];
                response == if r.abv == "" then NotFound else Shown(Stats(r.abv, r.url, r.hits, r.daily))
      ensures Counters() == old((redirects, Bump(urlStats), newUrls, deletes))
    {
      urlStats := Bump(urlStats);
      var stats := dao.GetStats(abv);
      if stats.abv == "" {
        return NotFound;
      }
      return Shown(Stats(stats.abv, stats.url, stats.hits, stats.daily.counts));
    }

    method AddHandler(u: string, valid: bool, date: Date) returns (response: Response)
      requires Valid()
      requires AddReturns(MemoryState.MemDao(), generator.Settings(), System(), u, valid, date)
      modifies this, dao.Repr, generator, generator.r
      ensures Valid() && fresh(dao.Repr - old(dao.Repr))
      ensures (System(), response)
           == HandleAdd(MemoryState.MemDao(), generator.Settings(), old(System()), u, valid, date)
      ensures u == "" || !valid ==> response == BadRequest && System() == old(System())
      ensures u != "" && valid ==>
                && response.Link?
                && var known := MemoryState.GetAbv(old(dao.state), u);
                   if known != "" then response.abv == known && System() == old(System())
                   else MemoryState.GetAbv(dao.state, u) == response.abv
      ensures Counters() == old((redirects, urlStats, Bump(newUrls), deletes))
    {
      hide MemoryCreation.Creates;
      newUrls := Bump(newUrls);
      if u == "" {
        return BadRequest;
      }
      if !valid {
        return BadRequest;
      }
      var abv := dao.GetAbv(u);
      if abv != "" {
        return Link(abv);
      }
      ghost var before := System();
      abv := generator.CreateAbbreviation(u, dao, date);
      AddOutcome(generator.Settings(), before, u, date, System(), abv);
      dao.Save(abv, u);
      return Link(abv);
    }

    method DeleteHandler(abv: string) returns (response: Response)
      requires Valid()
      modifies this, dao
      ensures Valid()
      ensures (System(), response) == HandleDelete(MemoryState.MemDao(), old(System()), abv)
      ensures response == Deleted && abv !in dao.state.abvNdx
      ensures forall a | a in old(dao.state).abvNdx && a != abv ::
                a in dao.state.abvNdx && dao.state.abvNdx[a] == old(dao.state).abvNdx[a]
      ensures Counters() == old((redirects, urlStats, newUrls, Bump(deletes)))
    {
      hide MemoryState.DeleteAbv;
      DeleteKeepsOthers(dao.state, abv);
      deletes := Bump(deletes);
      dao.DeleteAbv(abv);
      return Deleted;
    }
  }
}

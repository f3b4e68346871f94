/** CreateAbbreviation over the in-memory store: its probes count hits, but leave both indexes
    and every URL as they are. */
module MemoryCreation {
  import opened Model
  import opened MemoryState
  import opened Generator
  import opened ReservedWords
  import opened Rando

  /** The indexes and the records they share, without hit counters. */
  function Links(m: Mem): Mem {
    m.(heap := seq(|m.heap|, i requires 0 <= i < |m.heap| => Record(m.heap[i].abv, m.heap[i].url, 0, map[])))
  }

  function Resolve(m: Mem, abv: string): string {
    if Hits(m, abv) then m.heap[m.abvNdx[abv]].url else ""
  }

  /** Daily hits over all records ever made, whether still indexed or not. */
  ghost function TotalDaily(heap: seq<Record>): nat {
    if heap == [] then 0 else TotalDaily(heap[..|heap| - 1]) + Sum(heap[|heap| - 1].daily)
  }

  lemma {:induction false} TotalDailyAfterCredit(heap: seq<Record>, id: nat, date: Date)
    requires id < |heap|
    ensures TotalDaily(heap[id := Credit(heap[id], date)]) == TotalDaily(heap) + 1
  {
    var heap' := heap[id := Credit(heap[id], date)];
    var n := |heap| - 1;
    if id == n {
      SumAddHits(heap[id].daily, date, 1);
      assert heap'[..n] == heap[..n];
    } else {
      TotalDailyAfterCredit(heap[..n], id, date);
      assert heap'[..n] == heap[..n][id := Credit(heap[id], date)];
    }
  }

  ghost function Total(m: Mem): nat {
    TotalDaily(m.heap)
  }

  lemma MemoryOnlyCounts()
    ensures LookupsOnlyCount(MemDao(), Links, Resolve, Total)
  {
    forall m: Mem, abv: string, date: Date
      ensures var (m', url) := GetUrl(m, abv, date);
              && Links(m') == Links(m) && url == Resolve(Links(m), abv) && Total(m') == Total(m) + Counted(url)
    {
      if Hits(m, abv) {
        TotalDailyAfterCredit(m.heap, m.abvNdx[abv], date);
      }
    }
  }

  ghost predicate KeysUpTo(m: Mem, longest: nat) {
    forall a | a in m.abvNdx :: |a| <= longest
  }

  /** A whole CreateAbbreviation call on the in-memory store. It returns if and only if each
      randString call that it makes does; either way its collisions lie within the worst-case
      bound. The abbreviation is acceptable, exactly as long as the final key size, and either
      free or already bound to this URL. Nothing changes but hit counters, which rise by two per
      collision and by one more only when the result was already bound to this URL. */
  lemma CreationOnMemory(c: Call<Mem>, longest: nat)
    requires KeysUpTo(c.store, longest)
    ensures var made := CreateAbbreviation(MemDao(), c);
            && (made.Returned? <==> CallsReturn(MemDao(), c))
            && var n := made.collisions;
            && n <= Bound(MemDao(), c, longest)
            && (made.Stuck? ==> Links(made.store) == Links(c.store) && Total(made.store) == Total(c.store) + 2 * n)
            && (made.Returned? ==>
                  var p := made.last;
                  && Acceptable(c.cfg.bad, p.abv) && OverAlphabet(p.abv)
                  && |p.abv| == Length(p.size) && p.size >= c.size
                  && p.size == c.size + Grown(c.cfg.retries, n) + InnerGrowth(MemDao(), c, n)
                  && Links(p.store) == Links(c.store)
                  && (Resolve(c.store, p.abv) == "" || Resolve(c.store, p.abv) == c.url)
                  && Total(p.store) == Total(c.store) + 2 * n + Counted(Resolve(c.store, p.abv)))
  {
    MemoryOnlyCounts();
    CreationOutcome(MemDao(), c, longest, Links, Resolve, Total);
  }

  // The loop of CreateAbbreviation, step by step.

  /** The loop variables after n iterations. */
  datatype Vars = Vars(m: Mem, size: int, pos: nat, tries: nat, abv: string, u: string)

  ghost predicate Returning(c: Call<Mem>) {
    CallsReturn(MemDao(), c)
  }

  ghost predicate Colliding(c: Call<Mem>, n: nat) {
    AllCollide(MemDao(), c, n)
  }

  ghost function BoundOf(c: Call<Mem>, longest: nat): nat {
    Bound(MemDao(), c, longest)
  }

  ghost predicate AtProbe(c: Call<Mem>, n: nat, v: Vars) {
    ProbeN(MemDao(), c, n).Some?
    && var p := ProbeN(MemDao(), c, n).value;
       p.store == v.m && p.size == v.size && p.pos == v.pos && p.tries == v.tries && p.abv == v.abv && p.url == v.u
  }

  /** The first randString call returns, and leads to the first test of the loop condition. */
  lemma EntryIsFirstProbe(c: Call<Mem>)
    requires Returning(c)
    ensures Colliding(c, 0)
    ensures Returns(c.cfg, c.size, c.pos)
    ensures var d := RandString(c.cfg, c.size, c.pos).value;
            var (m, u) := GetUrl(c.store, d.word, c.date);
            AtProbe(c, 0, Vars(m, d.size, d.pos, 0, d.word, u))
  {
    assert !StuckAfter(MemDao(), c, 0);
  }

  /** After a collision the next randString call returns, and leads to the next test. */
  lemma IterationIsNextProbe(c: Call<Mem>, n: nat, v: Vars)
    requires Returning(c) && Colliding(c, n + 1) && AtProbe(c, n, v)
    ensures Returns(c.cfg, Grow(c.cfg.retries, v.size, v.tries).size, v.pos)
    ensures var g := Grow(c.cfg.retries, v.size, v.tries);
            var d := RandString(c.cfg, g.size, v.pos).value;
            var (m, u) := GetUrl(GetUrl(v.m, v.abv, c.date).0, d.word, c.date);
            AtProbe(c, n + 1, Vars(m, d.size, d.pos, g.tries, d.word, u))
  {
    assert !StuckAfter(MemDao(), c, n + 1);
  }

  /** A collision leaves at least one iteration before the worst-case bound. */
  lemma CollisionIsWithinBound(c: Call<Mem>, longest: nat, n: nat, v: Vars)
    requires KeysUpTo(c.store, longest) && Colliding(c, n)
    requires AtProbe(c, n, v) && v.u != "" && c.url != v.u
    ensures Colliding(c, n + 1) && n < BoundOf(c, longest)
  {
    MemoryOnlyCounts();
    hide ProbeN, Bound;
    RunsOfCollisionsAreBounded(MemDao(), c, longest, n + 1, Links, Resolve, Total);
  }

  /** Generator.CreateAbbreviation on the in-memory store ends with these variables. */
  ghost predicate Creates(c: Call<Mem>, m: Mem, size: int, pos: nat, abv: string) {
    var made := CreateAbbreviation(MemDao(), c);
    made.Returned? && made.last.store == m && made.last.size == size && made.last.pos == pos && made.last.abv == abv
  }

  lemma ExitIsCreation(c: Call<Mem>, n: nat, v: Vars)
    requires Colliding(c, n) && AtProbe(c, n, v) && (v.u == "" || c.url == v.u)
    ensures Creates(c, v.m, v.size, v.pos, v.abv)
  {
    hide ProbeN;
    CreatesOnce(MemDao(), c, n);
  }
}

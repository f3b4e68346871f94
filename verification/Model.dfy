/** The values every store exchanges with its callers (dao/model.go, dao/shorturldao.go)
    and the arithmetic of hit counters. */
module Model {

  datatype Option<+T> = None | Some(value: T)

  /** A calendar day, the key under which daily hits are kept. */
  type Date = string

  /** What GetStats returns. The record of a missing abbreviation has an empty `abv`. */
  datatype Stats = Stats(abv: string, url: string, hits: int, daily: map<Date, nat>)

  const NO_STATS := Stats("", "", 0, map[])

  const MAX_INT32: nat := 0x7FFF_FFFF

  /** A value stored into a Go int32 by repeated `++`. */
  function Wrap32(n: int): int {
    (n + 0x8000_0000) % 0x1_0000_0000 - 0x8000_0000
  }

  function CountOn<K>(m: map<K, nat>, k: K): nat {
    if k in m then m[k] else 0
  }

  /** `n` further hits on day `k`; no entry appears when there are none. */
  function AddHits<K>(m: map<K, nat>, k: K, n: nat): map<K, nat> {
    if n == 0 then m else m[k := CountOn(m, k) + n]
  }

  lemma AddHitsOnOneDay<K>(m: map<K, nat>, k: K, n: nat, j: K)
    ensures CountOn(AddHits(m, k, n), j) == CountOn(m, j) + if j == k then n else 0
    ensures j in AddHits(m, k, n) <==> j in m || (j == k && n > 0)
  {
  }

  ghost function Sum<K>(m: map<K, nat>): nat {
    if m == map[] then 0
    else
      var k :| k in m;
      m[k] + Sum(m - {k})
  }

  /** `Sum` does not depend on which key is taken first. */
  lemma {:induction false} SumRemove<K>(m: map<K, nat>, k: K)
    requires k in m
    ensures Sum(m) == m[k] + Sum(m - {k})
    decreases |m|
  {
    var j :| j in m && Sum(m) == m[j] + Sum(m - {j});
    if j != k {
      SumRemove(m - {j}, k);
      SumRemove(m - {k}, j);
      assert m - {j} - {k} == m - {k} - {j};
    }
  }

  lemma SumAddHits<K>(m: map<K, nat>, k: K, n: nat)
    ensures Sum(AddHits(m, k, n)) == Sum(m) + n
  {
    if n == 0 {
    } else {
      var m' := AddHits(m, k, n);
      SumRemove(m', k);
      if k in m {
        SumRemove(m, k);
        assert m' - {k} == m - {k};
      } else {
        assert m' - {k} == m;
      }
    }
  }

  lemma AddHitsTwice<K>(m: map<K, nat>, k: K, n: nat, n': nat)
    ensures AddHits(AddHits(m, k, n), k, n') == AddHits(m, k, n + n')
  {
  }

  /** A wrapped counter is congruent to the count, and goes on being so. */
  lemma WrapStep(n: int)
    ensures Wrap32(Wrap32(n) + 1) == Wrap32(n + 1)
    ensures -0x8000_0000 <= Wrap32(n) <= 0x7FFF_FFFF && (Wrap32(n) - n) % 0x1_0000_0000 == 0
  {
  }

  /** The longest of finitely many keys. */
  lemma {:induction false} SomeKeyIsLongest(keys: set<string>) returns (longest: nat)
    ensures forall k | k in keys :: |k| <= longest
    ensures keys != {} ==> exists k :: k in keys && |k| == longest
  {
    longest := 0;
    if keys != {} {
      var k :| k in keys;
      var rest := SomeKeyIsLongest(keys - {k});
      longest := if keys - {k} == {} || rest < |k| then |k| else rest;
      assert forall j | j in keys :: j == k || j in keys - {k};
    }
  }
}

/** The word filter of dao/reservedwords.go. The table of forbidden words is a parameter;
    `Blacklist` states the one fact about it that the generator relies on. */
module ReservedWords {

  predicate MatchesAt(s: string, w: string, i: int) {
    0 <= i <= |s| - |w| && s[i..i + |w|] == w
  }

  /** strings.Contains */
  predicate Contains(s: string, w: string) {
    exists i | 0 <= i <= |s| :: MatchesAt(s, w, i)
  }

  /** Contiguous substrings, and nothing else. */
  lemma ContainsIffSubstring(s: string, w: string)
    ensures Contains(s, w) <==> exists before, after :: s == before + w + after
  {
    if i :| 0 <= i <= |s| && MatchesAt(s, w, i) {
      assert s == s[..i] + w + s[i + |w|..];
    }
    if before, after :| s == before + w + after {
      assert MatchesAt(s, w, |before|);
    }
  }

  ghost predicate Acceptable(bad: set<string>, s: string) {
    forall w | w in bad :: !Contains(s, w)
  }

  predicate IsDigit(c: char) {
    '0' <= c <= '9'
  }

  predicate AllDigits(s: string) {
    forall i | 0 <= i < |s| :: IsDigit(s[i])
  }

  /** Every forbidden word contains a character that is not a digit (so none is empty). */
  ghost predicate Blacklist(bad: set<string>) {
    forall w | w in bad :: !AllDigits(w)
  }

  lemma ContainsItself(s: string)
    ensures Contains(s, s)
  {
    assert MatchesAt(s, s, 0);
  }

  /** The map of forbidden words is visited in an arbitrary order. */
  method AcceptableWord(bad: set<string>, s: string) returns (ok: bool)
    ensures ok <==> Acceptable(bad, s)
  {
    if s in bad {
      ContainsItself(s);
      return false;
    }
    var rest := bad;
    while rest != {}
      invariant rest <= bad
      invariant forall w | w in bad && w !in rest :: !Contains(s, w)
    {
      var key :| key in rest;
      if Contains(s, key) {
        return false;
      }
      rest := rest - {key};
    }
    return true;
  }

  /** The exact-match test before the loop decides nothing the loop would not. */
  lemma ExactMatchIsRedundant(bad: set<string>, s: string)
    ensures s in bad ==> !Acceptable(bad, s)
  {
    ContainsItself(s);
  }

  lemma SliceOfSlice(s: string, i: nat, j: nat, k: nat, l: nat)
    requires i <= j <= |s| && k <= l <= j - i
    ensures s[i..j][k..l] == s[i + k..i + l]
  {
    var t := s[i..j][k..l];
    assert forall n | 0 <= n < |t| :: t[n] == s[i + k + n];
  }

  lemma SubstringsStayAcceptable(bad: set<string>, s: string, i: nat, j: nat)
    requires i <= j <= |s|
    requires Acceptable(bad, s)
    ensures Acceptable(bad, s[i..j])
  {
    forall w, k | w in bad && 0 <= k <= |s[i..j]| - |w|
      ensures !MatchesAt(s[i..j], w, k)
    {
      assert |s[i..j][k..k + |w|]| == |w| == |s[i + k..i + k + |w|]|;
      SliceOfSlice(s, i, j, k, k + |w|);
      assert !Contains(s, w) && !MatchesAt(s, w, i + k);
    }
  }

  lemma DigitsAreAcceptable(bad: set<string>, s: string)
    requires Blacklist(bad)
    requires AllDigits(s)
    ensures Acceptable(bad, s)
  {
    forall w, k | w in bad && 0 <= k <= |s| - |w|
      ensures !MatchesAt(s, w, k)
    {
      var i :| 0 <= i < |w| && !IsDigit(w[i]);
      assert s[k..k + |w|][i] == s[k + i];
    }
  }

  // Abbreviations cannot run out: the decimal numerals of a fixed width.

  function Pow10(n: nat): (p: nat)
    ensures p > 0
  {
    if n == 0 then 1 else 10 * Pow10(n - 1)
  }

  function Digit(d: nat): char
    requires d < 10
  {
    "0123456789"[d]
  }

  /** `k` written with exactly `n` decimal digits. */
  function Numeral(n: nat, k: nat): (s: string)
    requires k < Pow10(n)
  {
    if n == 0 then "" else Numeral(n - 1, k / 10) + [Digit(k % 10)]
  }

  function NumeralValue(s: string): nat {
    if s == "" then 0
    else 10 * NumeralValue(s[..|s| - 1]) + if IsDigit(s[|s| - 1]) then (s[|s| - 1] - '0') as nat else 0
  }

  lemma {:induction false} NumeralRoundTrip(n: nat, k: nat)
    requires k < Pow10(n)
    ensures |Numeral(n, k)| == n && AllDigits(Numeral(n, k))
    ensures NumeralValue(Numeral(n, k)) == k
  {
    if n == 0 {
    } else {
      NumeralRoundTrip(n - 1, k / 10);
      var s := Numeral(n, k);
      assert s[..|s| - 1] == Numeral(n - 1, k / 10);
    }
  }

  lemma NumeralsDiffer(n: nat, j: nat, k: nat)
    requires j < k < Pow10(n)
    ensures Numeral(n, j) != Numeral(n, k)
  {
    NumeralRoundTrip(n, j);
    NumeralRoundTrip(n, k);
  }

  /** Pigeonhole: a set too small to hold the first `p` numerals of width `n` misses one. */
  lemma {:induction false} SomeNumeralIsMissing(n: nat, p: nat, taken: set<string>) returns (k: nat)
    requires |taken| < p <= Pow10(n)
    ensures k < p && Numeral(n, k) !in taken
  {
    var last := Numeral(n, p - 1);
    if last !in taken {
      k := p - 1;
    } else {
      k := SomeNumeralIsMissing(n, p - 1, taken - {last});
      NumeralsDiffer(n, k, p - 1);
    }
  }

  /** While fewer than 10^n keys of length n are stored, an acceptable free one of length n exists. */
  lemma FreeWordExists(bad: set<string>, n: nat, keys: set<string>) returns (w: string)
    requires Blacklist(bad)
    requires |set a | a in keys && |a| == n| < Pow10(n)
    ensures |w| == n && AllDigits(w) && Acceptable(bad, w) && w !in keys
  {
    var k := SomeNumeralIsMissing(n, Pow10(n), set a | a in keys && |a| == n);
    w := Numeral(n, k);
    NumeralRoundTrip(n, k);
    DigitsAreAcceptable(bad, w);
  }

  /** There are at least 10^n acceptable words of each length n. */
  lemma AcceptableWordsOfEachLength(bad: set<string>, n: nat) returns (words: set<string>)
    requires Blacklist(bad)
    ensures |words| == Pow10(n)
    ensures forall w | w in words :: |w| == n && AllDigits(w) && Acceptable(bad, w)
  {
    words := {};
    var p := 0;
    while p < Pow10(n)
      invariant p <= Pow10(n) && |words| == p
      invariant forall w | w in words :: |w| == n && AllDigits(w) && Acceptable(bad, w) && NumeralValue(w) < p
    {
      NumeralRoundTrip(n, p);
      DigitsAreAcceptable(bad, Numeral(n, p));
      words := words + {Numeral(n, p)};
      p := p + 1;
    }
  }
}

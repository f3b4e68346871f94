/** Fixed-length random strings (rando/rando.go). The random source is an arbitrary infinite
    stream of draws, so whatever is proved holds for every outcome of every draw. */
module Rando {

  newtype Index = i: int | 0 <= i < 36

  type Source = nat -> Index

  predicate InAlphabet(c: char) {
    'a' <= c <= 'z' || '0' <= c <= '9'
  }

  /** The alphabet: the letters a to z followed by the digits 0 to 9. */
  function CharOf(i: Index): (c: char)
    ensures InAlphabet(c)
  {
    if i < 26 then 'a' + i as char else '0' + (i - 26) as char
  }

  /** The alphabet in full, in the order of the indexes; so each character has exactly one index. */
  lemma AlphabetInFull(i: Index, j: Index)
    ensures CharOf(i) == "abcdefghijklmnopqrstuvwxyz0123456789"[i]
    ensures CharOf(i) == CharOf(j) <==> i == j
  {
  }

  predicate OverAlphabet(s: string) {
    forall i | 0 <= i < |s| :: InAlphabet(s[i])
  }

  /** How many characters a requested length yields: a negative one yields none. */
  function Length(length: int): nat {
    if length < 0 then 0 else length
  }

  /** The word that the draws from `pos` on spell. */
  function Word(source: Source, pos: nat, length: nat): (s: string)
    ensures |s| == length && OverAlphabet(s)
    ensures forall i | 0 <= i < length :: s[i] == CharOf(source(pos + i))
  {
    var w := seq(length, (i: nat) => CharOf(source(pos + i)));
    assert forall i | 0 <= i < length :: w[i] == CharOf(source(pos + i));
    w
  }

  class Rand {
    const source: Source
    var pos: nat

    constructor (source: Source)
      ensures this.source == source && pos == 0
    {
      this.source := source;
      pos := 0;
    }

    method Intn() returns (i: Index)
      modifies this
      ensures i == source(old(pos)) && pos == old(pos) + 1
    {
      i := source(pos);
      pos := pos + 1;
    }

    method RandStrn(length: int) returns (b: string)
      modifies this
      ensures b == Word(source, old(pos), Length(length)) && pos == old(pos) + Length(length)
      ensures length >= 0 ==> |b| == length
    {
      b := "";
      for n := 0 to Length(length)
        invariant pos == old(pos) + n
        invariant b == Word(source, old(pos), n)
      {
        var i := Intn();
        b := b + [CharOf(i)];
      }
    }
  }
}

/** The abbreviation generator of dao/abbreviator.go as it runs: a key size and a random source
    that are updated in place, driving the in-memory store. */
module Abbreviator {
  import opened Model
  import opened Rando
  import ReservedWords
  import MemoryState
  import MemoryCreation
  import MemoryDB
  import Generator

  class Abbreviator {
    const bad: set<string>
    const retries: int
    const r: Rand
    var keySize: int

    constructor (bad: set<string>, retries: int, startingKeySize: int, source: Source)
      ensures fresh(r) && Settings() == Generator.Config(bad, retries, source)
      ensures keySize == startingKeySize && r.pos == 0
    {
      this.bad, this.retries, this.keySize := bad, retries, startingKeySize;
      this.r := new Rand(source);
    }

    function Settings(): Generator.Config {
      Generator.Config(bad, retries, r.source)
    }

    method RandString() returns (s: string)
      requires Generator.Returns(Settings(), keySize, r.pos)
      modifies this, r
      ensures var d := Generator.RandString(Settings(), old(keySize), old(r.pos));
              d.Some? && (s, keySize, r.pos) == (d.value.word, d.value.size, d.value.pos)
    {
      ghost var entry := Generator.Draw(keySize, r.pos, 0);
      ghost var last: nat :| Generator.ReturnsAfter(Settings(), entry, last);
      ghost var n := 0;
      var tries := 0;
      while true
        invariant n <= last
        invariant Generator.Draw(keySize, r.pos, tries) == Generator.RejectN(Settings(), entry, n)
        invariant Generator.AllRejected(Settings(), entry, n)
        decreases last - n
      {
        s := r.RandStrn(keySize);
        var ok := ReservedWords.AcceptableWord(bad, s);
        if ok {
          assert Generator.ReturnsAfter(Settings(), entry, n);
          return s;
        }
        assert !Generator.Accepts(Settings(), Generator.RejectN(Settings(), entry, n));
        tries := tries + 1;
        if tries > retries {
          tries := 0;
          keySize := keySize + 1;
        }
        n := n + 1;
      }
    }

    /** Runs the two nested loops against the in-memory store. Whatever is drawn, the loop ends
        as long as the randString calls that it makes return, and the variables at the end are
        those of Generator.CreateAbbreviation. */
    method CreateAbbreviation(url: string, dao: MemoryDB.MemoryDB, date: Date) returns (abv: string)
      requires dao.Valid() && this !in dao.Repr && r !in dao.Repr
      requires MemoryCreation.Returning(Generator.Call(Settings(), dao.state, keySize, r.pos, url, date))
      modifies this, r, dao.Repr
      ensures dao.Valid() && dao.Repr == old(dao.Repr)
      ensures MemoryCreation.Creates(
                Generator.Call(Settings(), old(dao.state), old(keySize), old(r.pos), url, date),
                dao.state, keySize, r.pos, abv)
    {
      hide MemoryCreation.AtProbe, MemoryCreation.Colliding, MemoryCreation.Creates, MemoryCreation.BoundOf;
      hide MemoryCreation.Returning, Generator.Returns, Generator.RandString;
      hide MemoryState.GetUrl, MemoryState.MemDao, MemoryDB.MemoryDB.Valid;
      ghost var call := Generator.Call(Settings(), dao.state, keySize, r.pos, url, date);
      ghost var longest := SomeKeyIsLongest(dao.state.abvNdx.Keys);
      ghost var bound := MemoryCreation.BoundOf(call, longest);
      MemoryCreation.EntryIsFirstProbe(call);
      var tries := 0;
      ghost var n := 0;
      abv := RandString();
      var u := dao.GetUrl(abv, date);
      while |u| != 0 && url != u
        invariant dao.Valid() && dao.Repr == old(dao.Repr)
        invariant MemoryCreation.AtProbe(call, n, MemoryCreation.Vars(dao.state, keySize, r.pos, tries, abv, u))
        invariant MemoryCreation.Colliding(call, n)
        invariant n <= bound
        decreases bound - n
      {
        ghost var v := MemoryCreation.Vars(dao.state, keySize, r.pos, tries, abv, u);
        MemoryCreation.CollisionIsWithinBound(call, longest, n, v);
        MemoryCreation.IterationIsNextProbe(call, n, v);
        tries := tries + 1;
        if tries > retries {
          tries := 0;
          keySize := keySize + 1;
        }
        var _ := dao.GetUrl(abv, date);
        abv := RandString();
        u := dao.GetUrl(abv, date);
        n := n + 1;
      }
      MemoryCreation.ExitIsCreation(call, n, MemoryCreation.Vars(dao.state, keySize, r.pos, tries, abv, u));
    }
  }
}

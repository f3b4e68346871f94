/** Why the starting key size must be at least one: with startingkeysize below 1 the empty word is
    issued, which the handlers cannot tell from a missing abbreviation. */
module KeySizeZero {
  import opened Model
  import opened MemoryState
  import opened MemoryCreation
  import opened Generator
  import opened Protocol
  import opened MemoryRuns
  import opened ReservedWords
  import opened Rando

  /** An add, for a URL whose lookup comes back empty, that is answered. */
  lemma AddOnMemory(cfg: Config, sys: Sys<Mem>, url: string, date: Date) returns (p: Mem, abv: string)
    requires url != "" && GetAbv(sys.store, url) == "" && !sys.halted
    requires !Handle(MemDao(), cfg, sys, Add(url, true, date)).0.halted
    ensures var sys' := Handle(MemDao(), cfg, sys, Add(url, true, date)).0;
            && sys'.store == Save(p, abv, url) && Links(p) == Links(sys.store)
            && |abv| == Length(sys'.size) && sys'.size >= sys.size
            && (Resolve(sys.store, abv) == "" || Resolve(sys.store, abv) == url)
  {
    var longest := SomeKeyIsLongest(sys.store.abvNdx.Keys);
    var c := CallOf(cfg, sys, url, date);
    CreationOnMemory(c, longest);
    hide CreateAbbreviation, CallsReturn, Links, Resolve;
    var last := CreateAbbreviation(MemDao(), c).last;
    p, abv := last.store, last.abv;
  }

  /** With a key size below 1 the empty word is drawn and accepted at once. */
  lemma EmptyWordComesFirst(cfg: Config, size: int, pos: nat, url: string, date: Date)
    requires Blacklist(cfg.bad) && url != "" && size < 1
    ensures Handle(MemDao(), cfg, Start(EMPTY, size, pos), Add(url, true, date)).0
         == Start(Save(EMPTY, "", url), size, pos)
  {
    var d := Draw(size, pos, 0);
    assert DrawWord(cfg, d) == "";
    DigitsAreAcceptable(cfg.bad, "");
    assert Accepts(cfg, RejectN(cfg, d, 0));
    assert ReturnsAfter(cfg, d, 0);
    assert RandString(cfg, size, pos) == Some(Drawn("", size, pos, 0));
    var c := Call(cfg, EMPTY, size, pos, url, date);
    assert !Collides(ProbeN(MemDao(), c, 0), url);
    CreatesOnce(MemDao(), c, 0);
  }

  /** Save on a store with the same links as `m`. */
  lemma SaveOnSameLinks(m: Mem, p: Mem, abv: string, url: string)
    requires Links(p) == Links(m)
    ensures Paired(p) <==> Paired(m)
    ensures p.abvNdx == m.abvNdx && p.urlNdx == m.urlNdx && |p.heap| == |m.heap|
    ensures forall i | 0 <= i < |m.heap| :: p.heap[i].url == m.heap[i].url && p.heap[i].abv == m.heap[i].abv
  {
    assert |Links(p).heap| == |Links(m).heap|;
    forall i | 0 <= i < |m.heap|
      ensures p.heap[i].url == m.heap[i].url && p.heap[i].abv == m.heap[i].abv
    {
      assert Links(p).heap[i] == Links(m).heap[i];
    }
  }

  /** The empty key is bound to `u` and the key `w` to `v`. */
  ghost predicate TwoKeys(m: Mem, w: string, u: string, v: string) {
    && |m.heap| == 2 && m.abvNdx == map["" := 0, w := 1] && m.urlNdx == map[u := 0, v := 1]
    && m.heap[0].abv == "" && m.heap[0].url == u && m.heap[1].abv == w && m.heap[1].url == v
  }

  lemma SecondSave(p: Mem, u: string, w: string, v: string)
    requires Links(p) == Links(Save(EMPTY, "", u))
    requires u != "" && v != "" && u != v
    requires Resolve(Save(EMPTY, "", u), w) == "" || Resolve(Save(EMPTY, "", u), w) == v
    ensures w != "" && TwoKeys(Save(p, w, v), w, u, v)
  {
    var m := Save(EMPTY, "", u);
    assert Resolve(m, "") == u;
    SaveOnSameLinks(m, p, w, v);
  }

  lemma ThirdSave(m: Mem, p: Mem, w: string, u: string, v: string, abv: string)
    requires TwoKeys(m, w, u, v) && Links(p) == Links(m)
    requires u != "" && v != "" && u != v && w != "" && abv != ""
    requires Resolve(m, abv) == "" || Resolve(m, abv) == u
    ensures !Paired(Save(p, abv, u))
  {
    SaveOnSameLinks(m, p, abv, u);
    assert Resolve(m, w) == v;
    var m' := Save(p, abv, u);
    assert "" in m'.abvNdx && m'.heap[m'.abvNdx[""]].url == u && m'.urlNdx[u] != m'.abvNdx[""];
  }

  lemma HaltedStaysHalted(cfg: Config, sys: Sys<Mem>, req: Request)
    ensures sys.halted ==> Handle(MemDao(), cfg, sys, req).0.halted
  {
  }

  /** Three adds with a starting key size below 1: for `u`, for `v`, and for `u` again. */
  lemma ThreeAddsUnpair(cfg: Config, size: int, pos: nat, u: string, v: string)
    requires Blacklist(cfg.bad) && u != "" && v != "" && u != v && size < 1
    ensures var sys1 := Handle(MemDao(), cfg, Start(EMPTY, size, pos), Add(u, true, "")).0;
            var sys2 := Handle(MemDao(), cfg, sys1, Add(v, true, "")).0;
            var sys3 := Handle(MemDao(), cfg, sys2, Add(u, true, "")).0;
            !sys3.halted ==> !Paired(sys3.store)
  {
    EmptyWordComesFirst(cfg, size, pos, u, "");
    var m1 := Save(EMPTY, "", u);
    assert GetAbv(m1, v) == "";
    var sys1: Sys<Mem> := Start(m1, size, pos);
    var sys2 := Handle(MemDao(), cfg, sys1, Add(v, true, "")).0;
    var sys3 := Handle(MemDao(), cfg, sys2, Add(u, true, "")).0;
    HaltedStaysHalted(cfg, sys2, Add(u, true, ""));
    hide Handle, Links, Resolve, Paired;
    if !sys3.halted {
      var p, w := AddOnMemory(cfg, sys1, v, "");
      SecondSave(p, u, w, v);
      assert GetAbv(sys2.store, u) == "";
      var p', abv := AddOnMemory(cfg, sys2, u, "");
      ThirdSave(sys2.store, p', w, u, v, abv);
    }
  }

  function ThreeAdds(u: string, v: string): seq<Request> {
    [Add(u, true, ""), Add(v, true, ""), Add(u, true, "")]
  }

  lemma ThreeRequests(cfg: Config, sys: Sys<Mem>, a: Request, b: Request, c: Request)
    ensures Final(MemDao(), cfg, sys, [a, b, c])
         == Handle(MemDao(), cfg, Handle(MemDao(), cfg, Handle(MemDao(), cfg, sys, a).0, b).0, c).0
  {
    hide Handle;
    assert [a, b, c][..2] == [a, b] && [a, b][..1] == [a] && [a][..0] == [];
    assert Final(MemDao(), cfg, sys, [a]) == Handle(MemDao(), cfg, sys, a).0;
    assert Final(MemDao(), cfg, sys, [a, b]) == Handle(MemDao(), cfg, Final(MemDao(), cfg, sys, [a]), b).0;
  }

  /** Every sequential run keeps the indexes of the in-memory store paired if and only if the
      starting key size is at least one. The run that shows the other direction makes three
      adds; only its own randString calls have to return. */
  lemma PairingNeedsAKeySize(cfg: Config, size: int, pos: nat, u: string, v: string)
    requires Blacklist(cfg.bad) && u != "" && v != "" && u != v
    requires size < 1 ==> !Final(MemDao(), cfg, Start(EMPTY, size, pos), ThreeAdds(u, v)).halted
    ensures (forall reqs :: Paired(Final(MemDao(), cfg, Start(EMPTY, size, pos), reqs).store)) <==> size >= 1
  {
    hide Handle, Paired;
    if size >= 1 {
      forall reqs
        ensures Paired(Final(MemDao(), cfg, Start(EMPTY, size, pos), reqs).store)
      {
        EveryRunStaysPaired(cfg, size, pos, reqs);
      }
    } else {
      ThreeAddsUnpair(cfg, size, pos, u, v);
      ThreeRequests(cfg, Start(EMPTY, size, pos), Add(u, true, ""), Add(v, true, ""), Add(u, true, ""));
      assert !Paired(Final(MemDao(), cfg, Start(EMPTY, size, pos), ThreeAdds(u, v)).store);
    }
  }
}

/** What randString and CreateAbbreviation of dao/abbreviator.go compute, over any store: two
    nested retry loops that share one growing key size. */
module Generator {
  import opened Model
  import opened ShortUrlDao
  import opened ReservedWords
  import opened Rando

  /** `retries` is the keygrowretries setting; any integer is allowed. */
  datatype Config = Config(bad: set<string>, retries: int, source: Source)

  // Growth of the key size, the same in both loops.

  datatype Growth = Growth(size: int, tries: nat)

  function Grow(retries: int, size: int, tries: nat): Growth {
    if tries + 1 > retries then Growth(size + 1, 0) else Growth(size, tries + 1)
  }

  /** The key size grows once in this many rejections. */
  function Period(retries: int): (g: nat)
    ensures g > 0
  {
    if retries < 0 then 1 else retries + 1
  }

  /** How often `n` rejections make the key size grow, and how many tries are then counted. */
  function Grown(retries: int, n: nat): nat {
    n / Period(retries)
  }

  function Counting(retries: int, n: nat): nat {
    n % Period(retries)
  }

  lemma ProductsAreOrdered(x: int, y: int, g: nat)
    ensures x <= y ==> x * g <= y * g
  {
    if x <= y {
      assert (y - x) * g >= 0;
    }
  }

  lemma DivisionIsUnique(n: nat, g: nat, q: nat, r: nat)
    requires r < g && n == q * g + r
    ensures n / g == q && n % g == r
  {
    var q' := n / g;
    assert n == q' * g + n % g;
    ProductsAreOrdered(q + 1, q', g);
    ProductsAreOrdered(q' + 1, q, g);
    assert (q + 1) * g == q * g + g;
    assert (q' + 1) * g == q' * g + g;
  }

  /** After `n` rejections the key size has grown Grown(n) times. */
  lemma GrowthStep(retries: int, start: int, n: nat)
    ensures Grow(retries, start + Grown(retries, n), Counting(retries, n))
         == Growth(start + Grown(retries, n + 1), Counting(retries, n + 1))
  {
    var g := Period(retries);
    var q, r := n / g, n % g;
    assert n == q * g + r;
    if r + 1 == g {
      assert n + 1 == (q + 1) * g + 0;
      DivisionIsUnique(n + 1, g, q + 1, 0);
    } else {
      DivisionIsUnique(n + 1, g, q, r + 1);
    }
  }

  // randString

  datatype Draw = Draw(size: int, pos: nat, tries: nat)

  function DrawWord(cfg: Config, d: Draw): string {
    Word(cfg.source, d.pos, Length(d.size))
  }

  function Reject(cfg: Config, d: Draw): Draw {
    var g := Grow(cfg.retries, d.size, d.tries);
    Draw(g.size, d.pos + Length(d.size), g.tries)
  }

  function RejectN(cfg: Config, d: Draw, n: nat): Draw {
    if n == 0 then d else Reject(cfg, RejectN(cfg, d, n - 1))
  }

  ghost predicate Accepts(cfg: Config, d: Draw) {
    Acceptable(cfg.bad, DrawWord(cfg, d))
  }

  ghost predicate AllRejected(cfg: Config, d: Draw, n: nat) {
    forall j: nat | j < n :: !Accepts(cfg, RejectN(cfg, d, j))
  }

  /** randString, entered at `d`, returns after exactly `n` rejections. */
  ghost predicate ReturnsAfter(cfg: Config, d: Draw, n: nat) {
    AllRejected(cfg, d, n) && Accepts(cfg, RejectN(cfg, d, n))
  }

  /** A call of randString with this key size, at this position of the source, returns. */
  ghost predicate Returns(cfg: Config, size: int, pos: nat) {
    exists n :: ReturnsAfter(cfg, Draw(size, pos, 0), n)
  }

  datatype Drawn = Drawn(word: string, size: int, pos: nat, rejected: nat)

  /** None when every word drawn is rejected. */
  ghost function RandString(cfg: Config, size: int, pos: nat): Option<Drawn> {
    if Returns(cfg, size, pos) then
      var n :| ReturnsAfter(cfg, Draw(size, pos, 0), n);
      var d := RejectN(cfg, Draw(size, pos, 0), n);
      Some(Drawn(DrawWord(cfg, d), d.size, d.pos + Length(d.size), n))
    else None
  }

  lemma {:induction false} RejectNSize(cfg: Config, size: int, pos: nat, n: nat)
    ensures var d := RejectN(cfg, Draw(size, pos, 0), n);
            && d.size == size + Grown(cfg.retries, n) && d.tries == Counting(cfg.retries, n)
            && d.size == size + n / (if cfg.retries < 0 then 1 else cfg.retries + 1)
  {
    if n == 0 {
      DivisionIsUnique(0, Period(cfg.retries), 0, 0);
    } else {
      RejectNSize(cfg, size, pos, n - 1);
      GrowthStep(cfg.retries, size, n - 1);
    }
  }

  lemma {:induction false} DrawsGoForward(cfg: Config, d: Draw, n: nat)
    ensures RejectN(cfg, d, n).pos >= d.pos
    ensures RejectN(cfg, d, n + 1).pos == RejectN(cfg, d, n).pos + |DrawWord(cfg, RejectN(cfg, d, n))|
  {
    if n == 0 {
    } else {
      DrawsGoForward(cfg, d, n - 1);
    }
  }

  /** One call of randString: the word is the first acceptable one among those that the draws from
      `pos` on spell one after the other, it is over the alphabet, and exactly as long as the key
      size that the rejections of this call have left. */
  lemma RandStringResult(cfg: Config, size: int, pos: nat)
    requires RandString(cfg, size, pos).Some?
    ensures var r := RandString(cfg, size, pos).value;
            && Acceptable(cfg.bad, r.word) && OverAlphabet(r.word)
            && |r.word| == Length(r.size) && r.size == size + Grown(cfg.retries, r.rejected)
            && r.word == Word(cfg.source, r.pos - |r.word|, |r.word|) && r.pos - |r.word| >= pos
            && (forall j: nat | j < r.rejected ::
                  !Acceptable(cfg.bad, DrawWord(cfg, RejectN(cfg, Draw(size, pos, 0), j))))
  {
    var n := RandString(cfg, size, pos).value.rejected;
    RejectNSize(cfg, size, pos, n);
    DrawsGoForward(cfg, Draw(size, pos, 0), n);
    assert AllRejected(cfg, Draw(size, pos, 0), n);
  }

  /** A call returns as soon as one of the words it would draw consists of digits. */
  lemma DigitsMakeItReturn(cfg: Config, size: int, pos: nat, n: nat)
    requires Blacklist(cfg.bad) && AllDigits(DrawWord(cfg, RejectN(cfg, Draw(size, pos, 0), n)))
    ensures Returns(cfg, size, pos)
  {
    var d := Draw(size, pos, 0);
    DigitsAreAcceptable(cfg.bad, DrawWord(cfg, RejectN(cfg, d, n)));
    var k := 0;
    while !Accepts(cfg, RejectN(cfg, d, k))
      invariant k <= n && AllRejected(cfg, d, k)
      decreases n - k
    {
      k := k + 1;
    }
    assert ReturnsAfter(cfg, d, k);
  }

  // CreateAbbreviation

  /** A creation for `url` on this store, entered with this key size and source position. */
  datatype Call<S> = Call(cfg: Config, store: S, size: int, pos: nat, url: string, date: Date)

  /** The variables of the loop when its condition is tested; `rejected` belongs to the latest
      randString call. */
  datatype Probe<S> = Probe(store: S, size: int, pos: nat, tries: nat, abv: string, url: string, rejected: nat)

  /** A randString call and the lookup of its word; None when the call does not return. */
  ghost function Look<S>(dao: Dao<S>, cfg: Config, store: S, size: int, pos: nat, tries: nat, date: Date)
    : Option<Probe<S>>
  {
    match RandString(cfg, size, pos)
    case None => None
    case Some(r) =>
      var (store', url) := dao.getUrl(store, r.word, date);
      Some(Probe(store', r.size, r.pos, tries, r.word, url, r.rejected))
  }

  /** One loop iteration: the rejected abbreviation is looked up (and credited) once more. */
  ghost function NextProbe<S>(dao: Dao<S>, cfg: Config, p: Probe<S>, date: Date): Option<Probe<S>> {
    var g := Grow(cfg.retries, p.size, p.tries);
    Look(dao, cfg, dao.getUrl(p.store, p.abv, date).0, g.size, p.pos, g.tries, date)
  }

  ghost function ProbeN<S>(dao: Dao<S>, c: Call<S>, n: nat): Option<Probe<S>> {
    if n == 0 then Look(dao, c.cfg, c.store, c.size, c.pos, 0, c.date)
    else
      match ProbeN(dao, c, n - 1)
      case None => None
      case Some(p) => NextProbe(dao, c.cfg, p, c.date)
  }

  predicate Collides<S>(p: Option<Probe<S>>, url: string) {
    p.Some? && p.value.url != "" && url != p.value.url
  }

  ghost predicate AllCollide<S>(dao: Dao<S>, c: Call<S>, n: nat) {
    forall j: nat | j < n :: Collides(ProbeN(dao, c, j), c.url)
  }

  /** CreateAbbreviation returns after exactly `n` iterations. */
  ghost predicate CreatesAfter<S>(dao: Dao<S>, c: Call<S>, n: nat) {
    AllCollide(dao, c, n) && ProbeN(dao, c, n).Some? && !Collides(ProbeN(dao, c, n), c.url)
  }

  /** CreateAbbreviation makes a randString call after `n` iterations that does not return. */
  ghost predicate StuckAfter<S>(dao: Dao<S>, c: Call<S>, n: nat) {
    AllCollide(dao, c, n) && ProbeN(dao, c, n).None?
  }

  /** Each randString call that this creation makes returns: the first one, and one after every
      run of collisions. Nothing is asked of calls that it does not make. */
  ghost predicate CallsReturn<S>(dao: Dao<S>, c: Call<S>) {
    forall n: nat :: !StuckAfter(dao, c, n)
  }

  /** The store that the randString call after `n` iterations leaves alone. */
  ghost function StoreReached<S>(dao: Dao<S>, c: Call<S>, n: nat): S {
    if n == 0 then c.store
    else
      match ProbeN(dao, c, n - 1)
      case None => c.store
      case Some(p) => dao.getUrl(p.store, p.abv, c.date).0
  }

  /** How a creation ends: with the loop variables of its last probe, or in a randString call that
      does not return, with the store that it has made by then. */
  datatype Creation<S> =
    | Returned(last: Probe<S>, collisions: nat)
    | Stuck(store: S, collisions: nat)

  /** The last case is that of collisions without end, of which no store with finitely many keys
      is capable. */
  ghost function CreateAbbreviation<S>(dao: Dao<S>, c: Call<S>): Creation<S> {
    if exists n :: CreatesAfter(dao, c, n) then
      var n :| CreatesAfter(dao, c, n);
      Returned(ProbeN(dao, c, n).value, n)
    else if exists n :: StuckAfter(dao, c, n) then
      var n :| StuckAfter(dao, c, n);
      Stuck(StoreReached(dao, c, n), n)
    else Stuck(c.store, 0)
  }

  lemma CreatesOnce<S>(dao: Dao<S>, c: Call<S>, n: nat)
    requires CreatesAfter(dao, c, n)
    ensures CreateAbbreviation(dao, c) == Returned(ProbeN(dao, c, n).value, n)
  {
  }

  lemma {:induction false} EarlierProbes<S>(dao: Dao<S>, c: Call<S>, j: nat, n: nat)
    requires j <= n && ProbeN(dao, c, n).Some?
    ensures ProbeN(dao, c, j).Some?
  {
    if j == n {
    } else {
      EarlierProbes(dao, c, j, n - 1);
    }
  }

  lemma StuckOnce<S>(dao: Dao<S>, c: Call<S>, n: nat)
    requires StuckAfter(dao, c, n)
    ensures CreateAbbreviation(dao, c) == Stuck(StoreReached(dao, c, n), n)
  {
    forall m: nat
      ensures !CreatesAfter(dao, c, m)
      ensures StuckAfter(dao, c, m) ==> m == n
    {
      assert m < n ==> Collides(ProbeN(dao, c, m), c.url);
    }
  }

  /** Growth contributed by the first n + 1 randString calls. */
  ghost function InnerGrowth<S>(dao: Dao<S>, c: Call<S>, n: nat): nat {
    match ProbeN(dao, c, n)
    case None => 0
    case Some(p) => Grown(c.cfg.retries, p.rejected) + if n == 0 then 0 else InnerGrowth(dao, c, n - 1)
  }

  lemma LookArithmetic<S>(dao: Dao<S>, cfg: Config, store: S, size: int, pos: nat, tries: nat, date: Date)
    requires Look(dao, cfg, store, size, pos, tries, date).Some?
    ensures var p := Look(dao, cfg, store, size, pos, tries, date).value;
            && p.size == size + Grown(cfg.retries, p.rejected) && p.tries == tries && |p.abv| == Length(p.size)
            && Acceptable(cfg.bad, p.abv) && OverAlphabet(p.abv)
  {
    RandStringResult(cfg, size, pos);
  }

  /** Key-size arithmetic through both loops, and the abbreviation on offer after n iterations. */
  lemma {:induction false} ProbeArithmetic<S>(dao: Dao<S>, c: Call<S>, n: nat)
    requires ProbeN(dao, c, n).Some?
    ensures var p := ProbeN(dao, c, n).value;
            && p.size == c.size + Grown(c.cfg.retries, n) + InnerGrowth(dao, c, n)
            && p.tries == Counting(c.cfg.retries, n)
            && |p.abv| == Length(p.size)
            && Acceptable(c.cfg.bad, p.abv) && OverAlphabet(p.abv)
  {
    if n == 0 {
      LookArithmetic(dao, c.cfg, c.store, c.size, c.pos, 0, c.date);
      DivisionIsUnique(0, Period(c.cfg.retries), 0, 0);
    } else {
      ProbeArithmetic(dao, c, n - 1);
      hide Look;
      var p := ProbeN(dao, c, n - 1).value;
      var g := Grow(c.cfg.retries, p.size, p.tries);
      GrowthStep(c.cfg.retries, c.size + InnerGrowth(dao, c, n - 1), n - 1);
      LookArithmetic(dao, c.cfg, dao.getUrl(p.store, p.abv, c.date).0, g.size, p.pos, g.tries, c.date);
    }
  }

  lemma {:induction false} InnerGrowthStarts<S>(dao: Dao<S>, c: Call<S>, n: nat)
    requires ProbeN(dao, c, n).Some?
    ensures InnerGrowth(dao, c, 0) <= InnerGrowth(dao, c, n)
  {
    if n == 0 {
    } else {
      InnerGrowthStarts(dao, c, n - 1);
    }
  }

  /** From the first probe on, the key size grows at least once per period. */
  lemma SizesGrow<S>(dao: Dao<S>, c: Call<S>, n: nat)
    requires ProbeN(dao, c, n).Some?
    ensures ProbeN(dao, c, 0).Some?
    ensures ProbeN(dao, c, 0).value.size + Grown(c.cfg.retries, n) <= ProbeN(dao, c, n).value.size
  {
    EarlierProbes(dao, c, 0, n);
    ProbeArithmetic(dao, c, 0);
    DivisionIsUnique(0, Period(c.cfg.retries), 0, 0);
    ProbeArithmetic(dao, c, n);
    InnerGrowthStarts(dao, c, n);
  }

  /** The most iterations a store whose longest key has `longest` characters can force, when the
      first probe is made with key size `first`. */
  function CollisionBound(retries: int, longest: nat, first: int): nat {
    if first <= longest then Period(retries) * (longest + 1 - first) else 0
  }

  lemma BoundArithmetic(retries: int, longest: nat, first: int, n: nat)
    requires first + Grown(retries, n) <= longest
    ensures n < CollisionBound(retries, longest, first)
  {
    var g, q := Period(retries), Grown(retries, n);
    assert n == g * q + Counting(retries, n);
    assert g * (q + 1) <= g * (longest + 1 - first);
  }

  /** The bound of one creation, given the key size of its first probe. */
  ghost function Bound<S>(dao: Dao<S>, c: Call<S>, longest: nat): nat {
    match ProbeN(dao, c, 0)
    case None => 0
    case Some(p) => CollisionBound(c.cfg.retries, longest, p.size)
  }

  /** Worst case, whatever is drawn: an iteration beyond the bound is impossible, because by then
      the key size exceeds the length of every stored key. */
  lemma CollisionsAreBounded<S>(dao: Dao<S>, c: Call<S>, longest: nat, n: nat)
    requires Collides(ProbeN(dao, c, n), c.url)
    requires |ProbeN(dao, c, n).value.abv| <= longest
    ensures n < Bound(dao, c, longest)
    ensures ProbeN(dao, c, 0).Some?
    ensures n < (if c.cfg.retries < 0 then 1 else c.cfg.retries + 1) * (longest + 1 - ProbeN(dao, c, 0).value.size)
  {
    ProbeArithmetic(dao, c, n);
    SizesGrow(dao, c, n);
    hide ProbeN;
    BoundArithmetic(c.cfg.retries, longest, ProbeN(dao, c, 0).value.size, n);
  }

  // What a creation does to a store whose lookups count hits.

  function Counted(url: string): nat {
    if url != "" then 1 else 0
  }

  /** getUrl answers from `links`, which it leaves alone, and adds one to `total` when it finds
      something. */
  ghost predicate LookupsOnlyCount<S(!new), L>(dao: Dao<S>, links: S -> L, resolve: (L, string) -> string,
                                               total: S -> nat) {
    forall s: S, abv: string, date: Date ::
      var (s', url) := dao.getUrl(s, abv, date);
      links(s') == links(s) && url == resolve(links(s), abv) && total(s') == total(s) + Counted(url)
  }

  lemma LookupCounts<S(!new), L>(dao: Dao<S>, s: S, abv: string, date: Date,
      links: S -> L, resolve: (L, string) -> string, total: S -> nat)
    requires LookupsOnlyCount(dao, links, resolve, total)
    ensures var (s', url) := dao.getUrl(s, abv, date);
            links(s') == links(s) && url == resolve(links(s), abv) && total(s') == total(s) + Counted(url)
  {
  }

  /** After n collisions 2n hits are counted, and one more when the last probe found something;
      no abbreviation has changed what it resolves to. */
  lemma {:induction false} CollisionsCountTwice<S(!new), L>(dao: Dao<S>, c: Call<S>, n: nat,
      links: S -> L, resolve: (L, string) -> string, total: S -> nat)
    requires LookupsOnlyCount(dao, links, resolve, total)
    requires AllCollide(dao, c, n)
    requires ProbeN(dao, c, n).Some?
    ensures var p := ProbeN(dao, c, n).value;
            && links(p.store) == links(c.store)
            && p.url == resolve(links(c.store), p.abv)
            && total(p.store) == total(c.store) + 2 * n + Counted(p.url)
  {
    if n == 0 {
    } else {
      assert Collides(ProbeN(dao, c, n - 1), c.url);
      assert AllCollide(dao, c, n - 1);
      hide AllCollide;
      CollisionsCountTwice(dao, c, n - 1, links, resolve, total);
      var p := ProbeN(dao, c, n - 1).value;
      assert dao.getUrl(p.store, p.abv, c.date).1 == p.url;
    }
  }

  /** The same when the randString call that follows the n collisions does not return. */
  lemma StuckCollisionsCountTwice<S(!new), L>(dao: Dao<S>, c: Call<S>, n: nat,
      links: S -> L, resolve: (L, string) -> string, total: S -> nat)
    requires LookupsOnlyCount(dao, links, resolve, total)
    requires AllCollide(dao, c, n)
    ensures var store := StoreReached(dao, c, n);
            links(store) == links(c.store) && total(store) == total(c.store) + 2 * n
  {
    if n == 0 {
    } else {
      assert Collides(ProbeN(dao, c, n - 1), c.url);
      assert AllCollide(dao, c, n - 1);
      hide ProbeN, LookupsOnlyCount, AllCollide;
      CollisionsCountTwice(dao, c, n - 1, links, resolve, total);
      var p := ProbeN(dao, c, n - 1).value;
      LookupCounts(dao, p.store, p.abv, c.date, links, resolve, total);
    }
  }

  lemma CollidingWordIsShort<S(!new), L>(dao: Dao<S>, c: Call<S>, longest: nat, n: nat,
      links: S -> L, resolve: (L, string) -> string, total: S -> nat)
    requires LookupsOnlyCount(dao, links, resolve, total)
    requires forall abv :: resolve(links(c.store), abv) != "" ==> |abv| <= longest
    requires AllCollide(dao, c, n + 1)
    ensures Collides(ProbeN(dao, c, n), c.url) && |ProbeN(dao, c, n).value.abv| <= longest
  {
    hide ProbeN, LookupsOnlyCount;
    assert Collides(ProbeN(dao, c, n), c.url);
    assert AllCollide(dao, c, n);
    hide AllCollide;
    CollisionsCountTwice(dao, c, n, links, resolve, total);
  }

  /** Any number of collisions in a row lies within the bound. */
  lemma RunsOfCollisionsAreBounded<S(!new), L>(dao: Dao<S>, c: Call<S>, longest: nat, n: nat,
      links: S -> L, resolve: (L, string) -> string, total: S -> nat)
    requires LookupsOnlyCount(dao, links, resolve, total)
    requires forall abv :: resolve(links(c.store), abv) != "" ==> |abv| <= longest
    requires AllCollide(dao, c, n)
    ensures n <= Bound(dao, c, longest)
  {
    hide ProbeN, LookupsOnlyCount, AllCollide, Bound;
    if n > 0 {
      CollidingWordIsShort(dao, c, longest, n - 1, links, resolve, total);
      CollisionsAreBounded(dao, c, longest, n - 1);
    }
  }

  /** On a store whose keys have at most `longest` characters, a creation returns as soon as the
      randString calls that it makes return, whatever they draw. */
  lemma ReturningCallsMakeCreationsReturn<S(!new), L>(dao: Dao<S>, c: Call<S>, longest: nat,
      links: S -> L, resolve: (L, string) -> string, total: S -> nat)
    requires LookupsOnlyCount(dao, links, resolve, total)
    requires forall abv :: resolve(links(c.store), abv) != "" ==> |abv| <= longest
    requires CallsReturn(dao, c)
    ensures CreateAbbreviation(dao, c).Returned?
  {
    hide ProbeN;
    var bound := Bound(dao, c, longest);
    var n := 0;
    while Collides(ProbeN(dao, c, n), c.url)
      invariant n <= bound && AllCollide(dao, c, n)
      decreases bound - n
    {
      n := n + 1;
      RunsOfCollisionsAreBounded(dao, c, longest, n, links, resolve, total);
    }
    assert !StuckAfter(dao, c, n);
    assert CreatesAfter(dao, c, n);
  }

  /** A creation on a store whose keys have at most `longest` characters: it returns if and only
      if each randString call that it makes does. Either way its collisions lie within the
      worst-case bound and count two hits each. The abbreviation of one that returns is an
      acceptable word of the final key size that is free or already bound to the URL. */
  lemma CreationOutcome<S(!new), L>(dao: Dao<S>, c: Call<S>, longest: nat,
      links: S -> L, resolve: (L, string) -> string, total: S -> nat)
    requires LookupsOnlyCount(dao, links, resolve, total)
    requires forall abv :: resolve(links(c.store), abv) != "" ==> |abv| <= longest
    ensures var made := CreateAbbreviation(dao, c);
            && (made.Returned? <==> CallsReturn(dao, c))
            && var n := made.collisions;
            && n <= Bound(dao, c, longest)
            && (made.Stuck? ==>
                  && StuckAfter(dao, c, n)
                  && links(made.store) == links(c.store) && total(made.store) == total(c.store) + 2 * n)
            && (made.Returned? ==>
                  var p := made.last;
                  && Acceptable(c.cfg.bad, p.abv) && OverAlphabet(p.abv)
                  && |p.abv| == Length(p.size)
                  && p.size == c.size + Grown(c.cfg.retries, n) + InnerGrowth(dao, c, n)
                  && (p.url == "" || p.url == c.url)
                  && p.url == resolve(links(c.store), p.abv)
                  && links(p.store) == links(c.store)
                  && total(p.store) == total(c.store) + 2 * n + Counted(p.url))
  {
    hide ProbeN, StoreReached;
    if CallsReturn(dao, c) {
      ReturningCallsMakeCreationsReturn(dao, c, longest, links, resolve, total);
      var n: nat :| CreatesAfter(dao, c, n);
      CreatesOnce(dao, c, n);
      ProbeArithmetic(dao, c, n);
      CollisionsCountTwice(dao, c, n, links, resolve, total);
      RunsOfCollisionsAreBounded(dao, c, longest, n, links, resolve, total);
    } else {
      var n: nat :| StuckAfter(dao, c, n);
      StuckOnce(dao, c, n);
      StuckCollisionsCountTwice(dao, c, n, links, resolve, total);
      RunsOfCollisionsAreBounded(dao, c, longest, n, links, resolve, total);
    }
  }
}

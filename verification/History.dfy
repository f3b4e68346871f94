/** What the service answers, told from the outside: the requests and responses so far determine
    which links exist, where they lead and which hits they show, and these determine the next
    response. */
module History {
  import opened Model
  import opened ShortUrlDao
  import opened Generator
  import opened Protocol
  import opened Refinement
  import A = AbstractStore

  /** What is known of one link. */
  datatype Account = Account(url: string, daily: map<Date, nat>)

  type Books = map<string, Account>

  /** The books after one more request. `counted` is what a creation has added to each link. */
  ghost function Entered(books: Books, req: Request, response: Response, counted: string -> nat): Books {
    match req
    case GetStats(_, _) => books
    case Delete(abv, _) => books - {abv}
    case Get(abv, date) =>
      if abv in books then books[abv := Account(books[abv].url, AddHits(books[abv].daily, date, 1))] else books
    case Add(url, _, date) =>
      var hit := map b | b in books :: Account(books[b].url, AddHits(books[b].daily, date, counted(b)));
      if response.Link? && response.abv !in books then hit[response.abv := Account(url, map[])] else hit
  }

  /** How many of the first `n` probes of a creation offered `abv`. */
  ghost function Offered<S>(dao: Dao<S>, c: Call<S>, n: nat, abv: string): nat {
    if n == 0 then 0
    else
      match ProbeN(dao, c, n - 1)
      case None => 0
      case Some(p) => Offered(dao, c, n - 1, abv) + if p.abv == abv then 1 else 0
  }

  /** A creation counts two hits on a link for each collision with it. */
  ghost function CountedOn<S>(dao: Dao<S>, cfg: Config, sys: Sys<S>, req: Request): string -> nat {
    (abv: string) =>
      if req.Add? && ReachesCreation(dao, sys, req.url, req.valid)
      then 2 * Offered(dao, CallOf(cfg, sys, req.url, req.date), Collisions(dao, cfg, sys, req), abv)
      else 0
  }

  /** The books before request i, from the requests and the responses before it. */
  ghost function BooksBefore<S>(dao: Dao<S>, cfg: Config, start: Sys<S>, reqs: seq<Request>, i: nat): Books
    requires i <= |reqs|
  {
    if i == 0 then map[]
    else
      Entered(BooksBefore(dao, cfg, start, reqs, i - 1), reqs[i - 1], Responses(dao, cfg, start, reqs)[i - 1],
              CountedOn(dao, cfg, Final(dao, cfg, start, reqs[..i - 1]), reqs[i - 1]))
  }

  ghost predicate IsBooked(books: Books, url: string) {
    exists a | a in books :: books[a].url == url
  }

  /** The right answer to a request, given the books. A total is the sum of the daily hits, in the
      form in which this store reports it. `returning` says whether the randString calls return
      that a creation makes. */
  ghost predicate AnswerFits(narrow: A.Narrowing, books: Books, req: Request, response: Response, returning: bool) {
    match req
    case Delete(_, _) => response == Deleted
    case Get(abv, _) => response == if abv in books then Redirect(books[abv].url) else NotFound
    case GetStats(abv, _) =>
      if abv !in books then response == NotFound
      else
        (match narrow(Sum(books[abv].daily))
         case Failed => response == ServerError
         case Ok(hits) => response == Shown(Stats(abv, books[abv].url, hits, books[abv].daily)))
    case Add(url, valid, _) =>
      if url == "" || !valid then response == BadRequest
      else if IsBooked(books, url) then
        response.Link? && response.abv in books && books[response.abv].url == url
      else if returning then response.Link? && response.abv != "" && response.abv !in books
      else response == NoReply
  }

  /** A creation that does not return leaves all later requests without an answer. */
  ghost predicate Silenced(responses: seq<Response>, i: nat)
    requires i <= |responses|
  {
    exists j :: 0 <= j < i && responses[j] == NoReply
  }

  ghost predicate RequestReturns<S>(dao: Dao<S>, cfg: Config, sys: Sys<S>, req: Request) {
    req.Add? ==> AddReturns(dao, cfg, sys, req.url, req.valid, req.date)
  }

  /** Response i is the one that the requests and responses before it call for. */
  ghost predicate FollowsHistory<S>(dao: Dao<S>, narrow: A.Narrowing, cfg: Config, start: Sys<S>, reqs: seq<Request>,
                                    i: nat)
    requires i < |reqs|
  {
    var responses := Responses(dao, cfg, start, reqs);
    if Silenced(responses, i) then responses[i] == NoReply
    else AnswerFits(narrow, BooksBefore(dao, cfg, start, reqs, i), reqs[i], responses[i],
                    RequestReturns(dao, cfg, Final(dao, cfg, start, reqs[..i]), reqs[i]))
  }

  // The abstract store keeps these books.

  ghost predicate MatchesEntry(account: Account, e: A.Entry) {
    account.url == e.url && account.daily == e.daily && e.hits == Sum(e.daily)
  }

  ghost predicate Kept(books: Books, st: Store) {
    && books.Keys == st.Keys
    && forall a | a in st :: MatchesEntry(books[a], st[a])
  }

  function CreditedBy(e: A.Entry, date: Date, n: nat): A.Entry {
    A.Entry(e.url, e.hits + n, AddHits(e.daily, date, n))
  }

  lemma CreditOnceMore(e: A.Entry, date: Date, n: nat)
    ensures A.Credit(CreditedBy(e, date, n), date) == CreditedBy(e, date, n + 1)
  {
    AddHitsTwice(e.daily, date, n, 1);
  }

  lemma CreditedMatches(account: Account, e: A.Entry, date: Date, n: nat)
    requires MatchesEntry(account, e)
    ensures MatchesEntry(Account(account.url, AddHits(account.daily, date, n)), CreditedBy(e, date, n))
  {
    SumAddHits(e.daily, date, n);
  }

  /** One lookup, as far as link `b` is concerned. */
  lemma LookupCredits(st: Store, e: A.Entry, date: Date, n: nat, abv: string, b: string)
    requires b in st && st[b] == CreditedBy(e, date, n)
    ensures var st' := A.GetUrl(st, abv, date).0;
            st'.Keys == st.Keys && st'[b] == CreditedBy(e, date, n + if abv == b then 1 else 0)
  {
    CreditOnceMore(e, date, n);
  }

  lemma LookKnows(narrow: A.Narrowing, cfg: Config, st: Store, size: int, pos: nat, tries: nat, date: Date)
    requires Look(A.AbstractDao(narrow), cfg, st, size, pos, tries, date).Some?
    ensures var p := Look(A.AbstractDao(narrow), cfg, st, size, pos, tries, date).value;
            p.store == A.GetUrl(st, p.abv, date).0 && p.store.Keys == st.Keys
  {
  }

  lemma SecondLookupKnows(narrow: A.Narrowing, p: Probe<Store>, date: Date)
    ensures var st := A.AbstractDao(narrow).getUrl(p.store, p.abv, date).0;
            st == A.GetUrl(p.store, p.abv, date).0 && st.Keys == p.store.Keys
  {
  }

  lemma NothingCredited(e: A.Entry, date: Date)
    ensures CreditedBy(e, date, 0) == e
  {
  }

  /** After n collisions link `b` has two more hits for each of them that was with it, and one more
      when it is on offer now. */
  lemma {:induction false} CollisionsCredit(narrow: A.Narrowing, c: Call<Store>, n: nat, b: string)
    requires ProbeN(A.AbstractDao(narrow), c, n).Some?
    ensures var dao := A.AbstractDao(narrow);
            var p := ProbeN(dao, c, n).value;
            && p.store.Keys == c.store.Keys
            && (b in c.store ==>
                  p.store[b]
                  == CreditedBy(c.store[b], c.date, 2 * Offered(dao, c, n, b) + if p.abv == b then 1 else 0))
  {
    hide CreditedBy, A.GetUrl, Look, A.AbstractDao;
    var dao := A.AbstractDao(narrow);
    if n == 0 {
      LookKnows(narrow, c.cfg, c.store, c.size, c.pos, 0, c.date);
      if b in c.store {
        NothingCredited(c.store[b], c.date);
        LookupCredits(c.store, c.store[b], c.date, 0, ProbeN(dao, c, 0).value.abv, b);
      }
    } else {
      CollisionsCredit(narrow, c, n - 1, b);
      var p, q := ProbeN(dao, c, n - 1).value, ProbeN(dao, c, n).value;
      var g := Grow(c.cfg.retries, p.size, p.tries);
      SecondLookupKnows(narrow, p, c.date);
      var twice := A.GetUrl(p.store, p.abv, c.date).0;
      LookKnows(narrow, c.cfg, twice, g.size, p.pos, g.tries, c.date);
      if b in c.store {
        var before := 2 * Offered(dao, c, n - 1, b);
        LookupCredits(p.store, c.store[b], c.date, before + (if p.abv == b then 1 else 0), p.abv, b);
        LookupCredits(twice, c.store[b], c.date, before + (if p.abv == b then 2 else 0), q.abv, b);
      }
    }
  }

  lemma LastProbe<S>(dao: Dao<S>, c: Call<S>)
    requires CreateAbbreviation(dao, c).Returned?
    ensures var made := CreateAbbreviation(dao, c);
            ProbeN(dao, c, made.collisions) == Some(made.last)
  {
  }

  /** What the handler makes of a creation. */
  lemma AddFollowsCreation(narrow: A.Narrowing, cfg: Config, sys: Sys<Store>, req: Request)
    requires !sys.halted && req.Add? && ReachesCreation(A.AbstractDao(narrow), sys, req.url, req.valid)
    ensures var dao := A.AbstractDao(narrow);
            var (sys', r) := Handle(dao, cfg, sys, req);
            var made := CreateAbbreviation(dao, CallOf(cfg, sys, req.url, req.date));
            && Collisions(dao, cfg, sys, req) == made.collisions
            && sys'.halted == made.Stuck?
            && (made.Stuck? ==> r == NoReply)
            && (made.Returned? ==>
                  r == Link(made.last.abv) && sys'.store == A.Save(made.last.store, made.last.abv, req.url))
  {
    hide CreateAbbreviation;
  }

  /** On any store: a link that could not be saved is an error, not an answer. */
  lemma FailedSavesAreReported<S>(dao: Dao<S>, cfg: Config, sys: Sys<S>, req: Request)
    requires !sys.halted && req.Add? && ReachesCreation(dao, sys, req.url, req.valid)
    ensures var made := CreateAbbreviation(dao, CallOf(cfg, sys, req.url, req.date));
            made.Returned? ==>
              var saved := dao.save(made.last.store, made.last.abv, req.url).1;
              Handle(dao, cfg, sys, req).1 == if saved then Link(made.last.abv) else ServerError
  {
    hide CreateAbbreviation;
  }

  lemma CreationIsAnswered(narrow: A.Narrowing, cfg: Config, sys: Sys<Store>, req: Request)
    requires A.OneToOne(sys.store) && sys.size >= 1 && !sys.halted && IsCreation(sys.store, req)
    ensures var dao := A.AbstractDao(narrow);
            var (sys', r) := Handle(dao, cfg, sys, req);
            && ReachesCreation(dao, sys, req.url, req.valid)
            && (sys'.halted <==> !RequestReturns(dao, cfg, sys, req))
            && (sys'.halted ==> r == NoReply)
            && (!sys'.halted ==> r.Link? && r.abv != "" && r.abv !in sys.store)
  {
    AbstractSimulatesItself(narrow);
    hide Handle;
    RequestSimulates(A.AbstractDao(narrow), narrow, (s: Store, st: Store, d: Date) => s == st,
                     (s: Store, st: Store) => s == st, cfg, sys, sys, req);
    A.GetAbvFinds(sys.store, req.url);
    AddFollowsCreation(narrow, cfg, sys, req);
  }

  /** What the abstract store has made of an add that creates a link. */
  lemma CreationEnters(narrow: A.Narrowing, cfg: Config, sys: Sys<Store>, req: Request, b: string)
    requires A.OneToOne(sys.store) && sys.size >= 1 && !sys.halted && IsCreation(sys.store, req)
    requires !Handle(A.AbstractDao(narrow), cfg, sys, req).0.halted
    ensures var dao := A.AbstractDao(narrow);
            var (sys', r) := Handle(dao, cfg, sys, req);
            && sys'.store.Keys == sys.store.Keys + {r.abv}
            && sys'.store[r.abv] == A.Entry(req.url, 0, map[])
            && (b in sys.store ==>
                  sys'.store[b] == CreditedBy(sys.store[b], req.date, CountedOn(dao, cfg, sys, req)(b)))
  {
    hide Handle, CreateAbbreviation, Offered, CreditedBy, CallsReturn, A.OneToOne, A.AbstractDao;
    var dao := A.AbstractDao(narrow);
    CreationIsAnswered(narrow, cfg, sys, req);
    AddFollowsCreation(narrow, cfg, sys, req);
    var c := CallOf(cfg, sys, req.url, req.date);
    LastProbe(dao, c);
    CollisionsCredit(narrow, c, CreateAbbreviation(dao, c).collisions, b);
  }

  // One request.

  /** The answer fits the books, and the store goes on keeping them. */
  ghost predicate GoesOn(narrow: A.Narrowing, cfg: Config, sys: Sys<Store>, books: Books, req: Request) {
    var dao := A.AbstractDao(narrow);
    var (sys', response) := Handle(dao, cfg, sys, req);
    && AnswerFits(narrow, books, req, response, RequestReturns(dao, cfg, sys, req))
    && (sys'.halted <==> response == NoReply)
    && (!sys'.halted ==> Kept(Entered(books, req, response, CountedOn(dao, cfg, sys, req)), sys'.store))
  }

  lemma GetGoesOn(narrow: A.Narrowing, cfg: Config, sys: Sys<Store>, books: Books, abv: string, date: Date)
    requires A.OneToOne(sys.store) && !sys.halted && Kept(books, sys.store)
    ensures GoesOn(narrow, cfg, sys, books, Get(abv, date))
  {
    if abv in sys.store {
      assert MatchesEntry(books[abv], sys.store[abv]);
      SumAddHits(sys.store[abv].daily, date, 1);
    }
  }

  lemma StatsGoOn(narrow: A.Narrowing, cfg: Config, sys: Sys<Store>, books: Books, abv: string, date: Date)
    requires A.OneToOne(sys.store) && !sys.halted && Kept(books, sys.store)
    ensures GoesOn(narrow, cfg, sys, books, GetStats(abv, date))
  {
    if abv in sys.store {
      assert MatchesEntry(books[abv], sys.store[abv]);
    }
  }

  lemma DeleteGoesOn(narrow: A.Narrowing, cfg: Config, sys: Sys<Store>, books: Books, abv: string, date: Date)
    requires !sys.halted && Kept(books, sys.store)
    ensures GoesOn(narrow, cfg, sys, books, Delete(abv, date))
  {
  }

  lemma BookedUrlsAreStored(books: Books, st: Store, url: string)
    requires Kept(books, st)
    ensures IsBooked(books, url) <==> A.HasUrl(st, url)
  {
    if IsBooked(books, url) {
      var a :| a in books && books[a].url == url;
      assert MatchesEntry(books[a], st[a]);
    }
    if A.HasUrl(st, url) {
      var a :| a in st && st[a].url == url;
      assert MatchesEntry(books[a], st[a]);
    }
  }

  lemma NothingEntered(books: Books, req: Request, response: Response, counted: string -> nat)
    requires req.Add? && (response.Link? ==> response.abv in books) && forall b :: counted(b) == 0
    ensures Entered(books, req, response, counted) == books
  {
  }

  /** An add that finds something wrong or finds its URL. */
  lemma SimpleAddGoesOn(narrow: A.Narrowing, cfg: Config, sys: Sys<Store>, books: Books, req: Request)
    requires A.OneToOne(sys.store) && !sys.halted && Kept(books, sys.store)
    requires req.Add? && !IsCreation(sys.store, req)
    ensures GoesOn(narrow, cfg, sys, books, req)
  {
    var dao := A.AbstractDao(narrow);
    BookedUrlsAreStored(books, sys.store, req.url);
    A.GetAbvFinds(sys.store, req.url);
    var (sys', response) := Handle(dao, cfg, sys, req);
    assert sys' == sys;
    assert !ReachesCreation(dao, sys, req.url, req.valid);
    NothingEntered(books, req, response, CountedOn(dao, cfg, sys, req));
    if response.Link? {
      assert MatchesEntry(books[response.abv], sys.store[response.abv]);
    }
  }

  lemma NewEntryMatches(url: string)
    ensures MatchesEntry(Account(url, map[]), A.Entry(url, 0, map[]))
  {
    assert Sum<Date>(map[]) == 0;
  }

  lemma CreationGoesOn(narrow: A.Narrowing, cfg: Config, sys: Sys<Store>, books: Books, req: Request)
    requires A.OneToOne(sys.store) && sys.size >= 1 && !sys.halted && Kept(books, sys.store)
    requires IsCreation(sys.store, req)
    ensures GoesOn(narrow, cfg, sys, books, req)
  {
    hide Handle, CountedOn, A.OneToOne, RequestReturns, MatchesEntry, CreditedBy, IsBooked;
    var dao := A.AbstractDao(narrow);
    BookedUrlsAreStored(books, sys.store, req.url);
    CreationIsAnswered(narrow, cfg, sys, req);
    var (sys', response) := Handle(dao, cfg, sys, req);
    if !sys'.halted {
      NewEntryMatches(req.url);
      CreationEnters(narrow, cfg, sys, req, "");
      forall b | b in sys'.store
        ensures MatchesEntry(Entered(books, req, response, CountedOn(dao, cfg, sys, req))[b], sys'.store[b])
      {
        if b != response.abv {
          CreationEnters(narrow, cfg, sys, req, b);
          CreditedMatches(books[b], sys.store[b], req.date, CountedOn(dao, cfg, sys, req)(b));
        }
      }
    }
  }

  lemma RequestGoesOn(narrow: A.Narrowing, cfg: Config, sys: Sys<Store>, books: Books, req: Request)
    requires A.OneToOne(sys.store) && sys.size >= 1 && !sys.halted && Kept(books, sys.store)
    ensures GoesOn(narrow, cfg, sys, books, req)
  {
    hide GoesOn, Kept, A.OneToOne;
    match req
    case Get(abv, date) => GetGoesOn(narrow, cfg, sys, books, abv, date);
    case GetStats(abv, date) => StatsGoOn(narrow, cfg, sys, books, abv, date);
    case Delete(abv, date) => DeleteGoesOn(narrow, cfg, sys, books, abv, date);
    case Add(_, _, _) =>
      if IsCreation(sys.store, req) {
        CreationGoesOn(narrow, cfg, sys, books, req);
      } else {
        SimpleAddGoesOn(narrow, cfg, sys, books, req);
      }
  }

  // Runs.

  lemma NothingIsKept()
    ensures Kept(map[], map[])
  {
  }

  lemma HaltedStays<S>(dao: Dao<S>, cfg: Config, sys: Sys<S>, req: Request)
    ensures sys.halted ==> Handle(dao, cfg, sys, req) == (sys, NoReply)
  {
  }

  /** A run of the abstract store keeps the books until it is halted, which shows. */
  lemma {:induction false} RunKeepsBooks(narrow: A.Narrowing, cfg: Config, size: int, pos: nat, reqs: seq<Request>,
                                         i: nat)
    requires size >= 1 && i <= |reqs|
    ensures var start: Sys<Store> := Start(map[], size, pos);
            var dao := A.AbstractDao(narrow);
            var sys := Before(cfg, narrow, size, pos, reqs, i);
            && (sys.halted <==> Silenced(Responses(dao, cfg, start, reqs), i))
            && (!sys.halted ==> Kept(BooksBefore(dao, cfg, start, reqs, i), sys.store))
  {
    hide Kept, Handle, Entered, CountedOn, AnswerFits, A.OneToOne;
    if i == 0 {
      NothingIsKept();
    } else {
      var start: Sys<Store> := Start(map[], size, pos);
      var dao := A.AbstractDao(narrow);
      RunKeepsBooks(narrow, cfg, size, pos, reqs, i - 1);
      BeforeIsOneToOne(cfg, narrow, size, pos, reqs, i - 1);
      ResponseAt(dao, cfg, start, reqs, i - 1);
      var sys := Before(cfg, narrow, size, pos, reqs, i - 1);
      if sys.halted {
        HaltedStays(dao, cfg, sys, reqs[i - 1]);
      } else {
        RequestGoesOn(narrow, cfg, sys, BooksBefore(dao, cfg, start, reqs, i - 1), reqs[i - 1]);
      }
    }
  }

  lemma AbstractFollowsHistory(narrow: A.Narrowing, cfg: Config, size: int, pos: nat, reqs: seq<Request>, i: nat)
    requires size >= 1 && i < |reqs|
    ensures FollowsHistory(A.AbstractDao(narrow), narrow, cfg, Start(map[], size, pos), reqs, i)
  {
    hide Kept, Handle, BooksBefore, AnswerFits, Entered, CountedOn, Silenced, A.OneToOne, RequestReturns;
    var start: Sys<Store> := Start(map[], size, pos);
    var dao := A.AbstractDao(narrow);
    RunKeepsBooks(narrow, cfg, size, pos, reqs, i);
    BeforeIsOneToOne(cfg, narrow, size, pos, reqs, i);
    ResponseAt(dao, cfg, start, reqs, i);
    var sys := Before(cfg, narrow, size, pos, reqs, i);
    HaltedStays(dao, cfg, sys, reqs[i]);
    if !sys.halted {
      RequestGoesOn(narrow, cfg, sys, BooksBefore(dao, cfg, start, reqs, i), reqs[i]);
    }
  }

  // From the abstract store to every store that simulates it.

  lemma {:induction false} OfferedAlike<S(!new)>(dao: Dao<S>, narrow: A.Narrowing,
      during: (S, Store, Date) -> bool, between: (S, Store) -> bool, c: Call<S>, c': Call<Store>, n: nat, b: string)
    requires Simulates(dao, during, between) && SameCall(during, c, c')
    ensures Offered(dao, c, n, b) == Offered(A.AbstractDao(narrow), c', n, b)
  {
    hide Simulates, SameCall, A.OneToOne, A.AbstractDao, ProbeN;
    if n == 0 {
    } else {
      OfferedAlike(dao, narrow, during, between, c, c', n - 1, b);
      ProbesSimulate(dao, narrow, during, between, c, c', n - 1);
    }
  }

  lemma ReachAlike<S(!new)>(dao: Dao<S>, narrow: A.Narrowing,
      during: (S, Store, Date) -> bool, between: (S, Store) -> bool, sys: Sys<S>, abs: Sys<Store>, req: Request)
    requires Simulates(dao, during, between) && Related(between, sys, abs) && req.Add?
    ensures ReachesCreation(dao, sys, req.url, req.valid)
       <==> ReachesCreation(A.AbstractDao(narrow), abs, req.url, req.valid)
    ensures forall cfg :: SameCall(during, CallOf(cfg, sys, req.url, req.date), CallOf(cfg, abs, req.url, req.date))
  {
    assert during(sys.store, abs.store, req.date);
  }

  lemma CountedAlike<S(!new)>(dao: Dao<S>, narrow: A.Narrowing, during: (S, Store, Date) -> bool,
      between: (S, Store) -> bool, cfg: Config, sys: Sys<S>, abs: Sys<Store>, req: Request)
    requires Simulates(dao, during, between) && Related(between, sys, abs) && req.Add?
    ensures forall b :: CountedOn(dao, cfg, sys, req)(b) == CountedOn(A.AbstractDao(narrow), cfg, abs, req)(b)
  {
    hide Simulates, Related, Handle, SameCall, ReachesCreation, CallOf, Collisions, Offered, A.AbstractDao;
    ReachAlike(dao, narrow, during, between, sys, abs, req);
    RequestSimulates(dao, narrow, during, between, cfg, sys, abs, req);
    var c, c' := CallOf(cfg, sys, req.url, req.date), CallOf(cfg, abs, req.url, req.date);
    forall b
      ensures CountedOn(dao, cfg, sys, req)(b) == CountedOn(A.AbstractDao(narrow), cfg, abs, req)(b)
    {
      OfferedAlike(dao, narrow, during, between, c, c', Collisions(dao, cfg, sys, req), b);
    }
  }

  lemma ReturnsAlike<S(!new)>(dao: Dao<S>, narrow: A.Narrowing, during: (S, Store, Date) -> bool,
      between: (S, Store) -> bool, cfg: Config, sys: Sys<S>, abs: Sys<Store>, req: Request)
    requires Simulates(dao, during, between) && Related(between, sys, abs)
    ensures !sys.halted && req.Add? ==>
              RequestReturns(dao, cfg, sys, req) == RequestReturns(A.AbstractDao(narrow), cfg, abs, req)
  {
    hide Simulates, Handle, AddReturns, A.AbstractDao, A.OneToOne;
    AbstractSimulatesItself(narrow);
    RequestSimulates(dao, narrow, during, between, cfg, sys, abs, req);
    RequestSimulates(A.AbstractDao(narrow), narrow, (s: Store, st: Store, d: Date) => s == st,
                     (s: Store, st: Store) => s == st, cfg, abs, abs, req);
  }

  /** A request counts the same hits on a store as on the abstract one, and its calls return on
      both or on neither. */
  lemma RequestsAlike<S(!new)>(dao: Dao<S>, narrow: A.Narrowing, during: (S, Store, Date) -> bool,
      between: (S, Store) -> bool, cfg: Config, sys: Sys<S>, abs: Sys<Store>, req: Request)
    requires Simulates(dao, during, between) && Related(between, sys, abs)
    ensures forall b :: CountedOn(dao, cfg, sys, req)(b) == CountedOn(A.AbstractDao(narrow), cfg, abs, req)(b)
    ensures !sys.halted ==>
              (RequestReturns(dao, cfg, sys, req) <==> RequestReturns(A.AbstractDao(narrow), cfg, abs, req))
  {
    if req.Add? {
      CountedAlike(dao, narrow, during, between, cfg, sys, abs, req);
      ReturnsAlike(dao, narrow, during, between, cfg, sys, abs, req);
    }
  }

  lemma EnteredAlike(books: Books, req: Request, response: Response, counted: string -> nat, counted': string -> nat)
    requires forall b :: counted(b) == counted'(b)
    ensures Entered(books, req, response, counted) == Entered(books, req, response, counted')
  {
  }

  lemma {:induction false} BooksAlike<S(!new)>(dao: Dao<S>, narrow: A.Narrowing, during: (S, Store, Date) -> bool,
      between: (S, Store) -> bool, cfg: Config, sys: Sys<S>, abs: Sys<Store>, reqs: seq<Request>, i: nat)
    requires Simulates(dao, during, between) && Reports(dao, narrow, between) && Related(between, sys, abs)
    requires i <= |reqs|
    ensures BooksBefore(dao, cfg, sys, reqs, i) == BooksBefore(A.AbstractDao(narrow), cfg, abs, reqs, i)
  {
    hide Simulates, Reports, Related, Handle, Entered, CountedOn, A.AbstractDao;
    if i == 0 {
    } else {
      BooksAlike(dao, narrow, during, between, cfg, sys, abs, reqs, i - 1);
      RunSimulates(dao, narrow, during, between, cfg, sys, abs, reqs);
      FinalSimulates(dao, narrow, during, between, cfg, sys, abs, reqs[..i - 1]);
      var s, a := Final(dao, cfg, sys, reqs[..i - 1]), Final(A.AbstractDao(narrow), cfg, abs, reqs[..i - 1]);
      RequestsAlike(dao, narrow, during, between, cfg, s, a, reqs[i - 1]);
      EnteredAlike(BooksBefore(dao, cfg, sys, reqs, i - 1), reqs[i - 1], Responses(dao, cfg, sys, reqs)[i - 1],
                   CountedOn(dao, cfg, s, reqs[i - 1]), CountedOn(A.AbstractDao(narrow), cfg, a, reqs[i - 1]));
    }
  }

  lemma HistoryAlike<S(!new)>(dao: Dao<S>, narrow: A.Narrowing, during: (S, Store, Date) -> bool,
      between: (S, Store) -> bool, cfg: Config, sys: Sys<S>, abs: Sys<Store>, reqs: seq<Request>, i: nat)
    requires Simulates(dao, during, between) && Reports(dao, narrow, between) && Related(between, sys, abs)
    requires i < |reqs| && FollowsHistory(A.AbstractDao(narrow), narrow, cfg, abs, reqs, i)
    requires Final(A.AbstractDao(narrow), cfg, abs, reqs[..i]).halted
        <==> Silenced(Responses(A.AbstractDao(narrow), cfg, abs, reqs), i)
    ensures FollowsHistory(dao, narrow, cfg, sys, reqs, i)
  {
    hide Simulates, Reports, Handle, Final, BooksBefore, Silenced, RequestReturns, AnswerFits;
    hide A.AbstractDao, A.OneToOne;
    RunSimulates(dao, narrow, during, between, cfg, sys, abs, reqs);
    BooksAlike(dao, narrow, during, between, cfg, sys, abs, reqs, i);
    FinalSimulates(dao, narrow, during, between, cfg, sys, abs, reqs[..i]);
    RequestsAlike(dao, narrow, during, between, cfg, Final(dao, cfg, sys, reqs[..i]),
                  Final(A.AbstractDao(narrow), cfg, abs, reqs[..i]), reqs[i]);
  }

  /** Every response of a run on a store that simulates the abstract one is the one that the
      requests and responses before it call for. */
  lemma SimulatingStoresFollowHistory<S(!new)>(dao: Dao<S>, narrow: A.Narrowing, during: (S, Store, Date) -> bool,
      between: (S, Store) -> bool, empty: S, cfg: Config, size: int, pos: nat, reqs: seq<Request>, i: nat)
    requires Simulates(dao, during, between) && Reports(dao, narrow, between) && between(empty, map[])
    requires size >= 1 && i < |reqs|
    ensures FollowsHistory(dao, narrow, cfg, Start(empty, size, pos), reqs, i)
  {
    hide Simulates, Reports, FollowsHistory, Silenced, Kept;
    assert A.OneToOne(map[]);
    AbstractFollowsHistory(narrow, cfg, size, pos, reqs, i);
    RunKeepsBooks(narrow, cfg, size, pos, reqs, i);
    HistoryAlike(dao, narrow, during, between, cfg, Start(empty, size, pos), Start(map[], size, pos), reqs, i);
  }

  // What this means for one link.

  lemma {:induction false} StaysBooked<S>(dao: Dao<S>, narrow: A.Narrowing, cfg: Config, start: Sys<S>,
                                          reqs: seq<Request>, i: nat, k: nat, abv: string)
    requires i < k <= |reqs| && FollowsHistory(dao, narrow, cfg, start, reqs, i)
    requires reqs[i].Add? && Responses(dao, cfg, start, reqs)[i] == Link(abv)
    requires forall j | i < j < k && reqs[j].Delete? :: reqs[j].abv != abv
    ensures var books := BooksBefore(dao, cfg, start, reqs, k); abv in books && books[abv].url == reqs[i].url
  {
    hide Final, Responses, CountedOn;
    if k == i + 1 {
    } else {
      StaysBooked(dao, narrow, cfg, start, reqs, i, k - 1, abv);
    }
  }

  /** A link leads to its URL from the add that issued it until it is deleted. */
  lemma LinkLastsUntilItsDelete<S>(dao: Dao<S>, narrow: A.Narrowing, cfg: Config, start: Sys<S>, reqs: seq<Request>,
                                   i: nat, k: nat, abv: string)
    requires i < k < |reqs| && FollowsHistory(dao, narrow, cfg, start, reqs, k)
    requires FollowsHistory(dao, narrow, cfg, start, reqs, i)
    requires reqs[i].Add? && Responses(dao, cfg, start, reqs)[i] == Link(abv)
    requires forall j | i < j < k && reqs[j].Delete? :: reqs[j].abv != abv
    requires reqs[k].Get? && reqs[k].abv == abv
    ensures Responses(dao, cfg, start, reqs)[k] in {Redirect(reqs[i].url), NoReply}
  {
    StaysBooked(dao, narrow, cfg, start, reqs, i, k, abv);
  }

  lemma {:induction false} StaysUnbooked<S>(dao: Dao<S>, cfg: Config, start: Sys<S>, reqs: seq<Request>,
                                            i: nat, k: nat, abv: string)
    requires i < k <= |reqs| && reqs[i].Delete? && reqs[i].abv == abv
    requires forall j | i < j < k :: Responses(dao, cfg, start, reqs)[j] != Link(abv)
    ensures abv !in BooksBefore(dao, cfg, start, reqs, k)
  {
    hide Final, Responses, CountedOn;
    if k == i + 1 {
    } else {
      StaysUnbooked(dao, cfg, start, reqs, i, k - 1, abv);
    }
  }

  /** A deleted link is not found, and has no statistics, until an add is given it again. */
  lemma DeletedLinkStaysAway<S>(dao: Dao<S>, narrow: A.Narrowing, cfg: Config, start: Sys<S>, reqs: seq<Request>,
                                i: nat, k: nat, abv: string)
    requires i < k < |reqs| && FollowsHistory(dao, narrow, cfg, start, reqs, k)
    requires reqs[i].Delete? && reqs[i].abv == abv
    requires forall j | i < j < k :: Responses(dao, cfg, start, reqs)[j] != Link(abv)
    requires (reqs[k].Get? || reqs[k].GetStats?) && reqs[k].abv == abv
    ensures Responses(dao, cfg, start, reqs)[k] in {NotFound, NoReply}
  {
    StaysUnbooked(dao, cfg, start, reqs, i, k, abv);
  }
}

/** The request protocol of handlers/handlers.go over any store: what each request does to the
    store and to the generator, and how it is answered. Requests run one after another, and
    outstanding hit updates run before the next request starts. */
module Protocol {
  import opened Model
  import opened ShortUrlDao
  import opened Generator

  /** `valid` is the outcome of parsing the URL. */
  datatype Request =
    | Add(url: string, valid: bool, date: Date)
    | Get(abv: string, date: Date)
    | GetStats(abv: string, date: Date)
    | Delete(abv: string, date: Date)

  datatype Response =
    | BadRequest | NotFound | ServerError | NoReply
    | Link(abv: string) | Redirect(url: string) | Shown(stats: Stats) | Deleted

  /** `halted`: a creation has not returned. A sequential run then gets no further; the store is
      the one that this creation has left, the key size and the source position, which it goes
      on changing, those that it met. */
  datatype Sys<S> = Sys(store: S, size: int, pos: nat, halted: bool)

  function Start<S>(store: S, size: int, pos: nat): Sys<S> {
    Sys(store, size, pos, false)
  }

  ghost function HandleGet<S>(dao: Dao<S>, sys: Sys<S>, abv: string, date: Date): (Sys<S>, Response) {
    var (store, u) := dao.getUrl(sys.store, abv, date);
    (sys.(store := store), if u == "" then NotFound else Redirect(u))
  }

  ghost function HandleStats<S>(dao: Dao<S>, sys: Sys<S>, abv: string): (Sys<S>, Response) {
    match dao.getStats(sys.store, abv)
    case Failed => (sys, ServerError)
    case Ok(stats) => (sys, if stats.abv == "" then NotFound else Shown(stats))
  }

  ghost function HandleDelete<S>(dao: Dao<S>, sys: Sys<S>, abv: string): (Sys<S>, Response) {
    (sys.(store := dao.deleteAbv(sys.store, abv)), Deleted)
  }

  /** An add request gets as far as CreateAbbreviation. */
  ghost predicate ReachesCreation<S>(dao: Dao<S>, sys: Sys<S>, url: string, valid: bool) {
    url != "" && valid && dao.getAbv(sys.store, url) == ""
  }

  /** The call that an add request makes. */
  function CallOf<S>(cfg: Config, sys: Sys<S>, url: string, date: Date): Call<S> {
    Call(cfg, sys.store, sys.size, sys.pos, url, date)
  }

  /** Each randString call that an add request makes returns. */
  ghost predicate AddReturns<S>(dao: Dao<S>, cfg: Config, sys: Sys<S>, url: string, valid: bool, date: Date) {
    ReachesCreation(dao, sys, url, valid) ==> CallsReturn(dao, CallOf(cfg, sys, url, date))
  }

  ghost function HandleAdd<S>(dao: Dao<S>, cfg: Config, sys: Sys<S>, url: string, valid: bool, date: Date)
    : (Sys<S>, Response)
  {
    if url == "" || !valid then (sys, BadRequest)
    else if dao.getAbv(sys.store, url) != "" then (sys, Link(dao.getAbv(sys.store, url)))
    else
      match CreateAbbreviation(dao, CallOf(cfg, sys, url, date))
      case Stuck(store, _) => (sys.(store := store, halted := true), NoReply)
      case Returned(p, _) =>
        var (store, ok) := dao.save(p.store, p.abv, url);
        (Sys(store, p.size, p.pos, sys.halted), if ok then Link(p.abv) else ServerError)
  }

  ghost function Respond<S>(dao: Dao<S>, cfg: Config, sys: Sys<S>, req: Request): (Sys<S>, Response) {
    match req
    case Add(url, valid, date) => HandleAdd(dao, cfg, sys, url, valid, date)
    case Get(abv, date) => HandleGet(dao, sys, abv, date)
    case GetStats(abv, _) => HandleStats(dao, sys, abv)
    case Delete(abv, _) => HandleDelete(dao, sys, abv)
  }

  /** One request, followed by the hit updates it has left outstanding. */
  ghost function Handle<S>(dao: Dao<S>, cfg: Config, sys: Sys<S>, req: Request): (Sys<S>, Response) {
    if sys.halted then (sys, NoReply)
    else
      var (sys', response) := Respond(dao, cfg, sys, req);
      (sys'.(store := dao.settle(sys'.store, req.date)), response)
  }

  ghost function Final<S>(dao: Dao<S>, cfg: Config, sys: Sys<S>, reqs: seq<Request>): Sys<S> {
    if reqs == [] then sys
    else Handle(dao, cfg, Final(dao, cfg, sys, reqs[..|reqs| - 1]), reqs[|reqs| - 1]).0
  }

  ghost function Responses<S>(dao: Dao<S>, cfg: Config, sys: Sys<S>, reqs: seq<Request>): seq<Response> {
    seq(|reqs|, i requires 0 <= i < |reqs| => Handle(dao, cfg, Final(dao, cfg, sys, reqs[..i]), reqs[i]).1)
  }

  /** Each randString call that the run makes returns. */
  ghost predicate RunReturns<S>(dao: Dao<S>, cfg: Config, sys: Sys<S>, reqs: seq<Request>) {
    forall i | 0 <= i < |reqs| && reqs[i].Add? ::
      AddReturns(dao, cfg, Final(dao, cfg, sys, reqs[..i]), reqs[i].url, reqs[i].valid, reqs[i].date)
  }

  /** The iterations of CreateAbbreviation that a request costs. */
  ghost function Collisions<S>(dao: Dao<S>, cfg: Config, sys: Sys<S>, req: Request): nat {
    if !sys.halted && req.Add? && ReachesCreation(dao, sys, req.url, req.valid)
    then CreateAbbreviation(dao, CallOf(cfg, sys, req.url, req.date)).collisions
    else 0
  }
}

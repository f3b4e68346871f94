/** The store interface of dao/shorturldao.go, as seen by the handlers and the generator. */
module ShortUrlDao {
  import opened Model

  datatype Reply<+T> = Ok(value: T) | Failed

  /** One store with states of type S. `getUrl` is the lookup that also counts a hit; `save`
      reports whether it returned a nil error; `settle` lets every outstanding background
      update of hit counters run, on the given day. */
  datatype Dao<!S> = Dao(
    getUrl: (S, string, Date) -> (S, string),
    getAbv: (S, string) -> string,
    getStats: (S, string) -> Reply<Stats>,
    save: (S, string, string) -> (S, bool),
    deleteAbv: (S, string) -> S,
    settle: (S, Date) -> S)
}

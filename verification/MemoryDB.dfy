/** The in-memory store (dao/memorydb.go): two Go maps whose entries are shared records. */
module MemoryDB {
  import opened Model
  import MemoryState

  /** The Go map held in a record's DailyHits field: copying the record does not copy it. */
  class DailyHits {
    var counts: map<Date, nat>

    constructor ()
      ensures counts == map[]
    {
      counts := map[];
    }
  }

  class ShortUrl {
    const abbreviation: string
    const url: string
    const dailyHits: DailyHits
    var hits: int

    constructor (abbreviation: string, url: string)
      ensures this.abbreviation == abbreviation && this.url == url && hits == 0
      ensures fresh(dailyHits) && dailyHits.counts == map[]
    {
      this.abbreviation := abbreviation;
      this.url := url;
      this.dailyHits := new DailyHits();
      this.hits := 0;
    }

    ghost function Value(): MemoryState.Record
      reads this, dailyHits
    {
      MemoryState.Record(abbreviation, url, hits, dailyHits.counts)
    }

    method Hit(date: Date)
      modifies `hits, dailyHits
      ensures Value() == MemoryState.Credit(old(Value()), date)
    {
      hits := Wrap32(hits + 1);
      dailyHits.counts := AddHits(dailyHits.counts, date, 1);
    }
  }

  /** What GetStats hands out: the fields of the record, but its own DailyHits map. */
  datatype StatsCopy = StatsCopy(abv: string, url: string, hits: int, daily: DailyHits?)

  class MemoryDB {
    var urlNdxMap: map<string, ShortUrl>
    var abvNdxMap: map<string, ShortUrl>
    ghost var state: MemoryState.Mem
    ghost var records: seq<ShortUrl>
    ghost var Repr: set<object>

    ghost predicate Valid()
      reads this, Repr
    {
      && this in Repr
      && |records| == |state.heap|
      && (forall i | 0 <= i < |records| ::
            && records[i] in Repr && records[i].dailyHits in Repr
            && records[i].Value() == state.heap[i])
      && (forall i, j | 0 <= i < j < |records| ::
            records[i] != records[j] && records[i].dailyHits != records[j].dailyHits)
      && urlNdxMap.Keys == state.urlNdx.Keys
      && (forall u | u in urlNdxMap :: urlNdxMap[u] == records[state.urlNdx[u]])
      && abvNdxMap.Keys == state.abvNdx.Keys
      && (forall a | a in abvNdxMap :: abvNdxMap[a] == records[state.abvNdx[a]])
    }

    constructor ()
      ensures Valid() && fresh(Repr) && state == MemoryState.EMPTY
    {
      urlNdxMap, abvNdxMap := map[], map[];
      state, records, Repr := MemoryState.EMPTY, [], {this};
    }

    method Save(abv: string, url: string)
      requires Valid()
      modifies this
      ensures Valid() && fresh(Repr - old(Repr))
      ensures state == MemoryState.Save(old(state), abv, url)
    {
      var su := new ShortUrl(abv, url);
      urlNdxMap := urlNdxMap[url := su];
      abvNdxMap := abvNdxMap[abv := su];
      state := MemoryState.Save(state, abv, url);
      records := records + [su];
      Repr := Repr + {su, su.dailyHits};
    }

    method DeleteAbv(abv: string)
      requires Valid()
      modifies this
      ensures Valid() && Repr == old(Repr)
      ensures state == MemoryState.DeleteAbv(old(state), abv)
    {
      if abv in abvNdxMap {
        var su := abvNdxMap[abv];
        state := MemoryState.DeleteAbv(state, abv);
        urlNdxMap := urlNdxMap - {su.url};
        abvNdxMap := abvNdxMap - {abv};
      }
    }

    method DeleteUrl(url: string)
      requires Valid()
      modifies this
      ensures Valid() && Repr == old(Repr)
      ensures state == MemoryState.DeleteUrl(old(state), url)
    {
      if url in urlNdxMap {
        var su := urlNdxMap[url];
        state := MemoryState.DeleteUrl(state, url);
        abvNdxMap := abvNdxMap - {su.abbreviation};
        urlNdxMap := urlNdxMap - {url};
      }
    }

    method GetUrl(abv: string, date: Date) returns (url: string)
      requires Valid()
      modifies Repr
      ensures Valid() && Repr == old(Repr)
      ensures (state, url) == MemoryState.GetUrl(old(state), abv, date)
    {
      hide MemoryState.Credit;
      if abv in abvNdxMap && |abvNdxMap[abv].url| > 0 {
        var su := abvNdxMap[abv];
        ghost var id := state.abvNdx[abv];
        su.Hit(date);
        assert forall i | 0 <= i < |records| && i != id ::
            records[i] != su && records[i].dailyHits != su.dailyHits && records[i].Value() == old(records[i].Value());
        state := MemoryState.GetUrl(state, abv, date).0;
        return su.url;
      }
      return "";
    }

    method GetAbv(url: string) returns (abv: string)
      requires Valid()
      ensures abv == MemoryState.GetAbv(state, url)
    {
      if url in urlNdxMap {
        return urlNdxMap[url].abbreviation;
      }
      return "";
    }

    method GetStats(abv: string) returns (copy: StatsCopy)
      requires Valid()
      ensures abv in state.abvNdx ==>
                && copy.daily == records[state.abvNdx[abv]].dailyHits
                && Stats(copy.abv, copy.url, copy.hits, copy.daily.counts) == MemoryState.GetStats(state, abv)
      ensures abv !in state.abvNdx ==> copy == StatsCopy("", "", 0, null)
    {
      if abv in abvNdxMap {
        var su := abvNdxMap[abv];
        return StatsCopy(su.abbreviation, su.url, su.hits, su.dailyHits);
      }
      return StatsCopy("", "", 0, null);
    }
  }
}

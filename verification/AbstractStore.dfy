/** The one store that all the databases represent: a partial one-to-one map between
    abbreviations and URLs, with hit counts. */
module AbstractStore {
  import opened Model
  import opened ShortUrlDao
  import opened Generator

  datatype Entry = Entry(url: string, hits: nat, daily: map<Date, nat>)

  type Store = map<string, Entry>

  ghost predicate HasUrl(st: Store, url: string) {
    exists a | a in st :: st[a].url == url
  }

  ghost predicate OneToOne(st: Store) {
    && (forall a | a in st :: a != "" && st[a].url != "")
    && (forall a, b | a in st && b in st && st[a].url == st[b].url :: a == b)
  }

  function UrlOf(st: Store, abv: string): string {
    if abv in st then st[abv].url else ""
  }

  ghost function AbvOf(st: Store, url: string): string {
    if HasUrl(st, url) then
      var a :| a in st && st[a].url == url;
      a
    else ""
  }

  function Credit(e: Entry, date: Date): Entry {
    e.(hits := e.hits + 1, daily := AddHits(e.daily, date, 1))
  }

  function GetUrl(st: Store, abv: string, date: Date): (Store, string) {
    (if abv in st then st[abv := Credit(st[abv], date)] else st, UrlOf(st, abv))
  }

  function Save(st: Store, abv: string, url: string): Store {
    st[abv := Entry(url, 0, map[])]
  }

  /** How a database reports a hit total in the int32 field of a ShortUrl. */
  type Narrowing = nat -> Reply<int>

  function StatsOf(narrow: Narrowing, st: Store, abv: string): Reply<Stats> {
    if abv !in st then Ok(NO_STATS)
    else
      match narrow(st[abv].hits)
      case Failed => Failed
      case Ok(h) => Ok(Stats(abv, st[abv].url, h, st[abv].daily))
  }

  ghost function AbstractDao(narrow: Narrowing): Dao<Store> {
    Dao(GetUrl, (st: Store, u: string) => AbvOf(st, u), (st: Store, a: string) => StatsOf(narrow, st, a),
        (st: Store, a: string, u: string) => (Save(st, a, u), true),
        (st: Store, a: string) => st - {a}, (st: Store, d: Date) => st)
  }

  // A creation on the abstract store.

  function Urls(st: Store): map<string, string> {
    map a | a in st :: st[a].url
  }

  function ResolveIn(urls: map<string, string>, abv: string): string {
    if abv in urls then urls[abv] else ""
  }

  /** All hits of entries with a URL, the ones that a lookup reports as found. */
  ghost function TotalHits(st: Store): nat {
    Sum(map a | a in st && st[a].url != "" :: st[a].hits)
  }

  lemma CreditCountsOnce(st: Store, abv: string, date: Date)
    ensures var (st', url) := GetUrl(st, abv, date);
            Urls(st') == Urls(st) && url == ResolveIn(Urls(st), abv) && TotalHits(st') == TotalHits(st) + Counted(url)
  {
    var st' := GetUrl(st, abv, date).0;
    var counts := map a | a in st && st[a].url != "" :: st[a].hits;
    var counts' := map a | a in st' && st'[a].url != "" :: st'[a].hits;
    if abv in st && st[abv].url != "" {
      assert counts' == AddHits(counts, abv, 1);
      SumAddHits(counts, abv, 1);
    } else {
      assert counts' == counts;
    }
  }

  lemma AbstractOnlyCounts(narrow: Narrowing)
    ensures LookupsOnlyCount(AbstractDao(narrow), Urls, ResolveIn, TotalHits)
  {
    forall st: Store, abv: string, date: Date
      ensures var (st', url) := AbstractDao(narrow).getUrl(st, abv, date);
              Urls(st') == Urls(st) && url == ResolveIn(Urls(st), abv) && TotalHits(st') == TotalHits(st) + Counted(url)
    {
      CreditCountsOnce(st, abv, date);
    }
  }

  lemma GetAbvFinds(st: Store, url: string)
    requires OneToOne(st)
    ensures AbvOf(st, url) != "" <==> HasUrl(st, url)
    ensures forall a | a in st && st[a].url == url :: AbvOf(st, url) == a
  {
  }

  lemma CreditKeepsOneToOne(st: Store, abv: string, date: Date)
    requires OneToOne(st)
    ensures OneToOne(GetUrl(st, abv, date).0)
    ensures forall url :: HasUrl(GetUrl(st, abv, date).0, url) <==> HasUrl(st, url)
  {
    var st' := GetUrl(st, abv, date).0;
    forall url
      ensures HasUrl(st', url) <==> HasUrl(st, url)
    {
      if HasUrl(st, url) {
        var a :| a in st && st[a].url == url;
        assert a in st' && st'[a].url == url;
      }
      if HasUrl(st', url) {
        var a :| a in st' && st'[a].url == url;
        assert a in st && st[a].url == url;
      }
    }
  }

  lemma SaveKeepsOneToOne(st: Store, abv: string, url: string)
    requires OneToOne(st) && abv !in st && !HasUrl(st, url) && abv != "" && url != ""
    ensures OneToOne(Save(st, abv, url))
  {
  }
}

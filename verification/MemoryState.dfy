/** The in-memory store of dao/memorydb.go as a value: what each operation does to the two
    indexes and to the records they share, and what whole call sequences keep. */
module MemoryState {
  import opened Model
  import opened ShortUrlDao

  // Records are numbered in the order in which they were allocated; a record that neither
  // index reaches any more keeps its number.

  datatype Record = Record(abv: string, url: string, hits: int, daily: map<Date, nat>)

  datatype MemState = MemState(urlNdx: map<string, nat>, abvNdx: map<string, nat>, heap: seq<Record>)

  predicate WellIndexed(m: MemState) {
    && (forall a | a in m.abvNdx :: m.abvNdx[a] < |m.heap|)
    && (forall u | u in m.urlNdx :: m.urlNdx[u] < |m.heap|)
  }

  type Mem = m: MemState | WellIndexed(m) witness EMPTY

  const EMPTY := MemState(map[], map[], [])

  function Save(m: Mem, abv: string, url: string): Mem {
    MemState(m.urlNdx[url := |m.heap|], m.abvNdx[abv := |m.heap|], m.heap + [Record(abv, url, 0, map[])])
  }

  function DeleteAbv(m: Mem, abv: string): Mem {
    if abv in m.abvNdx then
      MemState(m.urlNdx - {m.heap[m.abvNdx[abv]].url}, m.abvNdx - {abv}, m.heap)
    else m
  }

  function DeleteUrl(m: Mem, url: string): Mem {
    if url in m.urlNdx then
      MemState(m.urlNdx - {url}, m.abvNdx - {m.heap[m.urlNdx[url]].abv}, m.heap)
    else m
  }

  /** GetUrl found a record with a non-empty URL, so it counts a hit. */
  predicate Hits(m: Mem, abv: string) {
    abv in m.abvNdx && m.heap[m.abvNdx[abv]].url != ""
  }

  function Credit(r: Record, date: Date): Record {
    r.(hits := Wrap32(r.hits + 1), daily := AddHits(r.daily, date, 1))
  }

  function GetUrl(m: Mem, abv: string, date: Date): (Mem, string) {
    if Hits(m, abv) then
      var id := m.abvNdx[abv];
      (m.(heap := m.heap[id := Credit(m.heap[id], date)]), m.heap[id].url)
    else (m, "")
  }

  function GetAbv(m: Mem, url: string): string {
    if url in m.urlNdx then m.heap[m.urlNdx[url]].abv else ""
  }

  function GetStats(m: Mem, abv: string): Stats {
    if abv in m.abvNdx then
      var r := m.heap[m.abvNdx[abv]];
      Stats(r.abv, r.url, r.hits, r.daily)
    else NO_STATS
  }

  /** Hits are counted on the spot, so there is never anything to settle. */
  function MemDao(): Dao<Mem> {
    Dao(GetUrl, GetAbv, (m: Mem, a: string) => Ok(GetStats(m, a)),
        (m: Mem, a: string, u: string) => (Save(m, a, u), true), DeleteAbv, (m: Mem, d: Date) => m)
  }

  // Pairing of the two indexes.

  /** The indexes are exact inverses over shared records. */
  ghost predicate Paired(m: Mem) {
    && (forall a | a in m.abvNdx ::
          var r := m.heap[m.abvNdx[a]];
          r.abv == a && r.url in m.urlNdx && m.urlNdx[r.url] == m.abvNdx[a])
    && (forall u | u in m.urlNdx ::
          var r := m.heap[m.urlNdx[u]];
          r.url == u && r.abv in m.abvNdx && m.abvNdx[r.abv] == m.urlNdx[u])
  }

  /** Every indexed record carries the key it is stored under. */
  ghost predicate Agrees(m: Mem) {
    && (forall a | a in m.abvNdx :: m.heap[m.abvNdx[a]].abv == a)
    && (forall u | u in m.urlNdx :: m.heap[m.urlNdx[u]].url == u)
  }

  /** Save overwrites blindly: it keeps the indexes paired exactly when both keys are free or
      already belong together. */
  lemma SaveKeepsPairing(m: Mem, abv: string, url: string)
    requires Paired(m)
    ensures Paired(Save(m, abv, url)) <==>
            || (abv !in m.abvNdx && url !in m.urlNdx)
            || (abv in m.abvNdx && url in m.urlNdx && m.abvNdx[abv] == m.urlNdx[url])
  {
    var m' := Save(m, abv, url);
    if abv in m.abvNdx && (url !in m.urlNdx || m.abvNdx[abv] != m.urlNdx[url]) {
      var u := m.heap[m.abvNdx[abv]].url;
      assert u != url && u in m'.urlNdx && m'.heap[m'.urlNdx[u]].abv == abv;
      assert m'.abvNdx[abv] != m'.urlNdx[u];
    } else if abv !in m.abvNdx && url in m.urlNdx {
      var a := m.heap[m.urlNdx[url]].abv;
      assert a != abv && a in m'.abvNdx && m'.heap[m'.abvNdx[a]].url == url;
      assert m'.urlNdx[url] != m'.abvNdx[a];
    }
  }

  lemma DeletesAndLookupsKeepPairing(m: Mem, key: string, date: Date)
    requires Paired(m)
    ensures Paired(DeleteAbv(m, key)) && Paired(DeleteUrl(m, key)) && Paired(GetUrl(m, key, date).0)
  {
  }

  /** Deleting by a key that is not stored changes nothing; by one that is, whatever is stored
      beside it, exactly that key and its record's other key go. */
  lemma DeletesAreLocal(m: Mem, key: string, a: string, u: string)
    ensures key !in m.abvNdx ==> DeleteAbv(m, key) == m
    ensures key !in m.urlNdx ==> DeleteUrl(m, key) == m
    ensures DeleteAbv(m, key).heap == m.heap == DeleteUrl(m, key).heap
    ensures key in m.abvNdx ==>
              var url := m.heap[m.abvNdx[key]].url;
              && (a in DeleteAbv(m, key).abvNdx <==> a in m.abvNdx && a != key)
              && (u in DeleteAbv(m, key).urlNdx <==> u in m.urlNdx && u != url)
    ensures key in m.urlNdx ==>
              var abv := m.heap[m.urlNdx[key]].abv;
              && (a in DeleteUrl(m, key).abvNdx <==> a in m.abvNdx && a != abv)
              && (u in DeleteUrl(m, key).urlNdx <==> u in m.urlNdx && u != key)
    ensures a in DeleteAbv(m, key).abvNdx ==> DeleteAbv(m, key).abvNdx[a] == m.abvNdx[a]
    ensures a in DeleteUrl(m, key).abvNdx ==> DeleteUrl(m, key).abvNdx[a] == m.abvNdx[a]
  {
  }

  /** Deleting by either key of a pair has the same effect: exactly that pair disappears. */
  lemma DeletingEitherKeyIsTheSame(m: Mem, abv: string)
    requires Paired(m) && abv in m.abvNdx
    ensures var url := m.heap[m.abvNdx[abv]].url;
            var m' := DeleteAbv(m, abv);
            && m' == DeleteUrl(m, url)
            && m'.abvNdx == m.abvNdx - {abv} && m'.urlNdx == m.urlNdx - {url} && m'.heap == m.heap
  {
  }

  // Arbitrary call sequences.

  datatype Op =
    | OpSave(abv: string, url: string)
    | OpDeleteAbv(abv: string)
    | OpDeleteUrl(url: string)
    | OpGetUrl(abv: string, date: Date)

  function Do(m: Mem, op: Op): Mem {
    match op
    case OpSave(abv, url) => Save(m, abv, url)
    case OpDeleteAbv(abv) => DeleteAbv(m, abv)
    case OpDeleteUrl(url) => DeleteUrl(m, url)
    case OpGetUrl(abv, date) => GetUrl(m, abv, date).0
  }

  function DoAll(m: Mem, ops: seq<Op>): Mem {
    if ops == [] then m else Do(DoAll(m, ops[..|ops| - 1]), ops[|ops| - 1])
  }

  /** How many successful GetUrl calls among `ops` found record `id`. */
  function HitsOn(m: Mem, ops: seq<Op>, id: nat): nat {
    if ops == [] then 0
    else
      var before := DoAll(m, ops[..|ops| - 1]);
      var op := ops[|ops| - 1];
      HitsOn(m, ops[..|ops| - 1], id)
      + if op.OpGetUrl? && Hits(before, op.abv) && before.abvNdx[op.abv] == id then 1 else 0
  }

  ghost predicate CountersAgree(m: Mem) {
    forall i | 0 <= i < |m.heap| :: m.heap[i].hits == Wrap32(Sum(m.heap[i].daily))
  }

  lemma GetUrlKeepsCounters(m: Mem, abv: string, date: Date)
    requires CountersAgree(m)
    ensures CountersAgree(GetUrl(m, abv, date).0)
  {
    if Hits(m, abv) {
      var r := m.heap[m.abvNdx[abv]];
      SumAddHits(r.daily, date, 1);
      WrapStep(Sum(r.daily));
    }
  }

  /** Whatever is called, in whatever order: each index entry agrees with its record, and each
      record's int32 hit counter is the wrapped sum of its daily hits. */
  lemma {:induction false} EveryRunAgrees(ops: seq<Op>)
    ensures Agrees(DoAll(EMPTY, ops)) && CountersAgree(DoAll(EMPTY, ops))
  {
    if ops == [] {
    } else {
      EveryRunAgrees(ops[..|ops| - 1]);
      var m := DoAll(EMPTY, ops[..|ops| - 1]);
      var op := ops[|ops| - 1];
      if op.OpGetUrl? {
        GetUrlKeepsCounters(m, op.abv, op.date);
      }
    }
  }

  /** A record keeps its identity, and its daily hits grow by one per successful lookup of it,
      whether or not it is still indexed. */
  lemma {:induction false} RecordsOnlyAccumulate(m: Mem, ops: seq<Op>, id: nat)
    requires id < |m.heap|
    ensures var m' := DoAll(m, ops);
            && id < |m'.heap|
            && m'.heap[id].abv == m.heap[id].abv && m'.heap[id].url == m.heap[id].url
            && Sum(m'.heap[id].daily) == Sum(m.heap[id].daily) + HitsOn(m, ops, id)
  {
    if ops == [] {
    } else {
      RecordsOnlyAccumulate(m, ops[..|ops| - 1], id);
      var before := DoAll(m, ops[..|ops| - 1]);
      var op := ops[|ops| - 1];
      if op.OpGetUrl? {
        SumAddHits(before.heap[id].daily, op.date, 1);
      }
    }
  }

  lemma {:induction false} UnreadRecordsStayAsTheyAre(m: Mem, ops: seq<Op>, id: nat)
    requires id < |m.heap| && HitsOn(m, ops, id) == 0
    ensures id < |DoAll(m, ops).heap| && DoAll(m, ops).heap[id] == m.heap[id]
  {
    if ops == [] {
    } else {
      UnreadRecordsStayAsTheyAre(m, ops[..|ops| - 1], id);
    }
  }

  /** A GetStats result copies the hit counter but shares the daily map: after further calls the
      copied counter is behind the shared map by the lookups made since, and the map is still
      the one that GetStats saw if and only if there were none. */
  lemma CopiedStatsDrift(earlier: seq<Op>, m: Mem, abv: string, later: seq<Op>)
    requires m == DoAll(EMPTY, earlier) && abv in m.abvNdx
    ensures var id, m' := m.abvNdx[abv], DoAll(m, later);
            && id < |m'.heap|
            && GetStats(m, abv).hits == Wrap32(Sum(m'.heap[id].daily) - HitsOn(m, later, id))
            && (m'.heap[id].daily == GetStats(m, abv).daily <==> HitsOn(m, later, id) == 0)
  {
    hide DoAll, HitsOn, Agrees;
    EveryRunAgrees(earlier);
    RecordsOnlyAccumulate(m, later, m.abvNdx[abv]);
    if HitsOn(m, later, m.abvNdx[abv]) == 0 {
      UnreadRecordsStayAsTheyAre(m, later, m.abvNdx[abv]);
    }
  }

  /** One later redirect is enough: it writes into the daily hits of a copy already handed out. */
  lemma OneLookupReachesTheCopy(m: Mem, abv: string, date: Date)
    requires Hits(m, abv)
    ensures var id, ops, m' := m.abvNdx[abv], [OpGetUrl(abv, date)], GetUrl(m, abv, date).0;
            && DoAll(m, ops) == m' && HitsOn(m, ops, id) == 1
            && m'.heap[id].daily == AddHits(GetStats(m, abv).daily, date, 1) != GetStats(m, abv).daily
  {
    var ops := [OpGetUrl(abv, date)];
    assert ops[..|ops| - 1] == [];
    SumAddHits(GetStats(m, abv).daily, date, 1);
    assert HitsOn(m, [], m.abvNdx[abv]) == 0;
  }
}

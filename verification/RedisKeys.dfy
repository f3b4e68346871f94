/** The Redis store (dao/redisdb.go) as one flat key space: the commands it issues, the three key
    prefixes, and the transactions that its operations queue. */
module RedisKeys {
  import opened Model
  import opened ShortUrlDao

  /** A hash field: text, or a counter in decimal notation. */
  datatype Field = Text(s: string) | Num(n: nat)

  datatype Value = Hash(fields: map<string, Field>) | Str(s: string)

  type Keys = map<string, Value>

  const ABV_PREFIX := "shorturl:abv:"
  const URL_PREFIX := "shorturl:url:"
  const DAILY_PREFIX := "shorturl:daily:"

  function AbvKey(abv: string): string { ABV_PREFIX + abv }
  function UrlKey(url: string): string { URL_PREFIX + url }
  function DailyKey(abv: string): string { DAILY_PREFIX + abv }

  /** The three encodings are injective and have no key in common. */
  lemma KeysAreSeparate(a: string, b: string)
    ensures AbvKey(a) == AbvKey(b) <==> a == b
    ensures UrlKey(a) == UrlKey(b) <==> a == b
    ensures DailyKey(a) == DailyKey(b) <==> a == b
    ensures AbvKey(a) != UrlKey(b) && AbvKey(a) != DailyKey(b) && UrlKey(a) != DailyKey(b)
  {
    assert AbvKey(a)[|ABV_PREFIX|..] == a && AbvKey(b)[|ABV_PREFIX|..] == b;
    assert UrlKey(a)[|URL_PREFIX|..] == a && UrlKey(b)[|URL_PREFIX|..] == b;
    assert DailyKey(a)[|DAILY_PREFIX|..] == a && DailyKey(b)[|DAILY_PREFIX|..] == b;
    assert AbvKey(a)[9] == 'a' && UrlKey(a)[9] == UrlKey(b)[9] == 'u' && DailyKey(b)[9] == 'd';
  }

  // Commands. A command on a value of the wrong type is refused and changes nothing.

  datatype Answer<T> = Nil | Found(value: T) | WrongType

  function HGet(ks: Keys, key: string, field: string): Answer<Field> {
    if key !in ks then Nil
    else if ks[key].Str? then WrongType
    else if field in ks[key].fields then Found(ks[key].fields[field]) else Nil
  }

  function Get(ks: Keys, key: string): Answer<string> {
    if key !in ks then Nil else if ks[key].Hash? then WrongType else Found(ks[key].s)
  }

  function HGetAll(ks: Keys, key: string): Answer<map<string, Field>> {
    if key !in ks then Found(map[]) else if ks[key].Str? then WrongType else Found(ks[key].fields)
  }

  function HSet(ks: Keys, key: string, field: string, v: Field): Keys {
    match HGetAll(ks, key)
    case Found(fields) => ks[key := Hash(fields[field := v])]
    case _ => ks
  }

  function HIncr(ks: Keys, key: string, field: string): Keys {
    match HGet(ks, key, field)
    case Nil => HSet(ks, key, field, Num(1))
    case Found(Num(n)) => HSet(ks, key, field, Num(n + 1))
    case _ => ks
  }

  // The transactions queued by Save, by the two deletes and by a background hit update.

  function StoreTx(ks: Keys, abv: string, url: string): Keys {
    var ks1 := HSet(ks, AbvKey(abv), "url", Text(url));
    var ks2 := HSet(ks1, AbvKey(abv), "hits", Num(0));
    ks2[UrlKey(url) := Str(abv)]
  }

  function EraseTx(ks: Keys, abv: string, url: string): Keys {
    ks - {AbvKey(abv), UrlKey(url), DailyKey(abv)}
  }

  /** `stamp` is the time written to last_access. */
  function HitTx(ks: Keys, abv: string, date: Date, stamp: string): Keys {
    var ks1 := HIncr(ks, AbvKey(abv), "hits");
    var ks2 := HSet(ks1, AbvKey(abv), "last_access", Text(stamp));
    HIncr(ks2, DailyKey(abv), date)
  }

  // What is stored for one abbreviation or URL.

  /** The url field, when there is one. */
  function UrlOf(ks: Keys, abv: string): Option<string> {
    match HGet(ks, AbvKey(abv), "url")
    case Found(Text(u)) => Some(u)
    case _ => None
  }

  function AbvOf(ks: Keys, url: string): Option<string> {
    match Get(ks, UrlKey(url))
    case Found(a) => Some(a)
    case _ => None
  }

  function HitsOf(ks: Keys, abv: string): nat {
    match HGet(ks, AbvKey(abv), "hits")
    case Found(Num(n)) => n
    case _ => 0
  }

  function Counts(fields: map<string, Field>): map<Date, nat> {
    map d | d in fields && fields[d].Num? :: fields[d].n
  }

  function DailyOf(ks: Keys, abv: string): map<Date, nat> {
    match HGetAll(ks, DailyKey(abv))
    case Found(fields) => Counts(fields)
    case _ => map[]
  }

  predicate TypedRecord(v: Value) {
    && v.Hash? && v.fields != map[]
    && ("url" in v.fields ==> v.fields["url"].Text?)
    && ("hits" in v.fields ==> v.fields["hits"].Num?)
  }

  predicate TypedDaily(v: Value) {
    v.Hash? && forall d | d in v.fields :: v.fields[d].Num?
  }

  /** Each key holds the kind of value that its prefix says. */
  ghost predicate Typed(ks: Keys) {
    && (forall a :: AbvKey(a) in ks ==> TypedRecord(ks[AbvKey(a)]))
    && (forall u :: UrlKey(u) in ks ==> ks[UrlKey(u)].Str?)
    && (forall a :: DailyKey(a) in ks ==> TypedDaily(ks[DailyKey(a)]))
  }

  /** strconv.ParseInt of a total into 32 bits, its range error ignored, returns the bound. */
  function Saturated(hits: nat): Reply<int> {
    Ok(if hits <= MAX_INT32 then hits else MAX_INT32)
  }

  function GetStats(ks: Keys, abv: string): Reply<Stats> {
    match HGetAll(ks, AbvKey(abv))
    case WrongType => Failed
    case Nil => Ok(NO_STATS)
    case Found(fields) =>
      if fields == map[] then Ok(NO_STATS)
      else
        var url := match UrlOf(ks, abv) case Some(u) => u case None => "";
        Ok(Stats(abv, url, Saturated(HitsOf(ks, abv)).value, DailyOf(ks, abv)))
  }

  // What the transactions do to each abbreviation and each URL.

  lemma EraseTxEffect(ks: Keys, abv: string, url: string, b: string)
    ensures var ks' := EraseTx(ks, abv, url);
            && UrlOf(ks', b) == (if b == abv then None else UrlOf(ks, b))
            && HitsOf(ks', b) == (if b == abv then 0 else HitsOf(ks, b))
            && DailyOf(ks', b) == (if b == abv then map[] else DailyOf(ks, b))
            && AbvOf(ks', b) == (if b == url then None else AbvOf(ks, b))
            && (AbvKey(b) in ks' <==> b != abv && AbvKey(b) in ks)
            && (DailyKey(b) in ks' <==> b != abv && DailyKey(b) in ks)
  {
    KeysAreSeparate(abv, b);
    KeysAreSeparate(b, abv);
    KeysAreSeparate(url, b);
    KeysAreSeparate(b, url);
  }

  /** The hash fields at a key; none when the key is missing. */
  function FieldsAt(ks: Keys, key: string): map<string, Field> {
    if key in ks && ks[key].Hash? then ks[key].fields else map[]
  }

  lemma StoreTxValues(ks: Keys, abv: string, url: string)
    requires Typed(ks)
    ensures var record := FieldsAt(ks, AbvKey(abv))["url" := Text(url)]["hits" := Num(0)];
            StoreTx(ks, abv, url) == ks[AbvKey(abv) := Hash(record)][UrlKey(url) := Str(abv)]
  {
    assert AbvKey(abv) in ks ==> TypedRecord(ks[AbvKey(abv)]);
  }

  lemma StoreTxEffect(ks: Keys, abv: string, url: string, b: string)
    requires Typed(ks)
    ensures var ks' := StoreTx(ks, abv, url);
            && UrlOf(ks', b) == (if b == abv then Some(url) else UrlOf(ks, b))
            && HitsOf(ks', b) == (if b == abv then 0 else HitsOf(ks, b))
            && DailyOf(ks', b) == DailyOf(ks, b)
            && AbvOf(ks', b) == (if b == url then Some(abv) else AbvOf(ks, b))
            && (AbvKey(b) in ks' <==> b == abv || AbvKey(b) in ks)
            && (DailyKey(b) in ks' <==> DailyKey(b) in ks)
  {
    KeysAreSeparate(abv, b);
    KeysAreSeparate(b, abv);
    KeysAreSeparate(url, b);
    KeysAreSeparate(abv, url);
    KeysAreSeparate(b, url);
    StoreTxValues(ks, abv, url);
    hide StoreTx, Typed, AbvKey, UrlKey, DailyKey;
    var ks' := StoreTx(ks, abv, url);
    if b == abv {
      assert HGet(ks', AbvKey(b), "url") == Found(Text(url)) && HGet(ks', AbvKey(b), "hits") == Found(Num(0));
    } else {
      assert HGet(ks', AbvKey(b), "url") == HGet(ks, AbvKey(b), "url");
      assert HGet(ks', AbvKey(b), "hits") == HGet(ks, AbvKey(b), "hits");
    }
    assert HGetAll(ks', DailyKey(b)) == HGetAll(ks, DailyKey(b));
    hide HGet, HGetAll, FieldsAt, Counts;
  }

  lemma HitTxValues(ks: Keys, abv: string, date: Date, stamp: string)
    requires Typed(ks)
    ensures var record := FieldsAt(ks, AbvKey(abv))["hits" := Num(HitsOf(ks, abv) + 1)]["last_access" := Text(stamp)];
            var day := FieldsAt(ks, DailyKey(abv))[date := Num(CountOn(DailyOf(ks, abv), date) + 1)];
            HitTx(ks, abv, date, stamp) == ks[AbvKey(abv) := Hash(record)][DailyKey(abv) := Hash(day)]
  {
    KeysAreSeparate(abv, abv);
    assert AbvKey(abv) in ks ==> TypedRecord(ks[AbvKey(abv)]);
    assert DailyKey(abv) in ks ==> TypedDaily(ks[DailyKey(abv)]);
    var ks1 := HIncr(ks, AbvKey(abv), "hits");
    assert ks1 == ks[AbvKey(abv) := Hash(FieldsAt(ks, AbvKey(abv))["hits" := Num(HitsOf(ks, abv) + 1)])];
    var ks2 := HSet(ks1, AbvKey(abv), "last_access", Text(stamp));
    assert HGet(ks2, DailyKey(abv), date) == HGet(ks, DailyKey(abv), date);
  }

  lemma CountsAddOne(fields: map<string, Field>, date: Date)
    requires forall d | d in fields :: fields[d].Num?
    ensures Counts(fields[date := Num(CountOn(Counts(fields), date) + 1)]) == AddHits(Counts(fields), date, 1)
  {
  }

  lemma RecordAfterHit(ks: Keys, ks': Keys, abv: string, stamp: string, record: map<string, Field>)
    requires AbvKey(abv) in ks ==> TypedRecord(ks[AbvKey(abv)])
    requires record == FieldsAt(ks, AbvKey(abv))["hits" := Num(HitsOf(ks, abv) + 1)]["last_access" := Text(stamp)]
    requires AbvKey(abv) in ks' && ks'[AbvKey(abv)] == Hash(record)
    ensures UrlOf(ks', abv) == UrlOf(ks, abv) && HitsOf(ks', abv) == HitsOf(ks, abv) + 1
  {
    hide AbvKey;
    assert record["hits"] == Num(HitsOf(ks, abv) + 1);
    assert "url" in record <==> "url" in FieldsAt(ks, AbvKey(abv));
  }

  lemma DailyAfterHit(ks: Keys, ks': Keys, abv: string, date: Date, day: map<string, Field>)
    requires DailyKey(abv) in ks ==> TypedDaily(ks[DailyKey(abv)])
    requires day == FieldsAt(ks, DailyKey(abv)) && DailyKey(abv) in ks'
    requires ks'[DailyKey(abv)] == Hash(day[date := Num(CountOn(DailyOf(ks, abv), date) + 1)])
    ensures DailyOf(ks', abv) == AddHits(DailyOf(ks, abv), date, 1)
  {
    hide DailyKey;
    assert Counts(map[]) == map[];
    assert DailyOf(ks, abv) == Counts(day);
    CountsAddOne(day, date);
  }

  lemma HitTxEffectHere(ks: Keys, abv: string, date: Date, stamp: string)
    requires Typed(ks)
    ensures var ks' := HitTx(ks, abv, date, stamp);
            && UrlOf(ks', abv) == UrlOf(ks, abv) && HitsOf(ks', abv) == HitsOf(ks, abv) + 1
            && DailyOf(ks', abv) == AddHits(DailyOf(ks, abv), date, 1)
            && AbvOf(ks', abv) == AbvOf(ks, abv)
            && AbvKey(abv) in ks' && DailyKey(abv) in ks'
  {
    HitTxValues(ks, abv, date, stamp);
    KeysAreSeparate(abv, abv);
    var record := FieldsAt(ks, AbvKey(abv))["hits" := Num(HitsOf(ks, abv) + 1)]["last_access" := Text(stamp)];
    var day := FieldsAt(ks, DailyKey(abv));
    assert AbvKey(abv) in ks ==> TypedRecord(ks[AbvKey(abv)]);
    assert DailyKey(abv) in ks ==> TypedDaily(ks[DailyKey(abv)]);
    hide HitTx, Typed, AbvKey, UrlKey, DailyKey;
    RecordAfterHit(ks, HitTx(ks, abv, date, stamp), abv, stamp, record);
    DailyAfterHit(ks, HitTx(ks, abv, date, stamp), abv, date, day);
  }

  lemma HitTxEffect(ks: Keys, abv: string, date: Date, stamp: string, b: string)
    requires Typed(ks)
    ensures var ks' := HitTx(ks, abv, date, stamp);
            && UrlOf(ks', b) == UrlOf(ks, b)
            && HitsOf(ks', b) == HitsOf(ks, b) + (if b == abv then 1 else 0)
            && DailyOf(ks', b) == AddHits(DailyOf(ks, b), date, if b == abv then 1 else 0)
            && AbvOf(ks', b) == AbvOf(ks, b)
            && (AbvKey(b) in ks' <==> b == abv || AbvKey(b) in ks)
            && (DailyKey(b) in ks' <==> b == abv || DailyKey(b) in ks)
  {
    HitTxValues(ks, abv, date, stamp);
    KeysAreSeparate(abv, b);
    KeysAreSeparate(b, abv);
    if b == abv {
      HitTxEffectHere(ks, abv, date, stamp);
    } else {
      hide HitTx, Typed, Counts, AbvKey, UrlKey, DailyKey;
      var ks' := HitTx(ks, abv, date, stamp);
      assert HGet(ks', AbvKey(b), "url") == HGet(ks, AbvKey(b), "url");
      assert HGet(ks', AbvKey(b), "hits") == HGet(ks, AbvKey(b), "hits");
      assert HGetAll(ks', DailyKey(b)) == HGetAll(ks, DailyKey(b));
    }
  }

  lemma StoreTxKeepsTypes(ks: Keys, abv: string, url: string)
    requires Typed(ks)
    ensures Typed(StoreTx(ks, abv, url))
  {
    var ks' := StoreTx(ks, abv, url);
    KeysAreSeparate(abv, url);
    StoreTxValues(ks, abv, url);
    assert AbvKey(abv) in ks ==> TypedRecord(ks[AbvKey(abv)]);
    var record := FieldsAt(ks, AbvKey(abv))["url" := Text(url)]["hits" := Num(0)];
    assert "hits" in record && TypedRecord(Hash(record));
    hide StoreTx, TypedRecord;
    forall b
      ensures AbvKey(b) in ks' ==> TypedRecord(ks'[AbvKey(b)])
      ensures UrlKey(b) in ks' ==> ks'[UrlKey(b)].Str?
      ensures DailyKey(b) in ks' ==> TypedDaily(ks'[DailyKey(b)])
    {
      KeysAreSeparate(abv, b);
      KeysAreSeparate(b, abv);
      KeysAreSeparate(b, url);
      KeysAreSeparate(url, b);
    }
  }

  lemma EraseTxKeepsTypes(ks: Keys, abv: string, url: string)
    requires Typed(ks)
    ensures Typed(EraseTx(ks, abv, url))
  {
  }

  lemma HitTxKeepsTypes(ks: Keys, abv: string, date: Date, stamp: string)
    requires Typed(ks)
    ensures Typed(HitTx(ks, abv, date, stamp))
  {
    var ks' := HitTx(ks, abv, date, stamp);
    HitTxValues(ks, abv, date, stamp);
    assert AbvKey(abv) in ks ==> TypedRecord(ks[AbvKey(abv)]);
    var record := FieldsAt(ks, AbvKey(abv))["hits" := Num(HitsOf(ks, abv) + 1)]["last_access" := Text(stamp)];
    assert "hits" in record && TypedRecord(Hash(record));
    hide HitTx, TypedRecord, HitsOf;
    forall b
      ensures AbvKey(b) in ks' ==> TypedRecord(ks'[AbvKey(b)])
      ensures UrlKey(b) in ks' ==> ks'[UrlKey(b)].Str?
      ensures DailyKey(b) in ks' ==> TypedDaily(ks'[DailyKey(b)])
    {
      KeysAreSeparate(abv, b);
      KeysAreSeparate(b, abv);
    }
  }
}

/** The two tables that dao/sqlitedb.go and dao/postgresdb.go share, and the effect of each of
    their statements. Every statement is atomic. */
module SqlTables {
  import opened Model
  import opened ShortUrlDao

  datatype Row = Row(abv: string, url: string, hits: nat)

  /** short_urls by id, and daily_hits by (short_url_id, hit_date), the pair it is unique on. */
  datatype Tables = Tables(rows: map<nat, Row>, daily: map<(nat, Date), nat>, nextId: nat)

  const EMPTY := Tables(map[], map[], 0)

  ghost predicate HasAbv(t: Tables, abv: string) {
    exists id | id in t.rows :: t.rows[id].abv == abv
  }

  ghost predicate HasUrl(t: Tables, url: string) {
    exists id | id in t.rows :: t.rows[id].url == url
  }

  /** Both columns are unique, no id is ahead of the sequence, and daily hits have a parent row. */
  ghost predicate Consistent(t: Tables) {
    && (forall id | id in t.rows :: id < t.nextId)
    && (forall i, j | i in t.rows && j in t.rows && t.rows[i].abv == t.rows[j].abv :: i == j)
    && (forall i, j | i in t.rows && j in t.rows && t.rows[i].url == t.rows[j].url :: i == j)
    && (forall k | k in t.daily :: k.0 in t.rows && t.daily[k] > 0)
  }

  ghost function IdOf(t: Tables, abv: string): Option<nat> {
    if HasAbv(t, abv) then
      var id :| id in t.rows && t.rows[id].abv == abv;
      Some(id)
    else None
  }

  ghost function UrlOf(t: Tables, abv: string): string {
    match IdOf(t, abv)
    case None => ""
    case Some(id) => if id in t.rows then t.rows[id].url else ""
  }

  ghost function AbvOf(t: Tables, url: string): string {
    if HasUrl(t, url) then
      var id :| id in t.rows && t.rows[id].url == url;
      t.rows[id].abv
    else ""
  }

  /** The rows of daily_hits for one id, as the map that GetStats builds. */
  function DailyOf(t: Tables, id: nat): map<Date, nat> {
    map k | k in t.daily && k.0 == id :: k.1 := t.daily[k]
  }

  /** A total that does not fit the int32 field makes the row scan fail. */
  function Scanned(hits: nat): Reply<int> {
    if hits <= MAX_INT32 then Ok(hits) else Failed
  }

  ghost function GetStats(t: Tables, abv: string): Reply<Stats> {
    match IdOf(t, abv)
    case None => Ok(NO_STATS)
    case Some(id) =>
      if id in t.rows && Scanned(t.rows[id].hits).Ok? then
        Ok(Stats(abv, t.rows[id].url, t.rows[id].hits, DailyOf(t, id)))
      else Failed
  }

  // Statements.

  /** INSERT ... ON CONFLICT (abbreviation) DO NOTHING. A conflict on the URL alone raises the
      unique-constraint error. `burns` says whether a refused insert uses up an id. */
  ghost function Insert(t: Tables, abv: string, url: string, burns: bool): Tables {
    if HasAbv(t, abv) || HasUrl(t, url) then t.(nextId := if burns then t.nextId + 1 else t.nextId)
    else t.(rows := t.rows[t.nextId := Row(abv, url, 0)], nextId := t.nextId + 1)
  }

  /** What Save returns, given the tables its INSERT met and those its later SELECT met: nil
      unless the abbreviation was taken and is found bound to another URL. */
  ghost predicate SaveReturnsNil(inserting: Tables, checking: Tables, abv: string, url: string) {
    HasAbv(inserting, abv) && HasAbv(checking, abv) ==> UrlOf(checking, abv) == url
  }

  /** DELETE FROM short_urls, with the cascade to daily_hits. */
  function DeleteRows(t: Tables, ids: set<nat>): Tables {
    t.(rows := t.rows - ids, daily := map k | k in t.daily && k.0 !in ids :: t.daily[k])
  }

  function RowsWithAbv(t: Tables, abv: string): set<nat> {
    set id | id in t.rows && t.rows[id].abv == abv
  }

  function RowsWithUrl(t: Tables, url: string): set<nat> {
    set id | id in t.rows && t.rows[id].url == url
  }

  function DeleteAbv(t: Tables, abv: string): Tables {
    DeleteRows(t, RowsWithAbv(t, abv))
  }

  function DeleteUrl(t: Tables, url: string): Tables {
    DeleteRows(t, RowsWithUrl(t, url))
  }

  /** UPDATE short_urls SET hits = hits + 1 WHERE id = ... */
  function UpdateHits(t: Tables, id: nat): Tables {
    if id in t.rows then t.(rows := t.rows[id := t.rows[id].(hits := t.rows[id].hits + 1)]) else t
  }

  /** INSERT INTO daily_hits ... ON CONFLICT DO UPDATE; refused without a parent row. */
  function UpsertDaily(t: Tables, id: nat, date: Date): Tables {
    if id in t.rows then t.(daily := AddHits(t.daily, (id, date), 1)) else t
  }

  // What the statements keep.

  lemma InsertKeepsConsistency(t: Tables, abv: string, url: string, burns: bool)
    requires Consistent(t)
    ensures Consistent(Insert(t, abv, url, burns)) && Insert(t, abv, url, burns).nextId >= t.nextId
  {
    if !HasAbv(t, abv) && !HasUrl(t, url) {
      assert t.nextId !in t.rows;
    }
  }

  lemma DeletesKeepConsistency(t: Tables, ids: set<nat>)
    requires Consistent(t)
    ensures Consistent(DeleteRows(t, ids)) && DeleteRows(t, ids).nextId == t.nextId
  {
  }

  lemma UpdatesKeepConsistency(t: Tables, id: nat, date: Date)
    requires Consistent(t)
    ensures Consistent(UpdateHits(t, id)) && Consistent(UpsertDaily(t, id, date))
    ensures UpdateHits(t, id).nextId == t.nextId == UpsertDaily(t, id, date).nextId
  {
  }

  lemma FoundIdIsLive(t: Tables, abv: string)
    requires Consistent(t)
    ensures IdOf(t, abv).Some? ==>
              var id := IdOf(t, abv).value;
              id in t.rows && t.rows[id].abv == abv && id < t.nextId
  {
  }

  lemma TheIdOf(t: Tables, id: nat)
    requires Consistent(t) && id in t.rows
    ensures IdOf(t, t.rows[id].abv) == Some(id)
    ensures UrlOf(t, t.rows[id].abv) == t.rows[id].url
    ensures AbvOf(t, t.rows[id].url) == t.rows[id].abv
  {
  }

  // What the statements do to the books of one row: its hits and its daily hits.

  ghost predicate SameAccount(t: Tables, t': Tables, id: nat) {
    && (id in t'.rows ==> id in t.rows && t'.rows[id].hits == t.rows[id].hits)
    && (id in t'.rows ==> DailyOf(t', id) == DailyOf(t, id))
  }

  lemma DailyIsLocal(t: Tables, t': Tables, id: nat)
    requires forall d: Date ::
               && ((id, d) in t.daily <==> (id, d) in t'.daily)
               && ((id, d) in t.daily ==> t.daily[(id, d)] == t'.daily[(id, d)])
    ensures DailyOf(t', id) == DailyOf(t, id)
  {
    var m, m' := DailyOf(t, id), DailyOf(t', id);
    forall d: Date
      ensures d in m <==> d in m'
      ensures d in m ==> m[d] == m'[d]
    {
      assert d in m <==> (id, d) in t.daily;
      assert d in m' <==> (id, d) in t'.daily;
    }
  }

  lemma InsertAccounts(t: Tables, abv: string, url: string, burns: bool, id: nat)
    requires Consistent(t)
    ensures var t' := Insert(t, abv, url, burns);
            if id in t'.rows && id !in t.rows
            then id == t.nextId && t'.rows[id].hits == 0 && DailyOf(t', id) == map[]
            else SameAccount(t, t', id)
  {
    var t' := Insert(t, abv, url, burns);
    DailyIsLocal(t, t', id);
    if id !in t.rows {
      assert forall d: Date :: (id, d) !in t.daily;
      assert DailyOf(t, id) == map[];
    }
  }

  lemma DeleteAccounts(t: Tables, ids: set<nat>, id: nat)
    ensures SameAccount(t, DeleteRows(t, ids), id)
  {
    var t' := DeleteRows(t, ids);
    if id in t'.rows {
      DailyIsLocal(t, t', id);
    }
  }

  lemma UpdateAccounts(t: Tables, other: nat, id: nat)
    ensures var t' := UpdateHits(t, other);
            && t'.rows.Keys == t.rows.Keys && DailyOf(t', id) == DailyOf(t, id)
            && (id in t.rows ==> t'.rows[id].hits == t.rows[id].hits + if id == other then 1 else 0)
  {
    DailyIsLocal(t, UpdateHits(t, other), id);
  }

  lemma UpsertAddsOne(t: Tables, id: nat, date: Date)
    requires id in t.rows
    ensures DailyOf(UpsertDaily(t, id, date), id) == AddHits(DailyOf(t, id), date, 1)
  {
    var t' := UpsertDaily(t, id, date);
    var m, m' := DailyOf(t, id), DailyOf(t', id);
    assert date in m <==> (id, date) in t.daily;
    forall d: Date
      ensures d in m' <==> d in AddHits(m, date, 1)
      ensures d in m' ==> m'[d] == AddHits(m, date, 1)[d]
    {
      assert d in m <==> (id, d) in t.daily;
      assert d in m' <==> (id, d) in t'.daily;
    }
  }

  lemma UpsertAccounts(t: Tables, other: nat, date: Date, id: nat)
    ensures var t' := UpsertDaily(t, other, date);
            && t'.rows == t.rows
            && (id in t.rows ==>
                  DailyOf(t', id) == AddHits(DailyOf(t, id), date, if id == other then 1 else 0))
  {
    var t' := UpsertDaily(t, other, date);
    if id != other {
      DailyIsLocal(t, t', id);
    } else if id in t.rows {
      UpsertAddsOne(t, id, date);
    }
  }

  // What the statements do to the identity of one row.

  ghost predicate SameRow(t: Tables, t': Tables, id: nat) {
    id in t.rows && id in t'.rows && t'.rows[id].abv == t.rows[id].abv && t'.rows[id].url == t.rows[id].url
  }

  lemma InsertKeepsRow(t: Tables, abv: string, url: string, burns: bool, id: nat)
    requires id < t.nextId
    ensures var t' := Insert(t, abv, url, burns);
            if id in t.rows then SameRow(t, t', id) else id !in t'.rows
  {
  }

  lemma DeleteKeepsRow(t: Tables, ids: set<nat>, id: nat)
    ensures var t' := DeleteRows(t, ids);
            if id in t.rows && id !in ids then SameRow(t, t', id) else id !in t'.rows
  {
  }

  lemma UpdateKeepsRow(t: Tables, other: nat, date: Date, id: nat)
    ensures var t' := UpdateHits(t, other); if id in t.rows then SameRow(t, t', id) else id !in t'.rows
    ensures UpsertDaily(t, other, date).rows == t.rows
  {
  }

  /** Deleting a stored pair by either column deletes the same single row, with its daily hits. */
  lemma DeletingEitherKeyIsTheSame(t: Tables, id: nat)
    requires Consistent(t) && id in t.rows
    ensures var t' := DeleteAbv(t, t.rows[id].abv);
            && t' == DeleteUrl(t, t.rows[id].url)
            && t'.rows == t.rows - {id} && DailyOf(t', id) == map[]
            && forall other | other != id :: DailyOf(t', other) == DailyOf(t, other)
  {
    assert RowsWithAbv(t, t.rows[id].abv) == {id} == RowsWithUrl(t, t.rows[id].url);
    var t' := DeleteAbv(t, t.rows[id].abv);
    assert forall d: Date :: (id, d) !in t'.daily;
    forall other | other != id
      ensures DailyOf(t', other) == DailyOf(t, other)
    {
      DailyIsLocal(t, t', other);
    }
  }

  // What a Save means for its caller.

  lemma RefusedInsertChangesNoUrl(t: Tables, abv: string, url: string, burns: bool)
    requires Consistent(t) && (HasAbv(t, abv) || HasUrl(t, url))
    ensures var t' := Insert(t, abv, url, burns);
            t'.rows == t.rows && (HasAbv(t', abv) <==> HasAbv(t, abv)) && UrlOf(t', abv) == UrlOf(t, abv)
  {
    InsertKeepsConsistency(t, abv, url, burns);
  }

  lemma StoredUnder(t: Tables, t': Tables, abv: string, url: string, burns: bool) returns (id: nat)
    requires Consistent(t) && Consistent(t') && t' == Insert(t, abv, url, burns)
    requires SaveReturnsNil(t, t', abv, url)
    ensures id in t'.rows && t'.rows[id].url == url
  {
    if HasAbv(t, abv) {
      assert HasAbv(t', abv);
      FoundIdIsLive(t', abv);
      id := IdOf(t', abv).value;
    } else if HasUrl(t, url) {
      id :| id in t.rows && t.rows[id].url == url;
    } else {
      id := t.nextId;
    }
  }

  /** SQLite runs the INSERT and the check under one lock. A nil return means that the URL is
      stored, under exactly one abbreviation, and an error that no row has changed; but that
      abbreviation is the caller's only if the insert was not dropped for the URL's sake. */
  lemma LockedSaveMeaning(t: Tables, abv: string, url: string, burns: bool)
    requires Consistent(t)
    ensures var t' := Insert(t, abv, url, burns);
            && (SaveReturnsNil(t, t', abv, url) ==> |RowsWithUrl(t', url)| == 1)
            && (!SaveReturnsNil(t, t', abv, url) ==>
                  t'.rows == t.rows && t'.daily == t.daily && HasAbv(t, abv) && UrlOf(t, abv) != url)
            && (SaveReturnsNil(t, t', abv, url) ==>
                  (UrlOf(t', abv) == url && HasAbv(t', abv) <==> HasAbv(t, abv) || !HasUrl(t, url)))
  {
    InsertKeepsConsistency(t, abv, url, burns);
    var t' := Insert(t, abv, url, burns);
    if SaveReturnsNil(t, t', abv, url) {
      var id := StoredUnder(t, t', abv, url, burns);
      assert RowsWithUrl(t', url) == {id};
    }
    if HasAbv(t, abv) || HasUrl(t, url) {
      RefusedInsertChangesNoUrl(t, abv, url, burns);
    }
  }

  /** The INSERT leaves the URL stored unless it is dropped for an abbreviation that is taken
      while the URL is not. */
  lemma InsertStoresTheUrl(t: Tables, abv: string, url: string, burns: bool)
    ensures HasUrl(Insert(t, abv, url, burns), url) <==> !HasAbv(t, abv) || HasUrl(t, url)
  {
    var t' := Insert(t, abv, url, burns);
    if HasUrl(t, url) {
      assert t'.rows == t.rows;
    } else if !HasAbv(t, abv) {
      assert t'.rows[t.nextId].url == url;
    } else {
      assert t'.rows == t.rows;
    }
  }

  /** A concrete pair of tables for which a Postgres Save, whose check is a statement of its own,
      returns nil and its URL is stored at neither statement: another request deletes the row
      between the two. */
  lemma TwoStatementSaveCanLoseTheUrl()
    ensures var inserting := Tables(map[0 := Row("a", "http://v", 0)], map[], 1);
            var checking := DeleteAbv(Insert(inserting, "a", "http://u", true), "a");
            && Consistent(inserting) && Consistent(checking)
            && SaveReturnsNil(inserting, checking, "a", "http://u")
            && !HasUrl(inserting, "http://u") && !HasUrl(checking, "http://u")
  {
    var inserting := Tables(map[0 := Row("a", "http://v", 0)], map[], 1);
    assert inserting.rows[0].abv == "a";
    var checking := DeleteAbv(Insert(inserting, "a", "http://u", true), "a");
    assert checking.rows == map[];
    assert "http://v"[7] != "http://u"[7];
  }
}

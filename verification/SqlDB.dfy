/** The SQL stores as they run (dao/sqlitedb.go, dao/postgresdb.go). The two share their schema
    and statements. `burns` is true of Postgres, whose sequence advances even when an insert is
    refused. A SQLite background update is `Flush`; a Postgres one is `BeginFlush`, whatever
    other connections do, and `EndFlush`. Likewise a SQLite Save is `Save`, and a Postgres one
    `ExecInsert`, whatever other connections do, and `Verify`. */
module SqlDB {
  import opened Model
  import opened ShortUrlDao
  import SqlTables
  import SqlRuns

  datatype Inserted = OneRow | NoRow | UniqueViolation

  /** All rows but those in `gone` are as they were, and so are their daily hits; no daily hits
      are left without a row. */
  ghost predicate OnlyLoses(before: SqlTables.Tables, after: SqlTables.Tables, gone: set<nat>) {
    && after.nextId == before.nextId
    && (forall id :: id in after.rows <==> id in before.rows && id !in gone)
    && (forall id | id in after.rows :: after.rows[id] == before.rows[id])
    && (forall id | id in after.rows :: SqlTables.DailyOf(after, id) == SqlTables.DailyOf(before, id))
    && (forall k | k in after.daily :: k.0 in after.rows)
  }

  lemma DeletedRowsAreGone(t: SqlTables.Tables, gone: set<nat>)
    requires SqlTables.Consistent(t)
    ensures OnlyLoses(t, SqlTables.DeleteRows(t, gone), gone)
  {
    var t' := SqlTables.DeleteRows(t, gone);
    forall id | id in t'.rows
      ensures SqlTables.DailyOf(t', id) == SqlTables.DailyOf(t, id)
    {
      SqlTables.DeleteAccounts(t, gone, id);
    }
  }

  /** The row with this id, if there is one, has one hit more, and nothing else has changed. */
  ghost predicate OneHitMore(before: SqlTables.Tables, after: SqlTables.Tables, id: nat) {
    && after.nextId == before.nextId && after.daily == before.daily && after.rows.Keys == before.rows.Keys
    && forall other | other in after.rows ::
         && after.rows[other].hits == before.rows[other].hits + (if other == id then 1 else 0)
         && after.rows[other].abv == before.rows[other].abv && after.rows[other].url == before.rows[other].url
  }

  lemma UpdateIsOneHitMore(t: SqlTables.Tables, id: nat)
    ensures OneHitMore(t, SqlTables.UpdateHits(t, id), id)
  {
  }

  lemma DailyMapIsComplete(t: SqlTables.Tables, id: nat, m: map<Date, nat>)
    requires forall d: Date :: d in m <==> (id, d) in t.daily
    requires forall d | d in m :: m[d] == t.daily[(id, d)]
    ensures m == SqlTables.DailyOf(t, id)
  {
    var m' := SqlTables.DailyOf(t, id);
    forall d: Date
      ensures d in m <==> d in m'
    {
      assert d in m' <==> (id, d) in t.daily;
    }
  }

  class SqlDB {
    const burns: bool
    var t: SqlTables.Tables
    /** Row ids held by background updates: not yet begun, and half done. */
    var waiting: multiset<nat>
    var half: multiset<nat>
    /** Every step since the tables were created, in the order in which they ran. */
    ghost var steps: seq<SqlRuns.Step>

    constructor (burns: bool)
      ensures Valid() && this.burns == burns && State() == SqlRuns.START && steps == []
    {
      this.burns := burns;
      t, waiting, half, steps := SqlTables.EMPTY, multiset{}, multiset{}, [];
    }

    ghost function State(): SqlRuns.State
      reads this
    {
      SqlRuns.State(t, waiting, half)
    }

    /** The state is the one that the steps so far lead to, so the theorems about runs apply. */
    ghost predicate Valid()
      reads this
    {
      State() == SqlRuns.After(burns, SqlRuns.START, steps) && SqlRuns.Inv(State())
    }

    /** The lookups that have read row `id`. */
    ghost function Lookups(id: nat): nat
      reads this
    {
      SqlRuns.Reads(burns, SqlRuns.START, steps, id)
    }

    ghost method Record(step: SqlRuns.Step)
      requires State() == SqlRuns.Do(burns, SqlRuns.After(burns, SqlRuns.START, steps), step)
      modifies this`steps
      ensures Valid() && steps == old(steps) + [step]
    {
      SqlRuns.OneMoreStep(burns, SqlRuns.START, steps, step);
      steps := steps + [step];
      SqlRuns.EveryRunIsConsistent(burns, SqlRuns.START, steps);
    }

    /** The INSERT statement and its result. */
    method ExecInsert(abv: string, url: string) returns (r: Inserted)
      requires Valid()
      modifies this`t, this`steps
      ensures Valid() && steps == old(steps) + [SqlRuns.Save(abv, url)]
      ensures r == NoRow <==> SqlTables.HasAbv(old(t), abv)
      ensures r == OneRow <==> !SqlTables.HasAbv(old(t), abv) && !SqlTables.HasUrl(old(t), url)
      ensures t.daily == old(t).daily && t.nextId == old(t).nextId + (if r == OneRow || burns then 1 else 0)
      ensures t.rows == if r == OneRow then old(t).rows[old(t).nextId := SqlTables.Row(abv, url, 0)] else old(t).rows
    {
      hide SqlRuns.After, SqlRuns.Inv;
      var skip := if burns then 1 else 0;
      if exists id | id in t.rows :: t.rows[id].abv == abv {
        r := NoRow;
        t := t.(nextId := t.nextId + skip);
      } else if exists id | id in t.rows :: t.rows[id].url == url {
        r := UniqueViolation;
        t := t.(nextId := t.nextId + skip);
      } else {
        r := OneRow;
        t := t.(rows := t.rows[t.nextId := SqlTables.Row(abv, url, 0)], nextId := t.nextId + 1);
      }
      Record(SqlRuns.Save(abv, url));
    }

    /** The SELECT that follows an insert of no row, and its verdict. */
    method Verify(abv: string, url: string) returns (ok: bool)
      requires Valid()
      ensures ok <==> forall id | id in t.rows && t.rows[id].abv == abv :: t.rows[id].url == url
    {
      if exists id | id in t.rows :: t.rows[id].abv == abv {
        var id :| id in t.rows && t.rows[id].abv == abv;
        return t.rows[id].url == url;
      }
      return true;
    }

    /** Insert and check with nothing in between. After success the URL is stored under exactly
        one abbreviation; after a failure the tables hold what they held, and the abbreviation
        is taken by another URL. */
    method Save(abv: string, url: string) returns (ok: bool)
      requires Valid()
      modifies this`t, this`steps
      ensures Valid() && steps == old(steps) + [SqlRuns.Save(abv, url)]
      ensures ok <==> SqlTables.SaveReturnsNil(old(t), t, abv, url)
      ensures ok ==> |SqlTables.RowsWithUrl(t, url)| == 1
      ensures !ok ==> t.rows == old(t).rows && t.daily == old(t).daily
      ensures !ok ==> SqlTables.HasAbv(t, abv) && SqlTables.UrlOf(t, abv) != url
    {
      SqlTables.LockedSaveMeaning(t, abv, url, burns);
      SqlRuns.OneMoreStep(burns, SqlRuns.START, steps, SqlRuns.Save(abv, url));
      var r := ExecInsert(abv, url);
      if r == NoRow {
        ok := Verify(abv, url);
        SqlTables.FoundIdIsLive(t, abv);
      } else {
        ok := true;
      }
    }

    method DeleteAbv(abv: string)
      requires Valid()
      modifies this`t, this`steps
      ensures Valid() && steps == old(steps) + [SqlRuns.DeleteAbv(abv)]
      ensures OnlyLoses(old(t), t, SqlTables.RowsWithAbv(old(t), abv))
    {
      var gone := set id | id in t.rows && t.rows[id].abv == abv;
      DeletedRowsAreGone(t, gone);
      hide SqlRuns.After, SqlRuns.Inv, OnlyLoses;
      t := t.(rows := t.rows - gone, daily := map k | k in t.daily && k.0 !in gone :: t.daily[k]);
      Record(SqlRuns.DeleteAbv(abv));
    }

    method DeleteUrl(url: string)
      requires Valid()
      modifies this`t, this`steps
      ensures Valid() && steps == old(steps) + [SqlRuns.DeleteUrl(url)]
      ensures OnlyLoses(old(t), t, SqlTables.RowsWithUrl(old(t), url))
    {
      var gone := set id | id in t.rows && t.rows[id].url == url;
      DeletedRowsAreGone(t, gone);
      hide SqlRuns.After, SqlRuns.Inv, OnlyLoses;
      t := t.(rows := t.rows - gone, daily := map k | k in t.daily && k.0 !in gone :: t.daily[k]);
      Record(SqlRuns.DeleteUrl(url));
    }

    method GetUrl(abv: string) returns (url: string)
      requires Valid()
      modifies this`waiting, this`steps
      ensures Valid() && steps == old(steps) + [SqlRuns.Lookup(abv)]
      ensures url == SqlTables.UrlOf(t, abv)
      ensures forall id :: waiting[id] == old(waiting)[id] + if id in t.rows && t.rows[id].abv == abv then 1 else 0
    {
      hide SqlRuns.After;
      if !exists id | id in t.rows :: t.rows[id].abv == abv {
        Record(SqlRuns.Lookup(abv));
        return "";
      }
      var shortUrlId :| shortUrlId in t.rows && t.rows[shortUrlId].abv == abv;
      SqlTables.TheIdOf(t, shortUrlId);
      waiting := waiting + multiset{shortUrlId};
      Record(SqlRuns.Lookup(abv));
      return t.rows[shortUrlId].url;
    }

    /** The UPDATE statement. */
    method ExecUpdateHits(id: nat)
      modifies this`t
      ensures t == SqlTables.UpdateHits(old(t), id)
    {
      if id in t.rows {
        var row := t.rows[id];
        t := t.(rows := t.rows[id := row.(hits := row.hits + 1)]);
      }
    }

    /** First statement of a background update: one hit for that row, if it is still there. */
    method BeginFlush(id: nat)
      requires Valid() && id in waiting
      modifies this
      ensures Valid() && steps == old(steps) + [SqlRuns.BeginFlush(id)]
      ensures OneHitMore(old(t), t, id)
      ensures waiting + multiset{id} == old(waiting) && half == old(half) + multiset{id}
    {
      UpdateIsOneHitMore(t, id);
      SqlRuns.BeginFlushStep(burns, State(), id);
      hide SqlRuns.After, SqlRuns.Inv, SqlRuns.Do, SqlTables.UpdateHits, OneHitMore;
      ExecUpdateHits(id);
      waiting, half := waiting - multiset{id}, half + multiset{id};
      Record(SqlRuns.BeginFlush(id));
    }

    /** Second statement of a background update: one daily hit for that row. Without the row it
        is refused, and no daily row appears. */
    method EndFlush(id: nat, today: Date)
      requires Valid() && id in half
      modifies this
      ensures Valid() && steps == old(steps) + [SqlRuns.EndFlush(id, today)]
      ensures t.rows == old(t).rows
      ensures id !in t.rows ==> t.daily == old(t).daily
      ensures forall other | other in t.rows ::
                SqlTables.DailyOf(t, other) ==
                  AddHits(SqlTables.DailyOf(old(t), other), today, if other == id then 1 else 0)
      ensures waiting == old(waiting) && half + multiset{id} == old(half)
    {
      hide SqlRuns.After, SqlRuns.Inv;
      ghost var before := t;
      if id in t.rows {
        var hits := if (id, today) in t.daily then t.daily[(id, today)] + 1 else 1;
        t := t.(daily := t.daily[(id, today) := hits]);
      }
      half := half - multiset{id};
      assert t == SqlTables.UpsertDaily(before, id, today);
      forall other | other in t.rows
        ensures SqlTables.DailyOf(t, other)
             == AddHits(SqlTables.DailyOf(before, other), today, if other == id then 1 else 0)
      {
        SqlTables.UpsertAccounts(before, id, today, other);
      }
      Record(SqlRuns.EndFlush(id, today));
    }

    /** A background update under the write lock. */
    method Flush(id: nat, today: Date)
      requires Valid() && id in waiting
      modifies this
      ensures Valid() && State() == SqlRuns.Do(burns, old(State()), SqlRuns.Flush(id, today))
    {
      SqlRuns.LockedFlushIsBothHalves(burns, State(), id, today);
      SqlRuns.OneMoreStep(burns, SqlRuns.START, steps, SqlRuns.BeginFlush(id));
      BeginFlush(id);
      SqlRuns.OneMoreStep(burns, SqlRuns.START, steps, SqlRuns.EndFlush(id, today));
      EndFlush(id, today);
    }

    method GetAbv(url: string) returns (abv: string)
      requires Valid()
      ensures abv == SqlTables.AbvOf(t, url)
    {
      if !exists id | id in t.rows :: t.rows[id].url == url {
        return "";
      }
      var id :| id in t.rows && t.rows[id].url == url;
      SqlTables.TheIdOf(t, id);
      return t.rows[id].abv;
    }

    /** The second query of GetStats. */
    method ReadDailyHits(id: nat) returns (dailyHits: map<Date, nat>)
      requires Valid()
      ensures dailyHits == SqlTables.DailyOf(t, id)
    {
      dailyHits := map[];
      var rows := set k | k in t.daily && k.0 == id;
      while rows != {}
        invariant forall k | k in rows :: k in t.daily && k.0 == id
        invariant forall d: Date :: d in dailyHits <==> (id, d) in t.daily && (id, d) !in rows
        invariant forall d | d in dailyHits :: dailyHits[d] == t.daily[(id, d)]
      {
        var row :| row in rows;
        dailyHits := dailyHits[row.1 := t.daily[row]];
        rows := rows - {row};
      }
      DailyMapIsComplete(t, id, dailyHits);
    }

    /** Both queries of GetStats with nothing in between. The lookups of the row so far are the
        hits reported and its updates not yet begun; the hits reported exceed the daily hits
        reported by its half-done updates. */
    method GetStats(abv: string) returns (stats: Reply<Stats>)
      requires Valid()
      ensures stats == SqlTables.GetStats(t, abv)
      ensures stats.Ok? ==>
                forall id | id in t.rows && t.rows[id].abv == abv ::
                  Lookups(id) == stats.value.hits + waiting[id] && stats.value.hits == Sum(stats.value.daily) + half[id]
    {
      if !exists id | id in t.rows :: t.rows[id].abv == abv {
        return Ok(NO_STATS);
      }
      var shortUrlId :| shortUrlId in t.rows && t.rows[shortUrlId].abv == abv;
      SqlTables.TheIdOf(t, shortUrlId);
      if t.rows[shortUrlId].hits > MAX_INT32 {
        return Failed;
      }
      SqlRuns.EveryRunBalances(burns, steps, shortUrlId);
      var dailyHits := ReadDailyHits(shortUrlId);
      return Ok(Stats(t.rows[shortUrlId].abv, t.rows[shortUrlId].url, t.rows[shortUrlId].hits, dailyHits));
    }
  }
}

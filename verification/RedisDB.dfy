/** The Redis store as it runs (dao/redisdb.go). `ks` is the server's key space; `tasks` holds the
    transactions that operations have prepared and not run yet. Save and the deletes read in one
    method and run their transaction in another, and GetStats reads twice. Whole operations take
    the steps that other connections make in between as a parameter. */
module RedisDB {
  import opened Model
  import opened ShortUrlDao
  import RedisKeys
  import RedisRuns

  lemma TextFields(ks: RedisKeys.Keys, abv: string)
    requires RedisKeys.Typed(ks)
    ensures RedisKeys.AbvKey(abv) in ks ==> RedisKeys.TypedRecord(ks[RedisKeys.AbvKey(abv)])
  {
  }

  // What the transactions do to every abbreviation and every URL at once.

  predicate SameRecord(ks: RedisKeys.Keys, ks': RedisKeys.Keys, b: string) {
    && RedisKeys.UrlOf(ks', b) == RedisKeys.UrlOf(ks, b)
    && RedisKeys.HitsOf(ks', b) == RedisKeys.HitsOf(ks, b)
    && RedisKeys.DailyOf(ks', b) == RedisKeys.DailyOf(ks, b)
  }

  /** Nothing but `abv` and its statistics, and `url`, may have changed. */
  ghost predicate OthersKept(ks: RedisKeys.Keys, ks': RedisKeys.Keys, abv: string, url: string) {
    && (forall b | b != abv :: SameRecord(ks, ks', b))
    && (forall v | v != url :: RedisKeys.AbvOf(ks', v) == RedisKeys.AbvOf(ks, v))
  }

  /** The pair is bound both ways, its hits restart, and its daily hits stay as they were. */
  ghost predicate Stored(ks: RedisKeys.Keys, ks': RedisKeys.Keys, abv: string, url: string) {
    && RedisKeys.UrlOf(ks', abv) == Some(url) && RedisKeys.AbvOf(ks', url) == Some(abv)
    && RedisKeys.HitsOf(ks', abv) == 0 && RedisKeys.DailyOf(ks', abv) == RedisKeys.DailyOf(ks, abv)
    && OthersKept(ks, ks', abv, url)
  }

  /** Neither key of the pair is left, nor any statistics. */
  ghost predicate Erased(ks: RedisKeys.Keys, ks': RedisKeys.Keys, abv: string, url: string) {
    && RedisKeys.AbvKey(abv) !in ks' && RedisKeys.DailyKey(abv) !in ks' && RedisKeys.AbvOf(ks', url) == None
    && OthersKept(ks, ks', abv, url)
  }

  /** One more hit and one more daily hit for this abbreviation, and no binding changed. */
  ghost predicate Credited(ks: RedisKeys.Keys, ks': RedisKeys.Keys, abv: string, date: Date) {
    && RedisKeys.UrlOf(ks', abv) == RedisKeys.UrlOf(ks, abv)
    && RedisKeys.HitsOf(ks', abv) == RedisKeys.HitsOf(ks, abv) + 1
    && RedisKeys.DailyOf(ks', abv) == AddHits(RedisKeys.DailyOf(ks, abv), date, 1)
    && (forall b | b != abv :: SameRecord(ks, ks', b))
    && (forall v :: RedisKeys.AbvOf(ks', v) == RedisKeys.AbvOf(ks, v))
  }

  lemma StoreIsLocal(ks: RedisKeys.Keys, abv: string, url: string)
    requires RedisKeys.Typed(ks)
    ensures Stored(ks, RedisKeys.StoreTx(ks, abv, url), abv, url)
  {
    hide RedisKeys.Typed, RedisKeys.StoreTx, RedisKeys.UrlOf, RedisKeys.HitsOf, RedisKeys.DailyOf, RedisKeys.AbvOf;
    RedisKeys.StoreTxEffect(ks, abv, url, abv);
    RedisKeys.StoreTxEffect(ks, abv, url, url);
    forall b
      ensures b != abv ==> SameRecord(ks, RedisKeys.StoreTx(ks, abv, url), b)
      ensures b != url ==> RedisKeys.AbvOf(RedisKeys.StoreTx(ks, abv, url), b) == RedisKeys.AbvOf(ks, b)
    {
      RedisKeys.StoreTxEffect(ks, abv, url, b);
    }
  }

  lemma EraseIsLocal(ks: RedisKeys.Keys, abv: string, url: string)
    ensures Erased(ks, RedisKeys.EraseTx(ks, abv, url), abv, url)
  {
    hide RedisKeys.EraseTx, RedisKeys.UrlOf, RedisKeys.HitsOf, RedisKeys.DailyOf, RedisKeys.AbvOf;
    RedisKeys.EraseTxEffect(ks, abv, url, abv);
    RedisKeys.EraseTxEffect(ks, abv, url, url);
    forall b
      ensures b != abv ==> SameRecord(ks, RedisKeys.EraseTx(ks, abv, url), b)
      ensures b != url ==> RedisKeys.AbvOf(RedisKeys.EraseTx(ks, abv, url), b) == RedisKeys.AbvOf(ks, b)
    {
      RedisKeys.EraseTxEffect(ks, abv, url, b);
    }
  }

  lemma HitIsLocal(ks: RedisKeys.Keys, abv: string, date: Date, stamp: string)
    requires RedisKeys.Typed(ks)
    ensures Credited(ks, RedisKeys.HitTx(ks, abv, date, stamp), abv, date)
  {
    hide RedisKeys.Typed, RedisKeys.HitTx, RedisKeys.UrlOf, RedisKeys.HitsOf, RedisKeys.DailyOf, RedisKeys.AbvOf;
    RedisKeys.HitTxEffect(ks, abv, date, stamp, abv);
    forall b
      ensures b != abv ==> SameRecord(ks, RedisKeys.HitTx(ks, abv, date, stamp), b)
      ensures RedisKeys.AbvOf(RedisKeys.HitTx(ks, abv, date, stamp), b) == RedisKeys.AbvOf(ks, b)
    {
      RedisKeys.HitTxEffect(ks, abv, date, stamp, b);
    }
  }

  class RedisDB {
    var ks: RedisKeys.Keys
    var tasks: multiset<RedisRuns.Task>
    /** Every step since the key space was empty, in the order in which they ran. */
    ghost var steps: seq<RedisRuns.Step>

    constructor ()
      ensures Valid() && State() == RedisRuns.START && steps == []
    {
      ks, tasks, steps := map[], multiset{}, [];
    }

    ghost function State(): RedisRuns.State
      reads this
    {
      RedisRuns.State(ks, tasks)
    }

    /** The state is the one that the steps so far lead to, so the theorems about runs apply; and
        keys are of the type that their prefix says, so no command fails for meeting another. */
    ghost predicate Valid()
      reads this
    {
      State() == RedisRuns.After(RedisRuns.START, steps) && RedisKeys.Typed(ks)
    }

    ghost method Record(step: RedisRuns.Step)
      requires State() == RedisRuns.Do(RedisRuns.After(RedisRuns.START, steps), step)
      modifies this`steps
      ensures Valid() && steps == old(steps) + [step]
    {
      RedisRuns.OneMoreStep(RedisRuns.START, steps, step);
      steps := steps + [step];
      RedisRuns.EveryRunIsTyped(steps);
    }

    // The first half of each operation that writes: a read, and the transaction it leads to.

    method BeginSave(abv: string, url: string) returns (ok: bool)
      requires Valid()
      modifies this`tasks, this`steps
      ensures Valid() && steps == old(steps) + [RedisRuns.Save(abv, url)]
      ensures ok <==> RedisKeys.UrlOf(ks, abv) in {None, Some(""), Some(url)}
      ensures tasks == if ok then old(tasks) + multiset{RedisRuns.Store(abv, url)} else old(tasks)
    {
      var existingUrl := RedisKeys.HGet(ks, RedisKeys.AbvKey(abv), "url");
      TextFields(ks, abv);
      if existingUrl.Found? && existingUrl.value.s != "" && existingUrl.value.s != url {
        ok := false;
      } else {
        ok := true;
        tasks := tasks + multiset{RedisRuns.Store(abv, url)};
      }
      Record(RedisRuns.Save(abv, url));
    }

    method BeginDeleteAbv(abv: string) returns (url: Option<string>)
      requires Valid()
      modifies this`tasks, this`steps
      ensures Valid() && steps == old(steps) + [RedisRuns.DeleteAbv(abv)]
      ensures url == RedisKeys.UrlOf(ks, abv)
      ensures tasks == if url.Some? then old(tasks) + multiset{RedisRuns.Erase(abv, url.value)} else old(tasks)
    {
      var answer := RedisKeys.HGet(ks, RedisKeys.AbvKey(abv), "url");
      TextFields(ks, abv);
      if answer.Nil? {
        url := None;
      } else {
        url := Some(answer.value.s);
        tasks := tasks + multiset{RedisRuns.Erase(abv, answer.value.s)};
      }
      Record(RedisRuns.DeleteAbv(abv));
    }

    method BeginDeleteUrl(url: string) returns (abv: Option<string>)
      requires Valid()
      modifies this`tasks, this`steps
      ensures Valid() && steps == old(steps) + [RedisRuns.DeleteUrl(url)]
      ensures abv == RedisKeys.AbvOf(ks, url)
      ensures tasks == if abv.Some? then old(tasks) + multiset{RedisRuns.Erase(abv.value, url)} else old(tasks)
    {
      var answer := RedisKeys.Get(ks, RedisKeys.UrlKey(url));
      if answer.Nil? {
        abv := None;
      } else {
        abv := Some(answer.value);
        tasks := tasks + multiset{RedisRuns.Erase(answer.value, url)};
      }
      Record(RedisRuns.DeleteUrl(url));
    }

    // The transactions.

    method RunStore(abv: string, url: string)
      requires Valid() && RedisRuns.Store(abv, url) in tasks
      modifies this
      ensures Valid() && steps == old(steps) + [RedisRuns.Exec(RedisRuns.Store(abv, url), "", "")]
      ensures tasks + multiset{RedisRuns.Store(abv, url)} == old(tasks)
      ensures Stored(old(ks), ks, abv, url)
    {
      StoreIsLocal(ks, abv, url);
      RedisRuns.ExecRunsTheTask(State(), RedisRuns.Store(abv, url), "", "");
      hide RedisKeys.Typed, RedisRuns.After, RedisRuns.Do, Stored;
      hide RedisKeys.HSet, RedisKeys.AbvKey, RedisKeys.UrlKey;
      ks := RedisKeys.HSet(ks, RedisKeys.AbvKey(abv), "url", RedisKeys.Text(url));
      ks := RedisKeys.HSet(ks, RedisKeys.AbvKey(abv), "hits", RedisKeys.Num(0));
      ks := ks[RedisKeys.UrlKey(url) := RedisKeys.Str(abv)];
      assert ks == RedisKeys.StoreTx(old(ks), abv, url);
      tasks := tasks - multiset{RedisRuns.Store(abv, url)};
      Record(RedisRuns.Exec(RedisRuns.Store(abv, url), "", ""));
    }

    method RunErase(abv: string, url: string)
      requires Valid() && RedisRuns.Erase(abv, url) in tasks
      modifies this
      ensures Valid() && steps == old(steps) + [RedisRuns.Exec(RedisRuns.Erase(abv, url), "", "")]
      ensures tasks + multiset{RedisRuns.Erase(abv, url)} == old(tasks)
      ensures Erased(old(ks), ks, abv, url)
    {
      EraseIsLocal(ks, abv, url);
      hide RedisKeys.Typed, RedisRuns.After, Erased, RedisKeys.AbvKey, RedisKeys.UrlKey, RedisKeys.DailyKey;
      ks := ks - {RedisKeys.AbvKey(abv), RedisKeys.UrlKey(url), RedisKeys.DailyKey(abv)};
      tasks := tasks - multiset{RedisRuns.Erase(abv, url)};
      Record(RedisRuns.Exec(RedisRuns.Erase(abv, url), "", ""));
    }

    /** A background hit update. */
    method RunHit(abv: string, today: Date, now: string)
      requires Valid() && RedisRuns.Hit(abv) in tasks
      modifies this
      ensures Valid() && steps == old(steps) + [RedisRuns.Exec(RedisRuns.Hit(abv), today, now)]
      ensures tasks + multiset{RedisRuns.Hit(abv)} == old(tasks)
      ensures Credited(old(ks), ks, abv, today)
    {
      HitIsLocal(ks, abv, today, now);
      RedisRuns.ExecRunsTheTask(State(), RedisRuns.Hit(abv), today, now);
      hide RedisKeys.Typed, RedisRuns.After, RedisRuns.Do, Credited;
      hide RedisKeys.HSet, RedisKeys.HIncr, RedisKeys.AbvKey;
      ks := RedisKeys.HIncr(ks, RedisKeys.AbvKey(abv), "hits");
      ks := RedisKeys.HSet(ks, RedisKeys.AbvKey(abv), "last_access", RedisKeys.Text(now));
      ks := RedisKeys.HIncr(ks, RedisKeys.DailyKey(abv), today);
      assert ks == RedisKeys.HitTx(old(ks), abv, today, now);
      tasks := tasks - multiset{RedisRuns.Hit(abv)};
      Record(RedisRuns.Exec(RedisRuns.Hit(abv), today, now));
    }

    // The operations. `others` are the steps of other connections that come between the read and
    // the transaction; they do not run the transaction that this operation has prepared.

    method RunOthers(others: seq<RedisRuns.Step>)
      requires Valid()
      modifies this
      ensures Valid() && steps == old(steps) + others
      ensures State() == RedisRuns.After(old(State()), others)
    {
      RedisRuns.AfterConcat(RedisRuns.START, steps, others);
      var s := RedisRuns.After(RedisRuns.State(ks, tasks), others);
      ks, tasks := s.ks, s.tasks;
      steps := steps + others;
      RedisRuns.EveryRunIsTyped(steps);
    }

    /** Fails when the read finds the abbreviation bound to another URL; otherwise the pair is
        stored in the keys that the transaction meets. */
    method Save(abv: string, url: string, others: seq<RedisRuns.Step>) returns (ok: bool)
      requires Valid()
      requires var queued := RedisRuns.Do(State(), RedisRuns.Save(abv, url));
               RedisRuns.MaySave(ks, abv, url) ==>
                 RedisRuns.Store(abv, url) in RedisRuns.After(queued, others).tasks
      modifies this
      ensures Valid()
      ensures ok <==> RedisKeys.UrlOf(old(ks), abv) in {None, Some(""), Some(url)}
      ensures var met := RedisRuns.After(RedisRuns.Do(old(State()), RedisRuns.Save(abv, url)), others);
              if ok then Stored(met.ks, ks, abv, url) && tasks + multiset{RedisRuns.Store(abv, url)} == met.tasks
              else State() == met
    {
      RedisRuns.OneMoreStep(RedisRuns.START, steps, RedisRuns.Save(abv, url));
      hide RedisRuns.After, Stored;
      ok := BeginSave(abv, url);
      RunOthers(others);
      if ok {
        RunStore(abv, url);
      }
    }

    /** When the read finds a URL, the transaction erases that pair from the keys it meets. */
    method DeleteAbv(abv: string, others: seq<RedisRuns.Step>)
      requires Valid()
      requires var queued := RedisRuns.Do(State(), RedisRuns.DeleteAbv(abv));
               match RedisKeys.UrlOf(ks, abv)
               case Some(url) => RedisRuns.Erase(abv, url) in RedisRuns.After(queued, others).tasks
               case None => true
      modifies this
      ensures Valid()
      ensures var met := RedisRuns.After(RedisRuns.Do(old(State()), RedisRuns.DeleteAbv(abv)), others);
              match RedisKeys.UrlOf(old(ks), abv)
              case Some(url) =>
                Erased(met.ks, ks, abv, url) && tasks + multiset{RedisRuns.Erase(abv, url)} == met.tasks
              case None => State() == met
    {
      RedisRuns.OneMoreStep(RedisRuns.START, steps, RedisRuns.DeleteAbv(abv));
      hide RedisRuns.After, Erased;
      var url := BeginDeleteAbv(abv);
      RunOthers(others);
      if url.Some? {
        RunErase(abv, url.value);
      }
    }

    /** When the read finds an abbreviation, the transaction erases that pair from the keys it
        meets. */
    method DeleteUrl(url: string, others: seq<RedisRuns.Step>)
      requires Valid()
      requires var queued := RedisRuns.Do(State(), RedisRuns.DeleteUrl(url));
               match RedisKeys.AbvOf(ks, url)
               case Some(abv) => RedisRuns.Erase(abv, url) in RedisRuns.After(queued, others).tasks
               case None => true
      modifies this
      ensures Valid()
      ensures var met := RedisRuns.After(RedisRuns.Do(old(State()), RedisRuns.DeleteUrl(url)), others);
              match RedisKeys.AbvOf(old(ks), url)
              case Some(abv) =>
                Erased(met.ks, ks, abv, url) && tasks + multiset{RedisRuns.Erase(abv, url)} == met.tasks
              case None => State() == met
    {
      RedisRuns.OneMoreStep(RedisRuns.START, steps, RedisRuns.DeleteUrl(url));
      hide RedisRuns.After, Erased;
      var abv := BeginDeleteUrl(url);
      RunOthers(others);
      if abv.Some? {
        RunErase(abv.value, url);
      }
    }

    method GetUrl(abv: string) returns (url: string)
      requires Valid()
      modifies this`tasks, this`steps
      ensures Valid() && steps == old(steps) + [RedisRuns.Lookup(abv)]
      ensures match RedisKeys.UrlOf(ks, abv)
              case Some(u) => url == u && tasks == old(tasks) + multiset{RedisRuns.Hit(abv)}
              case None => url == "" && tasks == old(tasks)
    {
      var answer := RedisKeys.HGet(ks, RedisKeys.AbvKey(abv), "url");
      TextFields(ks, abv);
      if answer.Nil? {
        Record(RedisRuns.Lookup(abv));
        return "";
      }
      tasks := tasks + multiset{RedisRuns.Hit(abv)};
      Record(RedisRuns.Lookup(abv));
      return answer.value.s;
    }

    method GetAbv(url: string) returns (abv: string)
      requires Valid()
      ensures abv == match RedisKeys.AbvOf(ks, url) case Some(a) => a case None => ""
    {
      var answer := RedisKeys.Get(ks, RedisKeys.UrlKey(url));
      return if answer.Found? then answer.value else "";
    }

    /** The second command of GetStats. */
    method ReadDailyHits(abv: string) returns (daily: map<Date, nat>)
      requires Valid()
      ensures daily == RedisKeys.DailyOf(ks, abv)
    {
      assert RedisKeys.DailyKey(abv) in ks ==> RedisKeys.TypedDaily(ks[RedisKeys.DailyKey(abv)]);
      var dailyHits := RedisKeys.HGetAll(ks, RedisKeys.DailyKey(abv)).value;
      daily := map[];
      var dates := dailyHits.Keys;
      while dates != {}
        invariant dates <= dailyHits.Keys && daily.Keys == dailyHits.Keys - dates
        invariant forall d | d in daily :: daily[d] == dailyHits[d].n
      {
        var date :| date in dates;
        daily := daily[date := dailyHits[date].n];
        dates := dates - {date};
      }
      assert daily == RedisKeys.Counts(dailyHits);
    }

    /** The record is read first, and the daily hits after the steps `others` of other connections.
        The hits reported stay within the daily hits reported if and only if no delete of the
        abbreviation runs in between, or the updates after the last one make up for them. A total
        beyond an int32 is reported as the largest one. */
    method GetStats(abv: string, others: seq<RedisRuns.Step>) returns (stats: Reply<Stats>)
      requires Valid()
      modifies this
      ensures Valid() && State() == RedisRuns.After(old(State()), others)
      ensures others == [] ==> stats == RedisKeys.GetStats(ks, abv)
      ensures RedisKeys.AbvKey(abv) !in old(ks) ==> stats == Ok(NO_STATS)
      ensures RedisKeys.AbvKey(abv) in old(ks) ==>
                var url := match RedisKeys.UrlOf(old(ks), abv) case Some(u) => u case None => "";
                var hits := RedisKeys.HitsOf(old(ks), abv);
                && stats == Ok(Stats(abv, url, RedisKeys.Saturated(hits).value, RedisKeys.DailyOf(ks, abv)))
                && (hits <= Sum(stats.value.daily)
                    <==> || RedisRuns.NeverErased(old(State()), others, abv)
                         || hits <= RedisRuns.HitsSinceErase(old(State()), others, abv))
    {
      RedisRuns.TwoReadStatistics(steps, others, abv);
      var result := RedisKeys.HGetAll(ks, RedisKeys.AbvKey(abv));
      TextFields(ks, abv);
      if result.value == map[] {
        RunOthers(others);
        return Ok(NO_STATS);
      }
      var url := if "url" in result.value then result.value["url"].s else "";
      var hits := if "hits" in result.value then result.value["hits"].n else 0;
      if hits > MAX_INT32 {
        hits := MAX_INT32;
      }
      RunOthers(others);
      var daily := ReadDailyHits(abv);
      return Ok(Stats(abv, url, hits, daily));
    }
  }
}

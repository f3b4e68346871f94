/** Concurrent runs of the Redis store. Save and the deletes read first and then queue a
    transaction; a successful GetUrl leaves a background hit update. Reads and transactions are
    atomic, everything else interleaves. */
module RedisRuns {
  import opened Model
  import opened RedisKeys
  import ShortUrlDao

  datatype Task = Hit(abv: string) | Store(abv: string, url: string) | Erase(abv: string, url: string)

  datatype State = State(ks: Keys, tasks: multiset<Task>)

  const START := State(map[], multiset{})

  datatype Step =
    | Save(abv: string, url: string)
    | DeleteAbv(abv: string)
    | DeleteUrl(url: string)
    | Lookup(abv: string)
    | Exec(task: Task, date: Date, stamp: string)

  /** The check at the start of Save: the abbreviation is not bound to another, non-empty URL. */
  predicate MaySave(ks: Keys, abv: string, url: string) {
    match HGet(ks, AbvKey(abv), "url")
    case Found(Text(u)) => u == "" || u == url
    case _ => true
  }

  function Perform(ks: Keys, task: Task, date: Date, stamp: string): Keys {
    match task
    case Hit(abv) => HitTx(ks, abv, date, stamp)
    case Store(abv, url) => StoreTx(ks, abv, url)
    case Erase(abv, url) => EraseTx(ks, abv, url)
  }

  function Queue(s: State, task: Task): State {
    s.(tasks := s.tasks + multiset{task})
  }

  function Do(s: State, step: Step): State {
    match step
    case Save(abv, url) => if MaySave(s.ks, abv, url) then Queue(s, Store(abv, url)) else s
    case DeleteAbv(abv) => (match UrlOf(s.ks, abv) case Some(url) => Queue(s, Erase(abv, url)) case None => s)
    case DeleteUrl(url) => (match AbvOf(s.ks, url) case Some(abv) => Queue(s, Erase(abv, url)) case None => s)
    case Lookup(abv) => if UrlOf(s.ks, abv).Some? then Queue(s, Hit(abv)) else s
    case Exec(task, date, stamp) =>
      if task in s.tasks then State(Perform(s.ks, task, date, stamp), s.tasks - multiset{task}) else s
  }

  function After(s: State, steps: seq<Step>): State {
    if steps == [] then s else Do(After(s, steps[..|steps| - 1]), steps[|steps| - 1])
  }

  lemma ExecRunsTheTask(s: State, task: Task, date: Date, stamp: string)
    requires task in s.tasks
    ensures Do(s, Exec(task, date, stamp)) == State(Perform(s.ks, task, date, stamp), s.tasks - multiset{task})
  {
  }

  lemma OneMoreStep(s: State, steps: seq<Step>, step: Step)
    ensures After(s, steps + [step]) == Do(After(s, steps), step)
  {
    assert (steps + [step])[..|steps|] == steps;
  }

  lemma {:induction false} AfterConcat(s: State, first: seq<Step>, second: seq<Step>)
    ensures After(s, first + second) == After(After(s, first), second)
  {
    if second == [] {
      assert first + second == first;
    } else {
      hide Do;
      var n := |second| - 1;
      assert (first + second)[..|first + second| - 1] == first + second[..n];
      AfterConcat(s, first, second[..n]);
    }
  }

  /** What a step takes off the queue and performs, if anything. */
  function Performed(s: State, step: Step): Option<Task> {
    if step.Exec? && step.task in s.tasks then Some(step.task) else None
  }

  /** A count of the hit updates of `abv` that restarts at each of its erasures. */
  function SinceErase(count: nat, performed: Option<Task>, abv: string): nat {
    match performed
    case Some(Hit(a)) => if a == abv then count + 1 else count
    case Some(Erase(a, _)) => if a == abv then 0 else count
    case _ => count
  }

  /** A count of the hit updates of `abv` that restarts when it is stored or erased. */
  function SinceStore(count: nat, performed: Option<Task>, abv: string): nat {
    match performed
    case Some(Store(a, _)) => if a == abv then 0 else count
    case _ => SinceErase(count, performed, abv)
  }

  /** The hit updates of `abv` performed among `steps`, taken from `s` on, since its last erasure
      among them. */
  function HitsSinceErase(s: State, steps: seq<Step>, abv: string): nat {
    if steps == [] then 0
    else
      var n := |steps| - 1;
      SinceErase(HitsSinceErase(s, steps[..n], abv), Performed(After(s, steps[..n]), steps[n]), abv)
  }

  function HitsSinceStore(steps: seq<Step>, abv: string): nat {
    if steps == [] then 0
    else
      var n := |steps| - 1;
      SinceStore(HitsSinceStore(steps[..n], abv), Performed(After(START, steps[..n]), steps[n]), abv)
  }

  lemma DoKeepsTypes(s: State, step: Step)
    requires Typed(s.ks)
    ensures Typed(Do(s, step).ks)
  {
    match Performed(s, step)
    case Some(Hit(abv)) => HitTxKeepsTypes(s.ks, abv, step.date, step.stamp);
    case Some(Store(abv, url)) => StoreTxKeepsTypes(s.ks, abv, url);
    case Some(Erase(abv, url)) => EraseTxKeepsTypes(s.ks, abv, url);
    case None =>
  }

  /** No command ever meets a value of the wrong type. */
  lemma {:induction false} EveryRunIsTyped(steps: seq<Step>)
    ensures Typed(After(START, steps).ks)
  {
    if steps == [] {
    } else {
      EveryRunIsTyped(steps[..|steps| - 1]);
      DoKeepsTypes(After(START, steps[..|steps| - 1]), steps[|steps| - 1]);
    }
  }

  lemma StepAccounts(s: State, step: Step, abv: string)
    requires Typed(s.ks)
    ensures var ks' := Do(s, step).ks;
            && HitsOf(ks', abv) == SinceStore(HitsOf(s.ks, abv), Performed(s, step), abv)
            && Sum(DailyOf(ks', abv)) == SinceErase(Sum(DailyOf(s.ks, abv)), Performed(s, step), abv)
  {
    hide HitsOf, DailyOf, Typed, HitTx, StoreTx, EraseTx;
    assert Sum<Date>(map[]) == 0;
    match Performed(s, step)
    case Some(Hit(a)) =>
      HitTxEffect(s.ks, a, step.date, step.stamp, abv);
      SumAddHits(DailyOf(s.ks, abv), step.date, if abv == a then 1 else 0);
    case Some(Store(a, url)) => StoreTxEffect(s.ks, a, url, abv);
    case Some(Erase(a, url)) => EraseTxEffect(s.ks, a, url, abv);
    case None =>
  }

  /** Exact accounting in every interleaving, late updates that recreate an erased record
      included: the hit counter restarts at every store, the daily hits only at an erase. */
  lemma {:induction false} EveryRunAccounts(steps: seq<Step>, abv: string)
    ensures HitsOf(After(START, steps).ks, abv) == HitsSinceStore(steps, abv)
    ensures Sum(DailyOf(After(START, steps).ks, abv)) == HitsSinceErase(START, steps, abv)
  {
    if steps == [] {
      assert Sum<Date>(map[]) == 0;
    } else {
      hide HitsOf, DailyOf, Do, Performed;
      EveryRunAccounts(steps[..|steps| - 1], abv);
      EveryRunIsTyped(steps[..|steps| - 1]);
      StepAccounts(After(START, steps[..|steps| - 1]), steps[|steps| - 1], abv);
    }
  }

  lemma {:induction false} StoreIsNoEarlierThanErase(steps: seq<Step>, abv: string)
    ensures HitsSinceStore(steps, abv) <= HitsSinceErase(START, steps, abv)
  {
    if steps == [] {
    } else {
      StoreIsNoEarlierThanErase(steps[..|steps| - 1], abv);
    }
  }

  /** In every interleaving the stored hits never exceed the sum of the daily hits. */
  lemma HitsNeverExceedDailyHits(steps: seq<Step>, abv: string)
    ensures HitsOf(After(START, steps).ks, abv) <= Sum(DailyOf(After(START, steps).ks, abv))
  {
    EveryRunAccounts(steps, abv);
    StoreIsNoEarlierThanErase(steps, abv);
  }

  // Statistics read in two steps: first the record, later the daily hits.

  predicate Erases(performed: Option<Task>, abv: string) {
    performed.Some? && performed.value.Erase? && performed.value.abv == abv
  }

  /** No delete of `abv` is performed among `steps`, taken from `s` on. */
  ghost predicate NeverErased(s: State, steps: seq<Step>, abv: string) {
    forall i | 0 <= i < |steps| :: !Erases(Performed(After(s, steps[..i]), steps[i]), abv)
  }

  lemma NeverErasedStep(s: State, steps: seq<Step>, abv: string)
    requires steps != []
    ensures var n := |steps| - 1;
            NeverErased(s, steps, abv) <==>
              NeverErased(s, steps[..n], abv) && !Erases(Performed(After(s, steps[..n]), steps[n]), abv)
  {
    hide Erases, Performed, After;
    var n := |steps| - 1;
    assert forall i | 0 <= i < n :: steps[..n][..i] == steps[..i] && steps[..n][i] == steps[i];
  }

  /** The daily hits after `steps`: those at `s` and the updates performed, or, once a delete has
      been performed, the updates performed since the last one. */
  lemma {:induction false} DailyHitsCountUpdates(s: State, steps: seq<Step>, abv: string)
    requires Typed(s.ks)
    ensures Typed(After(s, steps).ks)
    ensures Sum(DailyOf(After(s, steps).ks, abv))
         == HitsSinceErase(s, steps, abv) + if NeverErased(s, steps, abv) then Sum(DailyOf(s.ks, abv)) else 0
  {
    if steps == [] {
    } else {
      hide HitsOf, DailyOf, Do, Performed, Typed, NeverErased;
      var n := |steps| - 1;
      DailyHitsCountUpdates(s, steps[..n], abv);
      DoKeepsTypes(After(s, steps[..n]), steps[n]);
      StepAccounts(After(s, steps[..n]), steps[n], abv);
      NeverErasedStep(s, steps, abv);
    }
  }

  /** GetStats reads the record with one command and the daily hits with a later one, with the
      steps `between` in between. The hits reported stay within the daily hits reported if and
      only if no delete of the abbreviation is performed in between, or the updates performed
      after the last one make up for them. */
  lemma TwoReadStatistics(before: seq<Step>, between: seq<Step>, abv: string)
    ensures var s1 := After(START, before);
            var hits, daily := HitsOf(s1.ks, abv), DailyOf(After(s1, between).ks, abv);
            var since := HitsSinceErase(s1, between, abv);
            && Sum(daily) == since + (if NeverErased(s1, between, abv) then Sum(DailyOf(s1.ks, abv)) else 0)
            && (hits <= Sum(daily) <==> NeverErased(s1, between, abv) || hits <= since)
  {
    EveryRunIsTyped(before);
    HitsNeverExceedDailyHits(before, abv);
    DailyHitsCountUpdates(After(START, before), between, abv);
  }

  /** With a delete in between, any record with a URL and hits is reported without daily hits. */
  lemma DeleteBetweenReadsTearsStatistics(s: State, abv: string, url: string)
    requires UrlOf(s.ks, abv) == Some(url) && HitsOf(s.ks, abv) > 0
    ensures var between := [DeleteAbv(abv), Exec(Erase(abv, url), "", "")];
            Sum(DailyOf(After(s, between).ks, abv)) == 0 < HitsOf(s.ks, abv)
  {
    EraseTxEffect(s.ks, abv, url, abv);
    var between := [DeleteAbv(abv), Exec(Erase(abv, url), "", "")];
    assert between[..1] == [DeleteAbv(abv)] && between[..1][..0] == [];
    assert After(s, between[..1]) == Do(s, DeleteAbv(abv));
    assert Sum<Date>(map[]) == 0;
  }

  /** From any state, others can erase an abbreviation: a save, which gives its record a URL if it
      has none, and a delete. */
  function SaveAndDelete(abv: string, url: string): seq<Step> {
    [Save(abv, url), Exec(Store(abv, url), "", ""), DeleteAbv(abv), Exec(Erase(abv, url), "", "")]
  }

  lemma FourSteps(s: State, a: Step, b: Step, c: Step, d: Step)
    ensures After(s, [a, b, c, d]) == Do(Do(Do(Do(s, a), b), c), d)
  {
    hide Do;
    assert [a, b, c, d][..3] == [a, b, c] && [a, b, c][..2] == [a, b] && [a, b][..1] == [a] && [a][..0] == [];
    assert After(s, [a]) == Do(s, a);
    assert After(s, [a, b]) == Do(After(s, [a]), b);
    assert After(s, [a, b, c]) == Do(After(s, [a, b]), c);
  }

  lemma SaveAndDeleteErases(s: State, abv: string, url: string)
    requires Typed(s.ks) && (UrlOf(s.ks, abv) == None || UrlOf(s.ks, abv) == Some(url))
    ensures var ks := After(s, SaveAndDelete(abv, url)).ks; AbvKey(abv) !in ks && DailyOf(ks, abv) == map[]
  {
    FourSteps(s, Save(abv, url), Exec(Store(abv, url), "", ""), DeleteAbv(abv), Exec(Erase(abv, url), "", ""));
    var queued := Do(s, Save(abv, url));
    assert queued == Queue(s, Store(abv, url));
    hide Typed, UrlOf, HitsOf, DailyOf, AbvOf, StoreTx, EraseTx, MaySave, AbvKey, DailyKey;
    ExecRunsTheTask(queued, Store(abv, url), "", "");
    var stored := Do(queued, Exec(Store(abv, url), "", ""));
    StoreTxEffect(s.ks, abv, url, abv);
    var deleting := Do(stored, DeleteAbv(abv));
    assert deleting == Queue(stored, Erase(abv, url));
    ExecRunsTheTask(deleting, Erase(abv, url), "", "");
    hide Do;
    EraseTxEffect(stored.ks, abv, url, abv);
  }

  /** Whatever comes in between, the hits reported stay within the daily hits reported if and only
      if the record read has no hits at all. */
  lemma TwoReadsAgreeIffNoHits(before: seq<Step>, abv: string)
    ensures var s1 := After(START, before);
            (forall between :: HitsOf(s1.ks, abv) <= Sum(DailyOf(After(s1, between).ks, abv)))
            <==> HitsOf(s1.ks, abv) == 0
  {
    var s1 := After(START, before);
    EveryRunIsTyped(before);
    assert Sum<Date>(map[]) == 0;
    if HitsOf(s1.ks, abv) > 0 {
      var url := match UrlOf(s1.ks, abv) case Some(u) => u case None => "";
      SaveAndDeleteErases(s1, abv, url);
      assert HitsOf(s1.ks, abv) > Sum(DailyOf(After(s1, SaveAndDelete(abv, url)).ks, abv));
    }
  }

  // Deletes.

  /** Both deletes of a stored pair queue the same transaction, which removes that pair and its
      statistics and leaves every other abbreviation and URL as it is. */
  lemma DeletingEitherKeyIsTheSame(s: State, abv: string, url: string, b: string)
    requires UrlOf(s.ks, abv) == Some(url) && AbvOf(s.ks, url) == Some(abv)
    ensures Do(s, DeleteAbv(abv)) == Do(s, DeleteUrl(url)) == Queue(s, Erase(abv, url))
    ensures var ks' := EraseTx(s.ks, abv, url);
            && UrlOf(ks', abv) == None && AbvOf(ks', url) == None && DailyKey(abv) !in ks'
            && (b != abv ==> UrlOf(ks', b) == UrlOf(s.ks, b) && HitsOf(ks', b) == HitsOf(s.ks, b)
                             && DailyOf(ks', b) == DailyOf(s.ks, b))
            && (b != url ==> AbvOf(ks', b) == AbvOf(s.ks, b))
  {
    EraseTxEffect(s.ks, abv, url, abv);
    EraseTxEffect(s.ks, abv, url, url);
    EraseTxEffect(s.ks, abv, url, b);
  }

  /** The keys after an uninterrupted DeleteAbv. */
  function Deleted(ks: Keys, abv: string): Keys {
    match UrlOf(ks, abv) case Some(url) => EraseTx(ks, abv, url) case None => ks
  }

  lemma StatsNameTheirAbv(ks: Keys, abv: string)
    requires Typed(ks) && AbvKey(abv) in ks
    ensures GetStats(ks, abv).Ok? && GetStats(ks, abv).value.abv == abv
  {
  }

  /** A delete removes the record exactly when it has a URL: a record that a late hit update has
      recreated has none, and cannot be deleted. */
  lemma DeleteRemovesIffUrl(ks: Keys, abv: string)
    requires Typed(ks)
    ensures AbvKey(abv) !in Deleted(ks, abv) <==> AbvKey(abv) !in ks || UrlOf(ks, abv).Some?
    ensures abv != "" ==> (GetStats(Deleted(ks, abv), abv) == ShortUrlDao.Ok(NO_STATS)
                           <==> AbvKey(abv) !in ks || UrlOf(ks, abv).Some?)
  {
    match UrlOf(ks, abv)
    case Some(url) => EraseTxEffect(ks, abv, url, abv);
    case None =>
      assert AbvKey(abv) in ks ==> TypedRecord(ks[AbvKey(abv)]);
      if AbvKey(abv) in ks {
        StatsNameTheirAbv(ks, abv);
      }
  }

  /** A hit update performed when the record is gone recreates it, without a URL. */
  lemma LateHitRecreatesARecord(s: State, abv: string, date: Date, stamp: string)
    requires Typed(s.ks) && Hit(abv) in s.tasks && AbvKey(abv) !in s.ks
    ensures var ks := Do(s, Exec(Hit(abv), date, stamp)).ks;
            AbvKey(abv) in ks && UrlOf(ks, abv) == None && HitsOf(ks, abv) == 1
  {
    HitTxEffect(s.ks, abv, date, stamp, abv);
  }

  predicate StoresAbv(step: Step, abv: string) {
    step.Exec? && step.task.Store? && step.task.abv == abv
  }

  ghost predicate NeverStored(steps: seq<Step>, abv: string) {
    forall i | 0 <= i < |steps| :: !StoresAbv(steps[i], abv)
  }

  ghost predicate GoneForGood(s: State, abv: string) {
    Typed(s.ks) && AbvKey(abv) !in s.ks && Hit(abv) !in s.tasks
  }

  lemma StepLeavesItGone(s: State, step: Step, abv: string)
    requires GoneForGood(s, abv) && !StoresAbv(step, abv)
    ensures GoneForGood(Do(s, step), abv)
  {
    DoKeepsTypes(s, step);
    assert UrlOf(s.ks, abv) == None;
    hide Typed, HitTx, StoreTx, EraseTx, UrlOf, AbvOf;
    match Performed(s, step)
    case Some(Hit(a)) => HitTxEffect(s.ks, a, step.date, step.stamp, abv);
    case Some(Store(a, url)) => StoreTxEffect(s.ks, a, url, abv);
    case Some(Erase(a, url)) => EraseTxEffect(s.ks, a, url, abv);
    case None =>
  }

  lemma {:induction false} RunLeavesItGone(s: State, steps: seq<Step>, abv: string)
    requires GoneForGood(s, abv) && NeverStored(steps, abv)
    ensures GoneForGood(After(s, steps), abv)
  {
    if steps == [] {
    } else {
      hide GoneForGood, Do;
      RunLeavesItGone(s, steps[..|steps| - 1], abv);
      StepLeavesItGone(After(s, steps[..|steps| - 1]), steps[|steps| - 1], abv);
    }
  }

  /** When a deleted record stays deleted: whatever others do short of storing the abbreviation
      again, it does so if and only if no hit update of it is outstanding. */
  lemma StaysDeletedIffNoLateHit(s: State, abv: string)
    requires Typed(s.ks) && AbvKey(abv) !in s.ks
    ensures (forall steps :: NeverStored(steps, abv) ==> AbvKey(abv) !in After(s, steps).ks)
       <==> Hit(abv) !in s.tasks
  {
    if Hit(abv) in s.tasks {
      var steps := [Exec(Hit(abv), "", "")];
      assert steps[..0] == [];
      LateHitRecreatesARecord(s, abv, "", "");
      assert After(s, steps) == Do(s, steps[0]);
      assert NeverStored(steps, abv);
    } else {
      forall steps | NeverStored(steps, abv)
        ensures AbvKey(abv) !in After(s, steps).ks
      {
        RunLeavesItGone(s, steps, abv);
      }
    }
  }

  /** Every stored abbreviation can end up so: a lookup, a delete, and then the late update. */
  lemma AnyRecordCanBeRecreated(s: State, abv: string, url: string, date: Date, stamp: string)
    requires Typed(s.ks) && UrlOf(s.ks, abv) == Some(url)
    ensures var deleting := Do(Do(s, Lookup(abv)), DeleteAbv(abv));
            var deleted := Do(deleting, Exec(Erase(abv, url), date, stamp));
            var ks := Do(deleted, Exec(Hit(abv), date, stamp)).ks;
            AbvKey(abv) !in deleted.ks && AbvKey(abv) in ks && UrlOf(ks, abv) == None && HitsOf(ks, abv) == 1
  {
    hide UrlOf, HitsOf, Typed, EraseTx, HitTx;
    EraseTxEffect(s.ks, abv, url, abv);
    EraseTxKeepsTypes(s.ks, abv, url);
    var deleting := Do(Do(s, Lookup(abv)), DeleteAbv(abv));
    assert deleting == State(s.ks, s.tasks + multiset{Hit(abv)} + multiset{Erase(abv, url)});
    var deleted := Do(deleting, Exec(Erase(abv, url), date, stamp));
    assert deleted.ks == EraseTx(s.ks, abv, url) && Hit(abv) in deleted.tasks;
    LateHitRecreatesARecord(deleted, abv, date, stamp);
  }
}

/** When the two kinds of Redis keys, abbreviation records and URL keys, stay inverse to each other
    although saves and deletes read in one step and write in another. */
module RedisPairing {
  import opened Model
  import opened RedisKeys
  import opened RedisRuns

  /** A record names a URL exactly when that URL's key names the record's abbreviation. */
  ghost predicate Paired(ks: Keys) {
    forall abv, url :: UrlOf(ks, abv) == Some(url) <==> AbvOf(ks, url) == Some(abv)
  }

  /** The abbreviation and the URL are unbound, or bound to each other. */
  predicate PairFits(ks: Keys, abv: string, url: string) {
    UrlOf(ks, abv) in {None, Some(url)} && AbvOf(ks, url) in {None, Some(abv)}
  }

  predicate Fits(ks: Keys, task: Task) {
    task.Hit? || PairFits(ks, task.abv, task.url)
  }

  lemma StoreKeepsPairing(ks: Keys, abv: string, url: string)
    requires Typed(ks) && Paired(ks)
    ensures Paired(StoreTx(ks, abv, url)) <==> PairFits(ks, abv, url)
  {
    var ks' := StoreTx(ks, abv, url);
    hide Typed, UrlOf, AbvOf, HitsOf, DailyOf, StoreTx;
    StoreTxEffect(ks, abv, url, abv);
    StoreTxEffect(ks, abv, url, url);
    if PairFits(ks, abv, url) {
      forall a, u
        ensures UrlOf(ks', a) == Some(u) <==> AbvOf(ks', u) == Some(a)
      {
        StoreTxEffect(ks, abv, url, a);
        StoreTxEffect(ks, abv, url, u);
      }
    } else {
      match UrlOf(ks, abv)
      case Some(u) => StoreTxEffect(ks, abv, url, u);
      case None =>
      match AbvOf(ks, url)
      case Some(a) => StoreTxEffect(ks, abv, url, a);
      case None =>
    }
  }

  lemma EraseKeepsPairing(ks: Keys, abv: string, url: string)
    requires Paired(ks)
    ensures Paired(EraseTx(ks, abv, url)) <==> PairFits(ks, abv, url)
  {
    var ks' := EraseTx(ks, abv, url);
    hide UrlOf, AbvOf, HitsOf, DailyOf, EraseTx;
    EraseTxEffect(ks, abv, url, abv);
    EraseTxEffect(ks, abv, url, url);
    if PairFits(ks, abv, url) {
      forall a, u
        ensures UrlOf(ks', a) == Some(u) <==> AbvOf(ks', u) == Some(a)
      {
        EraseTxEffect(ks, abv, url, a);
        EraseTxEffect(ks, abv, url, u);
      }
    } else {
      match UrlOf(ks, abv)
      case Some(u) => EraseTxEffect(ks, abv, url, u);
      case None =>
      match AbvOf(ks, url)
      case Some(a) => EraseTxEffect(ks, abv, url, a);
      case None =>
    }
  }

  lemma HitKeepsPairing(ks: Keys, abv: string, date: Date, stamp: string)
    requires Typed(ks) && Paired(ks)
    ensures Paired(HitTx(ks, abv, date, stamp))
  {
    var ks' := HitTx(ks, abv, date, stamp);
    hide Typed, UrlOf, AbvOf, HitsOf, DailyOf, HitTx;
    forall a, u
      ensures UrlOf(ks', a) == Some(u) <==> AbvOf(ks', u) == Some(a)
    {
      HitTxEffect(ks, abv, date, stamp, a);
      HitTxEffect(ks, abv, date, stamp, u);
    }
  }

  /** A transaction keeps the keys inverse if and only if the pair that it stores or erases is, when
      it runs, unbound or bound to each other. */
  lemma TransactionKeepsPairing(ks: Keys, task: Task, date: Date, stamp: string)
    requires Typed(ks) && Paired(ks)
    ensures Paired(Perform(ks, task, date, stamp)) <==> Fits(ks, task)
  {
    hide Paired, PairFits, Typed;
    match task
    case Hit(abv) => HitKeepsPairing(ks, abv, date, stamp);
    case Store(abv, url) => StoreKeepsPairing(ks, abv, url);
    case Erase(abv, url) => EraseKeepsPairing(ks, abv, url);
  }

  /** What the step performs, if anything, fits the keys that it meets. */
  predicate StepFits(s: State, step: Step) {
    step.Exec? && step.task in s.tasks ==> Fits(s.ks, step.task)
  }

  lemma StepKeepsPairing(s: State, step: Step)
    requires Typed(s.ks) && Paired(s.ks)
    ensures Paired(Do(s, step).ks) <==> StepFits(s, step)
  {
    if step.Exec? && step.task in s.tasks {
      hide Paired, Fits, Typed, Perform;
      TransactionKeepsPairing(s.ks, step.task, step.date, step.stamp);
    } else {
      hide Paired;
      assert Do(s, step).ks == s.ks;
    }
  }

  /** The state before step i of a run. */
  function Before(s: State, steps: seq<Step>, i: nat): State
    requires i <= |steps|
  {
    After(s, steps[..i])
  }

  lemma NextState(s: State, steps: seq<Step>, i: nat)
    requires Typed(s.ks) && i < |steps|
    ensures Before(s, steps, i + 1) == Do(Before(s, steps, i), steps[i])
    ensures Typed(Before(s, steps, i).ks)
  {
    hide Do, Typed;
    assert steps[..i + 1][..i] == steps[..i];
    DailyHitsCountUpdates(s, steps[..i], "");
  }

  ghost predicate AlwaysPaired(s: State, steps: seq<Step>) {
    forall i | 0 <= i <= |steps| :: Paired(Before(s, steps, i).ks)
  }

  ghost predicate AlwaysFits(s: State, steps: seq<Step>) {
    forall i | 0 <= i < |steps| :: StepFits(Before(s, steps, i), steps[i])
  }

  lemma {:induction false} FittingRunsArePaired(s: State, steps: seq<Step>, k: nat)
    requires Typed(s.ks) && Paired(s.ks) && AlwaysFits(s, steps) && k <= |steps|
    ensures Paired(Before(s, steps, k).ks)
  {
    if k == 0 {
      assert Before(s, steps, 0) == s;
    } else {
      FittingRunsArePaired(s, steps, k - 1);
      NextState(s, steps, k - 1);
      hide Paired, Typed, Before, Do;
      StepKeepsPairing(Before(s, steps, k - 1), steps[k - 1]);
    }
  }

  /** In every interleaving the keys are inverse before and after each step if and only if each
      transaction fits the keys that it meets. */
  lemma RunStaysPairedIffItsTransactionsFit(s: State, steps: seq<Step>)
    requires Typed(s.ks) && Paired(s.ks)
    ensures AlwaysPaired(s, steps) <==> AlwaysFits(s, steps)
  {
    hide Paired, StepFits, Typed, Before, Do;
    if AlwaysFits(s, steps) {
      forall i | 0 <= i <= |steps|
        ensures Paired(Before(s, steps, i).ks)
      {
        FittingRunsArePaired(s, steps, i);
      }
    }
    if AlwaysPaired(s, steps) {
      forall i | 0 <= i < |steps|
        ensures StepFits(Before(s, steps, i), steps[i])
      {
        NextState(s, steps, i);
        StepKeepsPairing(Before(s, steps, i), steps[i]);
      }
    }
  }

  lemma BoundTwiceIsUnpaired(ks: Keys, abv: string, url: string, url': string)
    requires AbvOf(ks, url) == Some(abv) && UrlOf(ks, abv) == Some(url') && url != url'
    ensures !Paired(ks)
  {
    hide UrlOf, AbvOf;
    assert !(UrlOf(ks, abv) == Some(url) <==> AbvOf(ks, url) == Some(abv));
  }

  lemma BothSavesPass(s: State, abv: string, url: string, url': string)
    requires Typed(s.ks) && UrlOf(s.ks, abv) == None
    ensures Do(Do(s, Save(abv, url)), Save(abv, url')) == Queue(Queue(s, Store(abv, url)), Store(abv, url'))
  {
  }

  /** Two saves of a free abbreviation with different URLs both pass their check; both URL keys then
      name the abbreviation, whose record names the second URL. */
  lemma RacingSavesUnpair(s: State, abv: string, url: string, url': string)
    requires Typed(s.ks) && UrlOf(s.ks, abv) == None && url != url'
    ensures var checked := Do(Do(s, Save(abv, url)), Save(abv, url'));
            var stored := Do(Do(checked, Exec(Store(abv, url), "", "")), Exec(Store(abv, url'), "", ""));
            && stored.tasks == s.tasks
            && AbvOf(stored.ks, url) == AbvOf(stored.ks, url') == Some(abv) && UrlOf(stored.ks, abv) == Some(url')
            && !Paired(stored.ks)
  {
    hide Do, Typed, Paired, UrlOf, AbvOf, HitsOf, DailyOf, StoreTx, MaySave, AbvKey, DailyKey;
    var checked := Do(Do(s, Save(abv, url)), Save(abv, url'));
    BothSavesPass(s, abv, url, url');
    ExecRunsTheTask(checked, Store(abv, url), "", "");
    var first := Do(checked, Exec(Store(abv, url), "", ""));
    ExecRunsTheTask(first, Store(abv, url'), "", "");
    StoreTxEffect(s.ks, abv, url, url);
    StoreTxKeepsTypes(s.ks, abv, url);
    StoreTxEffect(first.ks, abv, url', url);
    StoreTxEffect(first.ks, abv, url', url');
    StoreTxEffect(first.ks, abv, url', abv);
    var ks := Do(first, Exec(Store(abv, url'), "", "")).ks;
    BoundTwiceIsUnpaired(ks, abv, url, url');
  }
}

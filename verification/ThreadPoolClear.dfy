/** The end of `stopJavaScriptThreads`: the set is cleared without the mutex.  Getting at the set runs
    the assertion that `tryLock` on the mutex fails, which it does exactly when somebody holds it. */
module ThreadPoolClear {
  import opened Wrappers
  import opened ThreadPool
  import opened ThreadPoolStop

  /** A worker holds the mutex and still has its removal from the set, or the insertion of its
      replacement, to do. */
  ghost predicate UsesSet(s: State, t: Tid) {
    s.holder == Some(t) && t in s.place && Replacing(s.place[t])
  }

  /** In every continuation the clear meets no other access to the set. */
  ghost predicate ClearsUnraced(s: State) {
    forall steps, t :: Possible(s, steps) && Enabled(Run(s, steps), Clear) ==> !UsesSet(Run(s, steps), t)
  }

  /** In every continuation the set is empty from the stop on. */
  ghost predicate StaysCleared(s: State) {
    forall steps :: Possible(s, steps) && Run(s, steps).main.Stopped? ==> Run(s, steps).pool == {}
  }

  lemma ReplacedAfterClear(s: State, t: Tid, s': State)
    requires s.main.Stopped? && s.pool == {} && t in s.place
    requires s' == AddOne(s.(pool := s.pool - {t}, place := s.place[t := Add]), t)
    ensures s'.main.Stopped? && s'.pool == {s.nextId} && s.nextId in s'.place && s'.place[s.nextId] == CreateContext
  {
  }

  /** The set is cleared and then gets the replacement of `t`. */
  lemma ClearAndReplace(s: State, t: Tid, w: Step)
    requires Enabled(s, Clear) && s.holder == Some(t) && t in s.place && s.place[t] == Remove && w == Work(t, true)
    ensures Possible(s, [Clear] + [w, w])
    ensures var s' := Run(s, [Clear] + [w, w]);
            && s'.main.Stopped? && s'.pool == {s.nextId}
            && s.nextId in s'.place && s'.place[s.nextId] == CreateContext
  {
    var s1 := Apply(s, Clear);
    RunOne(s, Clear);
    ReplaceRun(s1, t);
    ReplacedAfterClear(s1, t, Run(s1, [w, w]));
    RunAppend(s, [Clear], [w, w]);
  }

  /** A worker past the check at the copy can be left holding the mutex when the set is cleared, and
      then adds its replacement to the cleared set. */
  lemma SetRefilled(s: State, t: Tid) returns (steps: seq<Step>, u: Tid)
    requires JustCopied(s) && PastCheck(s, t)
    ensures Possible(s, steps)
    ensures var s' := Run(s, steps); s'.main.Stopped? && s'.pool == {u} && u in s'.place && s'.place[u] == CreateContext
  {
    var w := Work(t, true);
    var race := ClearAgainst(s, t);
    var s1 := Run(s, race);
    ClearAndReplace(s1, t, w);
    RunAppend(s, race, [Clear] + [w, w]);
    steps, u := race + ([Clear] + [w, w]), s1.nextId;
  }

  /** Right after the set is copied: the clear is unraced in every continuation exactly when no
      worker is between its look at the flag and its loop's end; and under the same condition exactly
      the set stays empty after the stop. */
  lemma ClearIsSafeExactly(s: State)
    requires JustCopied(s)
    ensures ClearsUnraced(s) <==> NobodyLate(s)
    ensures StaysCleared(s) <==> NobodyLate(s)
  {
    if NobodyLate(s) {
      forall steps, t | Possible(s, steps) && Enabled(Run(s, steps), Clear) ensures !UsesSet(Run(s, steps), t) {
        QuietRun(s, steps);
        assert !PastCheck(Run(s, steps), t);
      }
      forall steps | Possible(s, steps) && Run(s, steps).main.Stopped? ensures Run(s, steps).pool == {} {
        QuietRun(s, steps);
      }
    } else {
      var t :| PastCheck(s, t);
      var race := ClearAgainst(s, t);
      assert UsesSet(Run(s, race), t);
      var steps, u := SetRefilled(s, t);
      assert u in Run(s, steps).pool;
    }
  }

  /** Both can be reached from the start: a clear while a worker is about to remove itself, and a set
      that is not empty after the stop. */
  lemma RaceIsReachable() returns (race: seq<Step>, refilled: seq<Step>)
    ensures Possible(INIT, race) && Enabled(Run(INIT, race), Clear) && UsesSet(Run(INIT, race), 0)
    ensures Possible(INIT, refilled) && Run(INIT, refilled).main.Stopped? && Run(INIT, refilled).pool != {}
  {
    var start, s := LateWorkerIsReachable();
    var rest := ClearAgainst(s, 0);
    RunAppend(INIT, start, rest);
    race := start + rest;
    var more, u := SetRefilled(s, 0);
    RunAppend(INIT, start, more);
    refilled := start + more;
    assert u in Run(INIT, refilled).pool;
  }

  // ----- The assertion that the mutex is held -----

  /** `tryLock` fails. */
  ghost predicate AssertionHolds(s: State) {
    s.holder.Some?
  }

  ghost predicate AssertionAlwaysFails(s: State) {
    forall steps :: Possible(s, steps) && Enabled(Run(s, steps), Clear) ==> !AssertionHolds(Run(s, steps))
  }

  /** A worker the stopper does not wait for can be inside a critical section at the clear. */
  lemma AssertionCanHold(s: State, t: Tid) returns (steps: seq<Step>)
    requires JustCopied(s) && Straggler(s, t)
    ensures Possible(s, steps) && Enabled(Run(s, steps), Clear) && AssertionHolds(Run(s, steps))
  {
    if PastCheck(s, t) {
      steps := ClearAgainst(s, t);
    } else {
      CopyIsAttached(s);
      steps := ReadyToClear(s, t);
      RunThen(s, steps, Work(t, false));
      steps := steps + [Work(t, false)];
    }
  }

  /** From every copy there is a run in which the assertion fails; it fails in all of them exactly
      when there were no stragglers at the copy. */
  lemma AssertionFailsExactly(s: State)
    requires JustCopied(s)
    ensures exists steps :: Possible(s, steps) && Enabled(Run(s, steps), Clear) && !AssertionHolds(Run(s, steps))
    ensures AssertionAlwaysFails(s) <==> NoStragglers(s)
  {
    CopyIsAttached(s);
    var free := ReadyToClear(s, s.nextId);
    assert !AssertionHolds(Run(s, free));
    if NoStragglers(s) {
      forall steps | Possible(s, steps) && Enabled(Run(s, steps), Clear) ensures !AssertionHolds(Run(s, steps)) {
        NoStragglersSuffice(s, steps);
        RunKeepsInv(s, steps);
      }
    } else {
      var t :| Straggler(s, t);
      var steps := AssertionCanHold(s, t);
      assert !AssertionAlwaysFails(s);
    }
  }

  /** Both outcomes of the assertion can be reached from the start. */
  lemma BothOutcomesReachable() returns (holds: seq<Step>, fails: seq<Step>)
    ensures Possible(INIT, holds) && Enabled(Run(INIT, holds), Clear) && AssertionHolds(Run(INIT, holds))
    ensures Possible(INIT, fails) && Enabled(Run(INIT, fails), Clear) && !AssertionHolds(Run(INIT, fails))
  {
    var start, s := LateWorkerIsReachable();
    CopyIsAttached(s);
    var rest := AssertionCanHold(s, 0);
    RunAppend(INIT, start, rest);
    holds := start + rest;
    var free := ReadyToClear(s, s.nextId);
    RunAppend(INIT, start, free);
    fails := start + free;
  }
}

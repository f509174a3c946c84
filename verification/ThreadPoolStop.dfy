/** What `stopJavaScriptThreads` waits for: the threads of the copy it made of the set. */
module ThreadPoolStop {
  import opened Wrappers
  import opened Sequences
  import opened ThreadPool

  /** The stopper has just copied the set and released the mutex. */
  ghost predicate JustCopied(s: State) {
    Inv(s) && s.main.Waiting? && s.main.next == 0 && s.holder.None? && CopyOf(s.main.threads, s.pool)
  }

  lemma CopyIsAttached(s: State)
    requires JustCopied(s)
    ensures forall t :: t in s.main.threads <==> t in s.place && t !in s.detached
  {
    FreePool(s);
  }

  // ----- Runs in which nobody is past the check -----

  /** The set is cleared when the stopper is through. */
  ghost predicate EmptyIfStopped(s: State) {
    s.main.Waiting? || (s.main.Stopped? && s.pool == {})
  }

  /** What does not change from one quiet state to a later one. */
  ghost predicate SameThreads(s: State, s': State) {
    && s'.detached == s.detached && s'.place.Keys == s.place.Keys
    && (s'.main.Waiting? ==> s.main.Waiting? && s'.main.threads == s.main.threads)
  }

  lemma QuietWork(s: State, t: Tid, respawn: bool, s': State)
    requires HolderInv(s) && Enabled(s, Work(t, respawn)) && !PastCheck(s, t) && s' == Work1(s, t, respawn)
    ensures SameThreads(s, s') && s'.pool == s.pool && s'.main == s.main
  {
  }

  lemma QuietStep(s: State, step: Step, s': State)
    requires HolderInv(s) && EmptyIfStopped(s) && NobodyLate(s) && Enabled(s, step) && s' == Apply(s, step)
    ensures SameThreads(s, s') && EmptyIfStopped(s')
  {
    if step.Work? {
      assert !PastCheck(s, step.t);
      QuietWork(s, step.t, step.respawn, s');
    }
  }

  /** The flag is up and nobody is past the check any more. */
  ghost predicate Quiet(s: State) {
    Inv(s) && s.terminate && NobodyLate(s) && EmptyIfStopped(s)
  }

  lemma QuietNext(s: State, step: Step, s': State)
    requires Quiet(s) && Enabled(s, step) && s' == Apply(s, step)
    ensures Quiet(s') && SameThreads(s, s')
  {
    StepKeepsInv(s, step);
    NobodyPassesCheck(s, step);
    QuietStep(s, step, s');
  }

  lemma {:induction false} QuietRun(s: State, steps: seq<Step>)
    requires Quiet(s) && Possible(s, steps)
    ensures Quiet(Run(s, steps)) && SameThreads(s, Run(s, steps))
    decreases steps
  {
    if steps != [] {
      var s' := Apply(s, steps[0]);
      QuietNext(s, steps[0], s');
      QuietRun(s', steps[1..]);
    }
  }

  ghost predicate Done(s: State, t: Tid) {
    t in s.place && s.place[t] == Finished
  }

  /** The stopper still waits for `threads`, or it is through and they have finished. */
  ghost predicate WaitsFor(s: State, threads: seq<Tid>) {
    || (s.main.Waiting? && s.main.threads == threads)
    || (s.main.Stopped? && forall t :: t in threads ==> Done(s, t))
  }

  lemma AllJoined(s: State, t: Tid)
    requires Inv(s) && Enabled(s, Clear) && t in s.main.threads && t !in s.detached
    ensures Done(s, t)
  {
    var i :| 0 <= i < |s.main.threads| && s.main.threads[i] == t;
    assert Joined(s, s.main.threads[i]);
  }

  lemma CopyStaysStep(s: State, step: Step)
    requires Enabled(s, step) && (s.main.Waiting? || s.main.Stopped?)
    ensures var s' := Apply(s, step);
            && (s'.main.Waiting? || s'.main.Stopped?)
            && (s'.main.Waiting? ==> s.main.Waiting? && s'.main.threads == s.main.threads)
            && (s'.main.Stopped? ==> s.main.Stopped? || step.Clear?)
  {
    if step.Work? {
      assert Work1(s, step.t, step.respawn).main == s.main;
    }
  }

  lemma ClearWaits(s: State, threads: seq<Tid>)
    requires Inv(s) && Enabled(s, Clear) && s.main.threads == threads && forall t :: t in threads ==> t !in s.detached
    ensures WaitsFor(Apply(s, Clear), threads)
  {
    forall t | t in threads ensures Done(s, t) {
      AllJoined(s, t);
    }
  }

  lemma QuietStepWaits(s: State, step: Step, threads: seq<Tid>)
    requires Inv(s) && s.terminate && Enabled(s, step)
    requires WaitsFor(s, threads) && forall t :: t in threads ==> t !in s.detached
    ensures WaitsFor(Apply(s, step), threads)
  {
    if step.Clear? {
      ClearWaits(s, threads);
    } else if s.main.Stopped? {
      forall t | t in threads ensures Done(Apply(s, step), t) {
        DoneStep(s, step, t);
      }
    } else {
      CopyStaysStep(s, step);
    }
  }

  lemma {:induction false} QuietRunWaits(s: State, steps: seq<Step>, threads: seq<Tid>)
    requires Quiet(s) && Possible(s, steps)
    requires WaitsFor(s, threads) && forall t :: t in threads ==> t !in s.detached
    ensures WaitsFor(Run(s, steps), threads)
    decreases steps
  {
    if steps != [] {
      var s' := Apply(s, steps[0]);
      QuietNext(s, steps[0], s');
      QuietStepWaits(s, steps[0], threads);
      QuietRunWaits(s', steps[1..], threads);
    }
  }

  lemma DoneStep(s: State, step: Step, t: Tid)
    requires Inv(s) && s.terminate && Enabled(s, step) && Done(s, t)
    ensures Done(Apply(s, step), t) && Apply(s, step).terminate
  {
    assert !step.Start? && s.holder != Some(t);
  }

  lemma {:induction false} DoneStaysDone(s: State, steps: seq<Step>, t: Tid)
    requires Inv(s) && s.terminate && Possible(s, steps) && Done(s, t)
    ensures Done(Run(s, steps), t)
    decreases steps
  {
    if steps != [] {
      StepKeepsInv(s, steps[0]);
      DoneStep(s, steps[0], t);
      DoneStaysDone(Apply(s, steps[0]), steps[1..], t);
    }
  }

  // ----- Putting runs together -----

  lemma {:induction false} RunAppend(s: State, a: seq<Step>, b: seq<Step>)
    requires Possible(s, a) && Possible(Run(s, a), b)
    ensures Possible(s, a + b) && Run(s, a + b) == Run(Run(s, a), b)
    decreases a
  {
    if a == [] {
      assert a + b == b;
    } else {
      assert (a + b)[1..] == a[1..] + b;
      RunAppend(Apply(s, a[0]), a[1..], b);
    }
  }

  lemma RunOne(s: State, step: Step)
    requires Enabled(s, step)
    ensures Possible(s, [step]) && Run(s, [step]) == Apply(s, step)
  {
    assert [step][1..] == [];
    assert Possible(Apply(s, step), []);
  }

  lemma RunThen(s: State, steps: seq<Step>, step: Step)
    requires Possible(s, steps) && Enabled(Run(s, steps), step)
    ensures Possible(s, steps + [step]) && Run(s, steps + [step]) == Apply(Run(s, steps), step)
  {
    RunOne(Run(s, steps), step);
    RunAppend(s, steps, [step]);
  }

  lemma RunTwo(s: State, a: Step, b: Step)
    requires Enabled(s, a) && Enabled(Apply(s, a), b)
    ensures Possible(s, [a, b]) && Run(s, [a, b]) == Apply(Apply(s, a), b)
  {
    RunOne(s, a);
    RunThen(s, [a], b);
    assert [a] + [b] == [a, b];
  }

  // ----- Whole critical sections -----

  /** What a worker's next critical section, or its toss, does as a whole. */
  function Section(s: State, t: Tid, respawn: bool): State
    requires t in s.place && s.place[t] != Finished
  {
    if s.place[t] == Toss then Work1(s, t, respawn)
    else if s.place[t] == Respawn then
      s.(place := s.place[t := CleanUp][s.nextId := CreateContext], nextId := s.nextId + 1,
         pool := s.pool - {t} + {s.nextId}, detached := s.detached + {t})
    else Inside(s.(holder := Some(t)), t)
  }

  /** A worker takes the mutex and detaches itself. */
  lemma DetachRun(s: State, t: Tid)
    requires t in s.place && s.place[t] == Respawn && s.holder.None?
    ensures Possible(s, [Work(t, true), Work(t, true)])
    ensures Run(s, [Work(t, true), Work(t, true)]) == Detach(s, t).(holder := Some(t))
  {
    RunTwo(s, Work(t, true), Work(t, true));
  }

  /** A worker that has detached itself removes itself from the set and adds its replacement. */
  lemma ReplaceRun(s: State, t: Tid)
    requires t in s.place && s.place[t] == Remove && s.holder == Some(t)
    ensures Possible(s, [Work(t, true), Work(t, true)])
    ensures Run(s, [Work(t, true), Work(t, true)]) ==
            AddOne(s.(pool := s.pool - {t}, place := s.place[t := Add]), t)
  {
    RunTwo(s, Work(t, true), Work(t, true));
  }

  lemma RespawnRuns(s: State, t: Tid, w: Step)
    requires t in s.place && s.place[t] == Respawn && s.holder.None? && w == Work(t, true)
    ensures Possible(s, [w, w] + [w, w]) && Run(s, [w, w] + [w, w]) == Section(s, t, true)
  {
    DetachRun(s, t);
    var s1 := Run(s, [w, w]);
    ReplaceRun(s1, t);
    RunAppend(s, [w, w], [w, w]);
    assert s.place[t := Remove][t := Add][t := CleanUp] == s.place[t := CleanUp];
  }

  lemma SectionRuns(s: State, t: Tid, respawn: bool) returns (steps: seq<Step>)
    requires HolderInv(s) && s.holder.None? && t in s.place && s.place[t] != Finished
    ensures Possible(s, steps) && Run(s, steps) == Section(s, t, respawn)
  {
    var w := Work(t, respawn);
    if s.place[t] == Toss {
      RunOne(s, w);
      steps := [w];
    } else if s.place[t] == Respawn {
      w := Work(t, true);
      RespawnRuns(s, t, w);
      steps := [w, w] + [w, w];
    } else {
      RunTwo(s, w, w);
      steps := [w, w];
    }
  }

  // ----- Every stop goes through a copy -----

  ghost predicate BeforeCopy(s: State) {
    s.main.BeforeStart? || s.main.Started? || s.main.Raised?
  }

  lemma StepBeforeCopy(s: State, step: Step, s': State)
    requires BeforeCopy(s) && Enabled(s, step) && s' == Apply(s, step)
    ensures if step.Snapshot? then s'.main == Waiting(step.threads, 0) && s'.pool == s.pool && s'.holder == s.holder
            else BeforeCopy(s')
  {
    if step.Work? {
      assert s'.main == s.main;
    }
  }

  lemma CopyStep(s: State, step: Step, s': State)
    requires Inv(s) && BeforeCopy(s) && Enabled(s, step) && s' == Apply(s, step)
    ensures Inv(s') && (BeforeCopy(s') || JustCopied(s'))
  {
    StepBeforeCopy(s, step, s');
    if step.Snapshot? {
      SnapshotKeepsInv(s, step.threads);
    } else {
      StepKeepsInv(s, step);
    }
  }

  /** The steps are those of a run to a copy, `a`, and of a continuation of it. */
  ghost predicate ThroughCopy(s: State, steps: seq<Step>, a: seq<Step>, b: seq<Step>)
    requires Possible(s, steps)
  {
    && steps == a + b && Possible(s, a) && JustCopied(Run(s, a))
    && Possible(Run(s, a), b) && Run(s, steps) == Run(Run(s, a), b)
  }

  lemma CopyNow(s: State, steps: seq<Step>, a: seq<Step>, b: seq<Step>)
    requires Possible(s, steps) && steps != [] && JustCopied(Apply(s, steps[0])) && a == [steps[0]] && b == steps[1..]
    ensures ThroughCopy(s, steps, a, b)
  {
    RunOne(s, steps[0]);
  }

  lemma CopyLater(s: State, steps: seq<Step>, a: seq<Step>, b: seq<Step>)
    requires Possible(s, steps) && steps != [] && ThroughCopy(Apply(s, steps[0]), steps[1..], a, b)
    ensures ThroughCopy(s, steps, [steps[0]] + a, b)
  {
    var step := steps[0];
    RunOne(s, step);
    RunAppend(s, [step], a);
    Regroup([step], a, b);
    assert steps == [step] + steps[1..];
  }

  /** Every run to the stopper's wait or return goes through a copy. */
  lemma {:induction false} CopiedBefore(s: State, steps: seq<Step>) returns (a: seq<Step>, b: seq<Step>)
    requires Inv(s) && BeforeCopy(s) && Possible(s, steps) && !BeforeCopy(Run(s, steps))
    ensures ThroughCopy(s, steps, a, b)
    decreases steps
  {
    var s' := Apply(s, steps[0]);
    CopyStep(s, steps[0], s');
    if BeforeCopy(s') {
      var c, d := CopiedBefore(s', steps[1..]);
      CopyLater(s, steps, c, d);
      a, b := [steps[0]] + c, d;
    } else {
      a, b := [steps[0]], steps[1..];
      CopyNow(s, steps, a, b);
    }
  }

  // ----- Bringing the stopper to its end -----

  lemma JoinedStep(s: State, step: Step, t: Tid)
    requires Inv(s) && s.terminate && Enabled(s, step) && Joined(s, t)
    ensures Joined(Apply(s, step), t) && Apply(s, step).terminate
  {
    assert !step.Start?;
  }

  lemma {:induction false} JoinedStays(s: State, steps: seq<Step>, t: Tid)
    requires Inv(s) && s.terminate && Possible(s, steps) && Joined(s, t)
    ensures Joined(Run(s, steps), t)
    decreases steps
  {
    if steps != [] {
      StepKeepsInv(s, steps[0]);
      JoinedStep(s, steps[0], t);
      JoinedStays(Apply(s, steps[0]), steps[1..], t);
    }
  }

  /** `s'` is a later state with the mutex free in which `u` is where it was. */
  ghost predicate Meanwhile(s: State, s': State, u: Tid) {
    && Inv(s') && s'.terminate && s'.main == s.main && s'.holder.None?
    && (u in s.place ==> u in s'.place && s'.place[u] == s.place[u])
  }

  lemma SectionMeanwhile(s: State, t: Tid, u: Tid, s': State)
    requires HolderInv(s) && s.terminate && s.holder.None? && t in s.place && s.place[t] != Finished && t != u
    requires WorkersInv(s) && s' == Section(s, t, false) && Inv(s')
    ensures Meanwhile(s, s', u)
  {
  }

  lemma SectionProgress(s: State, t: Tid, s': State)
    requires HolderInv(s) && s.terminate && s.holder.None? && t in s.place && s.place[t] != Finished
    requires s.nextId != t && s' == Section(s, t, false)
    ensures t in s'.place && (t in s'.detached || Weight(s'.place[t], false) < Weight(s.place[t], false))
  {
  }

  /** `t` can be brought to where a join of it returns, without `u` taking a step. */
  lemma {:induction false} Drive(s: State, t: Tid, u: Tid) returns (steps: seq<Step>)
    requires Inv(s) && s.terminate && s.holder.None? && t in s.place && t != u
    ensures Possible(s, steps) && Meanwhile(s, Run(s, steps), u) && Joined(Run(s, steps), t)
    decreases Weight(s.place[t], false)
  {
    if Joined(s, t) {
      steps := [];
    } else {
      steps := SectionRuns(s, t, false);
      var s' := Run(s, steps);
      RunKeepsInv(s, steps);
      SectionMeanwhile(s, t, u, s');
      SectionProgress(s, t, s');
      if t !in s'.detached {
        var rest := Drive(s', t, u);
        RunAppend(s, steps, rest);
        steps := steps + rest;
      }
    }
  }

  /** The first `n` threads, all but `u`, are where a join of them returns. */
  ghost predicate JoinableBut(s: State, threads: seq<Tid>, n: nat, u: Tid)
    requires n <= |threads|
  {
    forall i :: 0 <= i < n && threads[i] != u ==> Joined(s, threads[i])
  }

  lemma JoinableStays(s: State, steps: seq<Step>, threads: seq<Tid>, n: nat, u: Tid)
    requires Inv(s) && s.terminate && Possible(s, steps) && n <= |threads| && JoinableBut(s, threads, n, u)
    ensures JoinableBut(Run(s, steps), threads, n, u)
  {
    forall i | 0 <= i < n && threads[i] != u ensures Joined(Run(s, steps), threads[i]) {
      JoinedStays(s, steps, threads[i]);
    }
  }

  /** One more thread. */
  lemma DriveNext(s: State, threads: seq<Tid>, n: nat, u: Tid) returns (steps: seq<Step>)
    requires Inv(s) && s.terminate && s.holder.None? && n < |threads| && threads[n] in s.place
    requires JoinableBut(s, threads, n, u)
    ensures Possible(s, steps) && Meanwhile(s, Run(s, steps), u) && JoinableBut(Run(s, steps), threads, n + 1, u)
  {
    if threads[n] == u {
      steps := [];
    } else {
      steps := Drive(s, threads[n], u);
      JoinableStays(s, steps, threads, n, u);
    }
  }

  lemma MeanwhileTwice(s: State, s1: State, s2: State, u: Tid)
    requires Meanwhile(s, s1, u) && Meanwhile(s1, s2, u)
    ensures Meanwhile(s, s2, u)
  {
  }

  /** The first `n` threads of the copy can be brought to where a join of them returns, all but `u`,
      and without `u` taking a step. */
  lemma {:induction false} DriveAll(s: State, n: nat, u: Tid) returns (steps: seq<Step>)
    requires Inv(s) && s.main.Waiting? && s.holder.None? && n <= THREADS_COUNT
    ensures Possible(s, steps) && Meanwhile(s, Run(s, steps), u)
    ensures JoinableBut(Run(s, steps), s.main.threads, n, u)
    decreases n
  {
    if n == 0 {
      steps := [];
    } else {
      var first := DriveAll(s, n - 1, u);
      var s1 := Run(s, first);
      var rest := DriveNext(s1, s.main.threads, n - 1, u);
      MeanwhileTwice(s, s1, Run(s1, rest), u);
      RunAppend(s, first, rest);
      steps := first + rest;
    }
  }

  /** Once every thread of the copy has finished or is detached, the stopper can join them all,
      whoever holds the mutex. */
  lemma {:induction false} JoinAll(s: State) returns (steps: seq<Step>)
    requires Inv(s) && s.main.Waiting?
    requires forall i :: 0 <= i < THREADS_COUNT ==> Joined(s, s.main.threads[i])
    ensures Possible(s, steps) && Run(s, steps) == s.(main := Waiting(s.main.threads, THREADS_COUNT))
    decreases THREADS_COUNT - s.main.next
  {
    if s.main.next == THREADS_COUNT {
      steps := [];
    } else {
      var s' := Apply(s, Join);
      StepKeepsInv(s, Join);
      RunOne(s, Join);
      forall i | 0 <= i < THREADS_COUNT ensures Joined(s', s.main.threads[i]) {
        assert Joined(s, s.main.threads[i]);
      }
      var rest := JoinAll(s');
      RunAppend(s, [Join], rest);
      steps := [Join] + rest;
    }
  }

  /** The stopper can come to its clear, with the mutex free, without `u`, a worker outside its
      copy, taking a step. */
  lemma ReadyToClear(s: State, u: Tid) returns (steps: seq<Step>)
    requires JustCopied(s) && u !in s.main.threads
    ensures Possible(s, steps)
    ensures var s' := Run(s, steps);
            Enabled(s', Clear) && s'.holder.None? && (u in s.place ==> u in s'.place && s'.place[u] == s.place[u])
  {
    var drive := DriveAll(s, THREADS_COUNT, u);
    var join := JoinAll(Run(s, drive));
    RunAppend(s, drive, join);
    steps := drive + join;
  }

  /** A worker of the copy about to respawn: the stopper can join everybody and come to its clear
      while that worker holds the mutex, detached and not yet out of the set. */
  lemma ClearAgainstRespawner(s: State, t: Tid) returns (steps: seq<Step>)
    requires JustCopied(s) && t in s.place && s.place[t] == Respawn
    ensures Possible(s, steps)
    ensures var s' := Run(s, steps);
            Inv(s') && Enabled(s', Clear) && s'.holder == Some(t) && t in s'.place && s'.place[t] == Remove
  {
    steps := DriveAll(s, THREADS_COUNT, t);
    var s1 := Run(s, steps);
    DetachRun(s1, t);
    var detach := [Work(t, true), Work(t, true)];
    var s2 := Run(s1, detach);
    RunKeepsInv(s1, detach);
    forall i | 0 <= i < THREADS_COUNT ensures Joined(s2, s.main.threads[i]) {
      assert s.main.threads[i] != t ==> Joined(s1, s.main.threads[i]);
    }
    var join := JoinAll(s2);
    RunKeepsInv(s2, join);
    RunAppend(s1, detach, join);
    RunAppend(s, steps, detach + join);
    steps := steps + (detach + join);
  }

  lemma ClearAgainst(s: State, t: Tid) returns (steps: seq<Step>)
    requires JustCopied(s) && PastCheck(s, t)
    ensures Possible(s, steps)
    ensures var s' := Run(s, steps);
            Inv(s') && Enabled(s', Clear) && s'.holder == Some(t) && t in s'.place && s'.place[t] == Remove
  {
    if s.place[t] == Respawn {
      steps := ClearAgainstRespawner(s, t);
    } else {
      var w := Work(t, true);
      assert s.place[t] == Toss;
      RunOne(s, w);
      StepKeepsInv(s, w);
      var rest := ClearAgainstRespawner(Apply(s, w), t);
      RunAppend(s, [w], rest);
      steps := [w] + rest;
    }
  }

  // ----- Joining -----

  /** Every thread of the copy can still be joined. */
  ghost predicate CopyJoinable(s: State) {
    s.main.Waiting? ==> forall t :: t in s.main.threads ==> t !in s.detached
  }

  ghost predicate StaysJoinable(s: State) {
    forall steps :: Possible(s, steps) ==> CopyJoinable(Run(s, steps))
  }

  /** No step changes what the stopper has copied. */
  lemma {:induction false} CopyStays(s: State, steps: seq<Step>)
    requires Inv(s) && Possible(s, steps) && (s.main.Waiting? || s.main.Stopped?)
    ensures var s' := Run(s, steps);
            && (s'.main.Waiting? || s'.main.Stopped?)
            && (s'.main.Waiting? ==> s.main.Waiting? && s'.main.threads == s.main.threads)
    decreases steps
  {
    if steps != [] {
      StepKeepsInv(s, steps[0]);
      CopyStaysStep(s, steps[0]);
      CopyStays(Apply(s, steps[0]), steps[1..]);
    }
  }

  lemma LateWorkerDetaches(s: State, t: Tid) returns (steps: seq<Step>)
    requires JustCopied(s) && PastCheck(s, t)
    ensures Possible(s, steps) && !CopyJoinable(Run(s, steps))
  {
    CopyIsAttached(s);
    steps := ClearAgainst(s, t);
    CopyStays(s, steps);
    assert t in s.main.threads && t in Run(s, steps).detached;
  }

  /** Right after the set is copied: no thread of the copy gets detached under the stopper, in any
      continuation, exactly when no worker is between its look at the flag and its loop's end. */
  lemma CopyStaysJoinableExactly(s: State)
    requires JustCopied(s)
    ensures StaysJoinable(s) <==> NobodyLate(s)
  {
    if NobodyLate(s) {
      CopyIsAttached(s);
      forall steps | Possible(s, steps) ensures CopyJoinable(Run(s, steps)) {
        QuietRun(s, steps);
      }
    } else {
      var t :| PastCheck(s, t);
      var steps := LateWorkerDetaches(s, t);
      assert !CopyJoinable(Run(s, steps));
    }
  }

  // ----- Waiting for all -----

  ghost predicate AllDone(s: State) {
    forall t :: t in s.place ==> s.place[t] == Finished
  }

  ghost predicate StopWaitsForAll(s: State) {
    forall steps :: Possible(s, steps) && Run(s, steps).main.Stopped? ==> AllDone(Run(s, steps))
  }

  /** Not through, and the stopper does not wait for it or will not: past the check, or replaced. */
  ghost predicate Straggler(s: State, t: Tid) {
    PastCheck(s, t) || (t in s.place && t in s.detached && s.place[t] != Finished)
  }

  ghost predicate NoStragglers(s: State) {
    forall t :: !Straggler(s, t)
  }

  lemma NobodyLateThen(s: State)
    requires NoStragglers(s)
    ensures NobodyLate(s)
  {
    forall t ensures !PastCheck(s, t) {
      assert !Straggler(s, t);
    }
  }

  lemma NoStragglersSuffice(s: State, steps: seq<Step>)
    requires JustCopied(s) && NoStragglers(s)
    requires Possible(s, steps) && (Run(s, steps).main.Stopped? || Enabled(Run(s, steps), Clear))
    ensures AllDone(Run(s, steps))
  {
    var s' := Run(s, steps);
    NobodyLateThen(s);
    CopyIsAttached(s);
    QuietRun(s, steps);
    QuietRunWaits(s, steps, s.main.threads);
    RunKeepsInv(s, steps);
    forall t | t in s'.place ensures s'.place[t] == Finished {
      if t in s.detached {
        assert !Straggler(s, t);
        DoneStaysDone(s, steps, t);
      } else if s'.main.Waiting? {
        AllJoined(s', t);
      }
    }
  }

  lemma StragglerSurvives(s: State, t: Tid) returns (steps: seq<Step>)
    requires JustCopied(s) && Straggler(s, t)
    ensures Possible(s, steps) && Run(s, steps).main.Stopped? && !AllDone(Run(s, steps))
  {
    if PastCheck(s, t) {
      steps := ClearAgainst(s, t);
    } else {
      CopyIsAttached(s);
      steps := ReadyToClear(s, t);
    }
    var s' := Run(s, steps);
    assert t in s'.place && s'.place[t] != Finished;
    RunThen(s, steps, Clear);
    steps := steps + [Clear];
    assert Run(s, steps).place == s'.place;
  }

  /** Right after the set is copied: in every continuation `stopJavaScriptThreads` returns only when
      every worker has finished, exactly when there are no stragglers at that point. */
  lemma StopWaitsForAllExactly(s: State)
    requires JustCopied(s)
    ensures StopWaitsForAll(s) <==> NoStragglers(s)
  {
    if NoStragglers(s) {
      forall steps | Possible(s, steps) && Run(s, steps).main.Stopped? ensures AllDone(Run(s, steps)) {
        NoStragglersSuffice(s, steps);
      }
    } else {
      var t :| Straggler(s, t);
      var steps := StragglerSurvives(s, t);
      assert !StopWaitsForAll(s);
    }
  }

  // ----- Stragglers can be reached -----

  /** Where a worker is after `n` critical sections, as long as the flag is down. */
  function Stage(n: nat): Place {
    match n
    case 0 => CreateContext
    case 1 => CreateScript
    case 2 => Evaluate
    case 3 => MakeObjects
    case 4 => CheckFlag
    case _ => Toss
  }

  ghost predicate Walking(s: State, n: nat) {
    && s.main == Started && !s.terminate && s.holder.None? && s.pool == {0, 1, 2, 3}
    && 0 in s.place && s.place[0] == Stage(n)
  }

  lemma FreshWalking(r: State, s: State)
    requires FreshThreads(r, 4) && s == r.(main := Started)
    ensures Walking(s, 0)
  {
    assert r.pool == {0, 1, 2, 3} by {
      assert forall t: Tid :: t in r.pool <==> t < 4;
    }
  }

  lemma StartWalking(s: State, s': State)
    requires s == INIT && s' == Apply(s, Start)
    ensures Inv(s') && Walking(s', 0)
  {
    StartKeepsInv(s);
    AddThreadsToNone(s, THREADS_COUNT);
    FreshWalking(AddThreads(s, THREADS_COUNT), s');
  }

  lemma WalkOn(s: State, n: nat)
    requires Walking(s, n) && n < 5
    ensures Walking(Section(s, 0, false), n + 1)
  {
  }

  /** A worker runs `n` critical sections after the start. */
  lemma {:induction false} WalkTo(s: State, n: nat) returns (steps: seq<Step>, s': State)
    requires Inv(s) && Walking(s, 0) && n <= 5
    ensures Possible(s, steps) && s' == Run(s, steps) && Inv(s') && Walking(s', n)
    decreases n
  {
    if n == 0 {
      steps, s' := [], s;
    } else {
      var first, s1 := WalkTo(s, n - 1);
      WalkOn(s1, n - 1);
      var rest := SectionRuns(s1, 0, false);
      RunKeepsInv(s1, rest);
      RunAppend(s, first, rest);
      steps, s' := first + rest, Run(s1, rest);
    }
  }

  lemma RaiseLate(s: State)
    requires Inv(s) && Walking(s, 5)
    ensures Enabled(s, Raise)
    ensures var s' := Apply(s, Raise);
            Inv(s') && s'.main == Raised && s'.holder.None? && s'.pool == s.pool && PastCheck(s', 0)
  {
    StepKeepsInv(s, Raise);
  }

  lemma CopyLate(s: State, threads: seq<Tid>)
    requires Inv(s) && s.main == Raised && s.holder.None? && CopyOf(threads, s.pool) && PastCheck(s, 0)
    ensures Enabled(s, Snapshot(threads))
    ensures JustCopied(Apply(s, Snapshot(threads))) && PastCheck(Apply(s, Snapshot(threads)), 0)
  {
    StepKeepsInv(s, Snapshot(threads));
  }

  lemma FourCopied(threads: seq<Tid>, pool: set<Tid>)
    requires threads == [0, 1, 2, 3] && pool == {0, 1, 2, 3}
    ensures CopyOf(threads, pool)
  {
  }

  lemma RaiseAndCopy(s: State, threads: seq<Tid>)
    requires Inv(s) && Walking(s, 5) && CopyOf(threads, s.pool)
    ensures Possible(s, [Raise, Snapshot(threads)])
    ensures var s' := Run(s, [Raise, Snapshot(threads)]); JustCopied(s') && PastCheck(s', 0)
  {
    RaiseLate(s);
    CopyLate(Apply(s, Raise), threads);
    RunTwo(s, Raise, Snapshot(threads));
  }

  /** A worker passes the check, then the flag is raised and the set copied. */
  lemma WalkAndCopy(s: State) returns (steps: seq<Step>, s': State)
    requires Inv(s) && Walking(s, 0)
    ensures Possible(s, steps) && s' == Run(s, steps) && JustCopied(s') && PastCheck(s', 0)
  {
    var walk, s1 := WalkTo(s, 5);
    var threads := [0, 1, 2, 3];
    FourCopied(threads, s1.pool);
    RaiseAndCopy(s1, threads);
    var copy := [Raise, Snapshot(threads)];
    RunAppend(s, walk, copy);
    steps, s' := walk + copy, Run(s1, copy);
  }

  lemma LateWorkerIsReachable() returns (steps: seq<Step>, s: State)
    ensures Possible(INIT, steps) && s == Run(INIT, steps) && JustCopied(s) && PastCheck(s, 0)
  {
    RunOne(INIT, Start);
    var s1 := Apply(INIT, Start);
    StartWalking(INIT, s1);
    steps, s := WalkAndCopy(s1);
    RunAppend(INIT, [Start], steps);
    steps := [Start] + steps;
  }

  /** So `stopJavaScriptThreads` does not always wait for every worker. */
  lemma StragglerIsReachable() returns (steps: seq<Step>, s: State)
    ensures Possible(INIT, steps) && s == Run(INIT, steps)
    ensures JustCopied(s) && !NoStragglers(s) && !StopWaitsForAll(s)
  {
    steps, s := LateWorkerIsReachable();
    assert Straggler(s, 0);
    StopWaitsForAllExactly(s);
  }
}

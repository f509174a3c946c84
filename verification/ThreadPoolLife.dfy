/** What one worker does from its creation to its end, in every run. */
module ThreadPoolLife {
  import opened Wrappers
  import opened Sequences
  import opened ThreadPool
  import opened ThreadPoolStop

  // ----- The life of a worker -----

  /** One time around the loop. */
  const ROUND: seq<Place> := [Evaluate, MakeObjects, CheckFlag, Toss]

  function Rounds(n: nat): (r: seq<Place>)
    ensures |r| == 4 * n
  {
    if n == 0 then [] else Rounds(n - 1) + ROUND
  }

  /** In the last round the worker finds the flag up, or it replaces itself. */
  function LastRound(replaced: bool): seq<Place> {
    [Evaluate, MakeObjects, CheckFlag] + if replaced then [Toss, Respawn, Remove, Add] else []
  }

  /** Context and script are created once, then come the rounds, then the worker cleans up. */
  function Life(n: nat, replaced: bool): seq<Place> {
    [CreateContext, CreateScript] + Rounds(n) + LastRound(replaced) + [CleanUp]
  }

  /** What `t` does in a step: it leaves a place. */
  ghost function Deed(s: State, s': State, t: Tid): seq<Place> {
    if t in s.place && t in s'.place && s'.place[t] != s.place[t] then [s.place[t]] else []
  }

  /** What `t` does in a run, in order. */
  ghost function Deeds(s: State, steps: seq<Step>, t: Tid): seq<Place>
    requires Possible(s, steps)
    decreases steps
  {
    if steps == [] then []
    else Deed(s, Apply(s, steps[0]), t) + Deeds(Apply(s, steps[0]), steps[1..], t)
  }

  // ----- Where a worker is in its life -----

  /** What a worker has done in a round in which it is at `p`. */
  function InRound(p: Place, replaced: bool): seq<Place> {
    match p
    case MakeObjects => [Evaluate]
    case CheckFlag => [Evaluate, MakeObjects]
    case Toss => [Evaluate, MakeObjects, CheckFlag]
    case Respawn => ROUND
    case Remove => ROUND + [Respawn]
    case Add => ROUND + [Respawn, Remove]
    case CleanUp => LastRound(replaced)
    case Finished => LastRound(replaced) + [CleanUp]
    case _ => []
  }

  /** What a worker has done that is at `p` behind `n` rounds. */
  function Past(n: nat, p: Place, replaced: bool): seq<Place> {
    if p == CreateContext then [] else if p == CreateScript then [CreateContext]
    else [CreateContext, CreateScript] + Rounds(n) + InRound(p, replaced)
  }

  /** `deeds` are what `t` has done, behind `n` rounds; nothing, if it has not been created. */
  ghost predicate Lives(s: State, t: Tid, deeds: seq<Place>, n: nat) {
    deeds == if t in s.place then Past(n, s.place[t], t in s.detached) else []
  }

  /** How a step takes a worker on. */
  ghost predicate Advances(p: Place, replaced: bool, p': Place, replaced': bool) {
    match p
    case CreateContext => p' == CreateScript
    case CreateScript => p' == Evaluate
    case Evaluate => p' == MakeObjects
    case MakeObjects => p' == CheckFlag
    case CheckFlag => p' == Toss || (p' == CleanUp && !replaced')
    case Toss => p' == Evaluate || p' == Respawn
    case Respawn => p' == Remove
    case Remove => p' == Add
    case Add => p' == CleanUp && replaced'
    case CleanUp => p' == Finished && replaced' == replaced
    case Finished => false
  }

  lemma RoundAdvances(p: Place, replaced: bool, p': Place, replaced': bool)
    requires Advances(p, replaced, p', replaced') && p != CreateContext && p != CreateScript && p' != Evaluate
    ensures p' != CreateContext && p' != CreateScript && InRound(p, replaced) + [p] == InRound(p', replaced')
  {
  }

  lemma AnotherRound(n: nat)
    ensures Rounds(n) + InRound(Toss, false) + [Toss] == Rounds(n + 1) + []
  {
    assert InRound(Toss, false) + [Toss] == ROUND;
    Regroup(Rounds(n), InRound(Toss, false), [Toss]);
  }

  /** The rounds that a worker has behind it after a step. */
  function RoundsAfter(n: nat, p: Place, p': Place): nat {
    if p == CreateScript then 0 else if p == Toss && p' == Evaluate then n + 1 else n
  }

  lemma PastAdvances(n: nat, p: Place, replaced: bool, p': Place, replaced': bool)
    requires Advances(p, replaced, p', replaced')
    ensures Past(n, p, replaced) + [p] == Past(RoundsAfter(n, p, p'), p', replaced')
  {
    var start := [CreateContext, CreateScript];
    if p == Toss && p' == Evaluate {
      AnotherRound(n);
      Regroup(start, Rounds(n), InRound(Toss, false));
      Regroup(start, Rounds(n) + InRound(Toss, false), [Toss]);
      Regroup(start, Rounds(n + 1), []);
    } else if p != CreateContext && p != CreateScript {
      RoundAdvances(p, replaced, p', replaced');
      Regroup(start + Rounds(n), InRound(p, replaced), [p]);
    }
  }

  ghost predicate Stays(s: State, s': State, t: Tid) {
    t in s.place && t in s'.place && s'.place[t] == s.place[t] && (t in s'.detached <==> t in s.detached)
  }

  ghost predicate GoesOn(s: State, s': State, t: Tid) {
    && t in s.place && t in s'.place
    && Advances(s.place[t], t in s.detached, s'.place[t], t in s'.detached)
  }

  lemma InsideAdvances(s: State, t: Tid, s': State)
    requires WorkersInv(s) && t in s.place && s.place[t] != Finished && s.place[t] != Toss && s' == Inside(s, t)
    ensures GoesOn(s, s', t)
  {
    assert s.nextId != t;
  }

  lemma InsideOthers(s: State, t: Tid, s': State, u: Tid)
    requires WorkersInv(s) && t in s.place && s.place[t] != Finished && s.place[t] != Toss && s' == Inside(s, t)
    requires u in s.place && u != t
    ensures Stays(s, s', u)
  {
    assert s.nextId != u;
  }

  lemma WorkAdvances(s: State, t: Tid, respawn: bool, s': State, u: Tid)
    requires WorkersInv(s) && Enabled(s, Work(t, respawn)) && s' == Work1(s, t, respawn) && u in s.place
    ensures Stays(s, s', u) || GoesOn(s, s', u)
  {
    if s.place[t] != Toss && s.holder.Some? {
      if u == t {
        InsideAdvances(s, t, s');
      } else {
        InsideOthers(s, t, s', u);
      }
    }
  }

  /** A step leaves a worker where it is, or takes it on. */
  lemma StepAdvances(s: State, step: Step, s': State, t: Tid)
    requires Inv(s) && Enabled(s, step) && s' == Apply(s, step) && t in s.place
    ensures Stays(s, s', t) || GoesOn(s, s', t)
  {
    if step.Work? {
      WorkAdvances(s, step.t, step.respawn, s', t);
    }
  }

  lemma StartCreates(s: State, s': State, t: Tid)
    requires s == INIT && s' == AddThreads(s, THREADS_COUNT).(main := Started) && t in s'.place
    ensures s'.place[t] == CreateContext
  {
    AddThreadsToNone(s, THREADS_COUNT);
  }

  lemma WorkCreates(s: State, t: Tid, respawn: bool, s': State, u: Tid)
    requires Enabled(s, Work(t, respawn)) && s' == Work1(s, t, respawn) && u !in s.place && u in s'.place
    ensures s'.place[u] == CreateContext
  {
  }

  lemma StepCreates(s: State, step: Step, s': State, t: Tid)
    requires Inv(s) && Enabled(s, step) && s' == Apply(s, step) && t !in s.place && t in s'.place
    ensures s'.place[t] == CreateContext
  {
    if step.Start? {
      StartCreates(s, s', t);
    } else if step.Work? {
      WorkCreates(s, step.t, step.respawn, s', t);
    }
  }

  lemma LivesStill(s: State, s': State, t: Tid, deeds: seq<Place>, n: nat)
    requires Stays(s, s', t) && Lives(s, t, deeds, n)
    ensures Lives(s', t, deeds + Deed(s, s', t), n)
  {
    assert deeds + [] == deeds;
  }

  lemma LivesFurther(s: State, s': State, t: Tid, deeds: seq<Place>, n: nat)
    requires GoesOn(s, s', t) && Lives(s, t, deeds, n)
    ensures Lives(s', t, deeds + Deed(s, s', t), RoundsAfter(n, s.place[t], s'.place[t]))
  {
    PastAdvances(n, s.place[t], t in s.detached, s'.place[t], t in s'.detached);
    assert s'.place[t] != s.place[t];
  }

  lemma LivesOn(s: State, step: Step, s': State, t: Tid, deeds: seq<Place>, n: nat) returns (n': nat)
    requires Inv(s) && Enabled(s, step) && s' == Apply(s, step) && Lives(s, t, deeds, n)
    ensures Lives(s', t, deeds + Deed(s, s', t), n')
  {
    n' := n;
    if t in s.place {
      StepAdvances(s, step, s', t);
      if GoesOn(s, s', t) {
        n' := RoundsAfter(n, s.place[t], s'.place[t]);
        LivesFurther(s, s', t, deeds, n);
      } else {
        LivesStill(s, s', t, deeds, n);
      }
    } else if t in s'.place {
      StepCreates(s, step, s', t);
    }
  }

  lemma {:induction false} RunLives(s: State, steps: seq<Step>, t: Tid, deeds: seq<Place>, n: nat) returns (n': nat)
    requires Inv(s) && Possible(s, steps) && Lives(s, t, deeds, n)
    ensures Lives(Run(s, steps), t, deeds + Deeds(s, steps, t), n')
    decreases steps
  {
    if steps == [] {
      n' := n;
      assert deeds + [] == deeds;
    } else {
      var s' := Apply(s, steps[0]);
      var deed := Deed(s, s', t);
      StepKeepsInv(s, steps[0]);
      var m := LivesOn(s, steps[0], s', t, deeds, n);
      n' := RunLives(s', steps[1..], t, deeds + deed, m);
      Regroup(deeds, deed, Deeds(s', steps[1..], t));
    }
  }

  /** Whether a worker at `p` is in its last round to be replaced. */
  predicate Leaving(p: Place, replaced: bool) {
    p.Toss? || p.Respawn? || p.Remove? || p.Add? || ((p.CleanUp? || p.Finished?) && replaced)
  }

  lemma PastIsLife(n: nat, p: Place, replaced: bool, past: seq<Place>, life: seq<Place>)
    requires past == Past(n, p, replaced) && life == Life(n, Leaving(p, replaced))
    ensures past <= life
    ensures if p == Finished then past == life else |past| < |life| && life[|past|] == p
  {
  }

  /** Every run: what a worker has done is the beginning of a life, which goes on with what it does
      next; the whole of it when it has finished. */
  lemma WorkerLives(steps: seq<Step>, t: Tid) returns (n: nat, replaced: bool)
    requires Possible(INIT, steps)
    ensures Deeds(INIT, steps, t) <= Life(n, replaced)
    ensures var s, deeds, life := Run(INIT, steps), Deeds(INIT, steps, t), Life(n, replaced);
            t in s.place ==>
              && (t in s.detached ==> replaced)
              && if s.place[t] == Finished then deeds == life
                 else |deeds| < |life| && life[|deeds|] == s.place[t]
  {
    var s, deeds := Run(INIT, steps), Deeds(INIT, steps, t);
    assert Lives(INIT, t, [], 0);
    n := RunLives(INIT, steps, t, [], 0);
    assert [] + deeds == deeds;
    RunKeepsInv(INIT, steps);
    if t in s.place {
      replaced := Leaving(s.place[t], t in s.detached);
      PastIsLife(n, s.place[t], t in s.detached, deeds, Life(n, replaced));
    } else {
      replaced := false;
    }
  }

  // ----- Between two looks at the flag -----

  lemma {:induction false} RoundsAt(n: nat, k: nat)
    requires k < 4 * n
    ensures Rounds(n)[k] == ROUND[k % 4]
    decreases n
  {
    if k < 4 * (n - 1) {
      RoundsAt(n - 1, k);
    } else {
      assert Rounds(n)[k] == ROUND[k - 4 * (n - 1)];
    }
  }

  /** The places of a life, by their number. */
  lemma LifeAt(n: nat, replaced: bool, k: nat)
    requires k < |Life(n, replaced)|
    ensures k < 2 ==> Life(n, replaced)[k] != CheckFlag
    ensures 2 <= k < 4 * n + 5 ==> Life(n, replaced)[k] == ROUND[(k - 2) % 4]
    ensures k >= 4 * n + 5 ==> Life(n, replaced)[k] != CheckFlag
  {
    var life := Life(n, replaced);
    if 2 <= k < 4 * n + 2 {
      assert life[k] == Rounds(n)[k - 2];
      RoundsAt(n, k - 2);
    } else if k >= 4 * n + 2 {
      assert life[k] == (LastRound(replaced) + [CleanUp])[k - 2 - 4 * n];
    }
  }

  lemma NextLook(n: nat, replaced: bool, i: nat, j: nat)
    requires i < j < |Life(n, replaced)| && Life(n, replaced)[i] == Life(n, replaced)[j] == CheckFlag
    ensures i + 4 <= j && Life(n, replaced)[i + 4] == CheckFlag
    ensures Life(n, replaced)[i + 1..i + 4] == [Toss, Evaluate, MakeObjects]
  {
    var life := Life(n, replaced);
    LifeAt(n, replaced, i);
    LifeAt(n, replaced, j);
    assert (i - 2) % 4 == 2 && (j - 2) % 4 == 2;
    LifeAt(n, replaced, i + 1);
    LifeAt(n, replaced, i + 2);
    LifeAt(n, replaced, i + 3);
    LifeAt(n, replaced, i + 4);
  }

  /** Between two successive looks at the flag by one worker, in any run, it tosses the coin,
      evaluates the script once and makes objects once, and nothing else. */
  lemma BetweenLooks(steps: seq<Step>, t: Tid, i: nat, j: nat)
    requires Possible(INIT, steps) && i < j < |Deeds(INIT, steps, t)|
    requires Deeds(INIT, steps, t)[i] == CheckFlag && Deeds(INIT, steps, t)[j] == CheckFlag
    requires forall k :: i < k < j ==> Deeds(INIT, steps, t)[k] != CheckFlag
    ensures Deeds(INIT, steps, t)[i + 1..j] == [Toss, Evaluate, MakeObjects]
  {
    var n, replaced := WorkerLives(steps, t);
    var deeds, life := Deeds(INIT, steps, t), Life(n, replaced);
    NextLook(n, replaced, i, j);
    assert deeds[i + 4] == life[i + 4];
    assert deeds[i + 1..j] == life[i + 1..j];
  }

  // ----- Every life is lived -----

  lemma DeedsCons(s: State, step: Step, steps: seq<Step>, s': State, t: Tid)
    requires Enabled(s, step) && s' == Apply(s, step) && Possible(s', steps)
    ensures Possible(s, [step] + steps) && Deeds(s, [step] + steps, t) == Deed(s, s', t) + Deeds(s', steps, t)
  {
    assert ([step] + steps)[1..] == steps;
  }

  lemma {:induction false} DeedsAppend(s: State, a: seq<Step>, b: seq<Step>, t: Tid)
    requires Possible(s, a) && Possible(Run(s, a), b)
    ensures Possible(s, a + b) && Deeds(s, a + b, t) == Deeds(s, a, t) + Deeds(Run(s, a), b, t)
    decreases a
  {
    if a == [] {
      assert a + b == b;
    } else {
      var step, more := a[0], a[1..];
      var s' := Apply(s, step);
      DeedsAppend(s', more, b, t);
      DeedsCons(s, step, more + b, s', t);
      assert a + b == [step] + (more + b);
      Regroup(Deed(s, s', t), Deeds(s', more, t), Deeds(Run(s', more), b, t));
    }
  }

  lemma DeedsOne(s: State, step: Step, s': State)
    requires Enabled(s, step) && s' == Apply(s, step)
    ensures Possible(s, [step]) && Run(s, [step]) == s' && Deeds(s, [step], 0) == Deed(s, s', 0)
  {
    RunOne(s, step);
    assert [step][1..] == [];
    assert Deeds(s', [], 0) == [];
  }

  lemma DeedsTwo(s: State, step: Step, s1: State, s2: State)
    requires Enabled(s, step) && s1 == Apply(s, step) && Enabled(s1, step) && s2 == Apply(s1, step)
    ensures Possible(s, [step, step]) && Run(s, [step, step]) == s2
    ensures Deeds(s, [step, step], 0) == Deed(s, s1, 0) + Deed(s1, s2, 0)
  {
    RunTwo(s, step, step);
    DeedsOne(s, step, s1);
    DeedsOne(s1, step, s2);
    assert [step] + [step] == [step, step];
    DeedsAppend(s, [step], [step], 0);
  }

  /** Worker 0 is at `p` with the mutex free; the flag is up or down. */
  ghost predicate IsAt(s: State, p: Place, up: bool) {
    && s.holder.None? && 0 in s.place && s.place[0] == p && s.nextId > 0
    && s.terminate == up && (!up ==> s.main == Started)
  }

  /** In a run from `s`, worker 0 does `deeds` and comes to `p`. */
  ghost predicate By(s: State, steps: seq<Step>, deeds: seq<Place>, p: Place, up: bool) {
    Possible(s, steps) && Deeds(s, steps, 0) == deeds && IsAt(Run(s, steps), p, up)
  }

  ghost predicate Reaches(s: State, deeds: seq<Place>, p: Place, up: bool) {
    exists steps :: By(s, steps, deeds, p, up)
  }

  /** From everywhere where it is at `p`, worker 0 can come to `q` that way. */
  ghost predicate Can(p: Place, up: bool, deeds: seq<Place>, q: Place, up': bool) {
    forall s {:trigger Reaches(s, deeds, q, up')} :: IsAt(s, p, up) ==> Reaches(s, deeds, q, up')
  }

  lemma ByBoth(s: State, a: seq<Step>, d: seq<Place>, s1: State, b: seq<Step>, e: seq<Place>, q: Place, up: bool)
    requires Possible(s, a) && Deeds(s, a, 0) == d && Run(s, a) == s1 && By(s1, b, e, q, up)
    ensures By(s, a + b, d + e, q, up)
  {
    RunAppend(s, a, b);
    DeedsAppend(s, a, b, 0);
  }

  lemma ReachesOn(s: State, p: Place, up: bool, d: seq<Place>, e: seq<Place>, q: Place, up': bool, both: seq<Place>)
    requires Reaches(s, d, p, up) && Can(p, up, e, q, up') && both == d + e
    ensures Reaches(s, both, q, up')
  {
    var a :| By(s, a, d, p, up);
    var s1 := Run(s, a);
    assert Reaches(s1, e, q, up');
    var b :| By(s1, b, e, q, up');
    ByBoth(s, a, d, s1, b, e, q, up');
  }

  lemma CanBoth(p: Place, up: bool, d: seq<Place>, q: Place, up1: bool, e: seq<Place>, r: Place, up2: bool,
                both: seq<Place>)
    requires Can(p, up, d, q, up1) && Can(q, up1, e, r, up2) && both == d + e
    ensures Can(p, up, both, r, up2)
  {
    forall s | IsAt(s, p, up) ensures Reaches(s, both, r, up2) {
      assert Reaches(s, d, q, up1);
      ReachesOn(s, q, up1, d, e, r, up2, both);
    }
  }

  /** The critical sections that take one step under the mutex. */
  ghost predicate Follows(p: Place, up: bool, q: Place) {
    match p
    case CreateContext => q == CreateScript
    case CreateScript => q == Evaluate
    case Evaluate => q == MakeObjects
    case MakeObjects => q == CheckFlag
    case CheckFlag => q == if up then CleanUp else Toss
    case CleanUp => q == Finished
    case _ => false
  }

  lemma SectionReaches(s: State, p: Place, up: bool, q: Place)
    requires IsAt(s, p, up) && Follows(p, up, q)
    ensures Reaches(s, [p], q, up)
  {
    var w := Work(0, true);
    var s1 := s.(holder := Some(0));
    var s2 := Inside(s1, 0);
    DeedsTwo(s, w, s1, s2);
    assert [] + [p] == [p];
    assert By(s, [w, w], [p], q, up);
  }

  lemma CanSection(p: Place, up: bool, q: Place)
    requires Follows(p, up, q)
    ensures Can(p, up, [p], q, up)
  {
    forall s | IsAt(s, p, up) ensures Reaches(s, [p], q, up) {
      SectionReaches(s, p, up, q);
    }
  }

  lemma TossReaches(s: State, up: bool, respawn: bool, q: Place)
    requires IsAt(s, Toss, up) && q == if respawn then Respawn else Evaluate
    ensures Reaches(s, [Toss], q, up)
  {
    var w, s' := Work(0, respawn), Work1(s, 0, respawn);
    DeedsOne(s, w, s');
    assert By(s, [w], [Toss], q, up);
  }

  lemma CanToss(up: bool, respawn: bool, q: Place)
    requires q == if respawn then Respawn else Evaluate
    ensures Can(Toss, up, [Toss], q, up)
  {
    forall s | IsAt(s, Toss, up) ensures Reaches(s, [Toss], q, up) {
      TossReaches(s, up, respawn, q);
    }
  }

  lemma DetachDeeds(s: State, up: bool, w: Step, s2: State)
    requires IsAt(s, Respawn, up) && w == Work(0, true) && s2 == Detach(s, 0).(holder := Some(0))
    ensures Possible(s, [w, w]) && Run(s, [w, w]) == s2 && Deeds(s, [w, w], 0) == [Respawn]
  {
    DeedsTwo(s, w, s.(holder := Some(0)), s2);
    assert [] + [Respawn] == [Respawn];
  }

  lemma ReplaceDeeds(s: State, w: Step, s1: State, s2: State)
    requires 0 in s.place && s.place[0] == Remove && s.holder == Some(0) && s.nextId > 0 && w == Work(0, true)
    requires s1 == s.(pool := s.pool - {0}, place := s.place[0 := Add]) && s2 == AddOne(s1, 0)
    ensures Possible(s, [w, w]) && Run(s, [w, w]) == s2 && Deeds(s, [w, w], 0) == [Remove, Add]
  {
    DeedsTwo(s, w, s1, s2);
    assert [Remove] + [Add] == [Remove, Add];
  }

  lemma ReplaceReaches(s: State, up: bool)
    requires IsAt(s, Respawn, up)
    ensures Reaches(s, [Respawn, Remove, Add], CleanUp, up)
  {
    var w := Work(0, true);
    var s2 := Detach(s, 0).(holder := Some(0));
    var s3 := s2.(pool := s2.pool - {0}, place := s2.place[0 := Add]);
    var s4 := AddOne(s3, 0);
    DetachDeeds(s, up, w, s2);
    ReplaceDeeds(s2, w, s3, s4);
    assert By(s2, [w, w], [Remove, Add], CleanUp, up);
    ByBoth(s, [w, w], [Respawn], s2, [w, w], [Remove, Add], CleanUp, up);
    assert [Respawn] + [Remove, Add] == [Respawn, Remove, Add];
  }

  lemma CanReplace(up: bool)
    ensures Can(Respawn, up, [Respawn, Remove, Add], CleanUp, up)
  {
    forall s | IsAt(s, Respawn, up) ensures Reaches(s, [Respawn, Remove, Add], CleanUp, up) {
      ReplaceReaches(s, up);
    }
  }

  lemma RaiseReaches(s: State, p: Place)
    requires IsAt(s, p, false)
    ensures Reaches(s, [], p, true)
  {
    var s' := Apply(s, Raise);
    DeedsOne(s, Raise, s');
    assert By(s, [Raise], [], p, true);
  }

  lemma CanRaise(p: Place)
    ensures Can(p, false, [], p, true)
  {
    forall s | IsAt(s, p, false) ensures Reaches(s, [], p, true) {
      RaiseReaches(s, p);
    }
  }

  /** The round up to and with the look at the flag. */
  lemma CanLook(up: bool, q: Place)
    requires q == if up then CleanUp else Toss
    ensures Can(Evaluate, up, [Evaluate, MakeObjects, CheckFlag], q, up)
  {
    CanSection(Evaluate, up, MakeObjects);
    CanSection(MakeObjects, up, CheckFlag);
    CanSection(CheckFlag, up, q);
    CanBoth(Evaluate, up, [Evaluate], MakeObjects, up, [MakeObjects], CheckFlag, up, [Evaluate, MakeObjects]);
    CanBoth(Evaluate, up, [Evaluate, MakeObjects], CheckFlag, up, [CheckFlag], q, up,
            [Evaluate, MakeObjects, CheckFlag]);
  }

  lemma CanGoRound()
    ensures Can(Evaluate, false, ROUND, Evaluate, false)
  {
    CanLook(false, Toss);
    CanToss(false, false, Evaluate);
    CanBoth(Evaluate, false, [Evaluate, MakeObjects, CheckFlag], Toss, false, [Toss], Evaluate, false, ROUND);
  }

  lemma CanRest(p: Place, up: bool)
    ensures Can(p, up, [], p, up)
  {
    forall s | IsAt(s, p, up) ensures Reaches(s, [], p, up) {
      assert By(s, [], [], p, up);
    }
  }

  lemma {:induction false} CanGoAround(n: nat)
    ensures Can(Evaluate, false, Rounds(n), Evaluate, false)
    decreases n
  {
    if n == 0 {
      CanRest(Evaluate, false);
    } else {
      CanGoAround(n - 1);
      CanGoRound();
      CanBoth(Evaluate, false, Rounds(n - 1), Evaluate, false, ROUND, Evaluate, false, Rounds(n));
    }
  }

  lemma CanLeave()
    ensures Can(Evaluate, false, LastRound(true), CleanUp, false)
  {
    var look := [Evaluate, MakeObjects, CheckFlag];
    CanLook(false, Toss);
    CanToss(false, true, Respawn);
    CanReplace(false);
    CanBoth(Evaluate, false, look, Toss, false, [Toss], Respawn, false, ROUND);
    CanBoth(Evaluate, false, ROUND, Respawn, false, [Respawn, Remove, Add], CleanUp, false, LastRound(true));
  }

  lemma CanStop()
    ensures Can(Evaluate, false, LastRound(false), CleanUp, true)
  {
    CanRaise(Evaluate);
    CanLook(true, CleanUp);
    CanBoth(Evaluate, false, [], Evaluate, true, [Evaluate, MakeObjects, CheckFlag], CleanUp, true, LastRound(false));
  }

  lemma CanFinish(replaced: bool)
    ensures Can(Evaluate, false, LastRound(replaced) + [CleanUp], Finished, !replaced)
  {
    CanSection(CleanUp, !replaced, Finished);
    if replaced {
      CanLeave();
    } else {
      CanStop();
    }
    CanBoth(Evaluate, false, LastRound(replaced), CleanUp, !replaced, [CleanUp], Finished, !replaced,
            LastRound(replaced) + [CleanUp]);
  }

  lemma CanBegin()
    ensures Can(CreateContext, false, [CreateContext, CreateScript], Evaluate, false)
  {
    CanSection(CreateContext, false, CreateScript);
    CanSection(CreateScript, false, Evaluate);
    CanBoth(CreateContext, false, [CreateContext], CreateScript, false, [CreateScript], Evaluate, false,
            [CreateContext, CreateScript]);
  }

  lemma CanLive(n: nat, replaced: bool)
    ensures Can(CreateContext, false, Life(n, replaced), Finished, !replaced)
  {
    var start := [CreateContext, CreateScript];
    CanBegin();
    CanGoAround(n);
    CanFinish(replaced);
    CanBoth(CreateContext, false, start, Evaluate, false, Rounds(n), Evaluate, false, start + Rounds(n));
    Regroup(start + Rounds(n), LastRound(replaced), [CleanUp]);
    CanBoth(CreateContext, false, start + Rounds(n), Evaluate, false, LastRound(replaced) + [CleanUp], Finished,
            !replaced, Life(n, replaced));
  }

  lemma StartReaches(s: State)
    requires s == INIT
    ensures Reaches(s, [], CreateContext, false)
  {
    var s' := Apply(s, Start);
    StartWalking(s, s');
    DeedsOne(s, Start, s');
    assert By(s, [Start], [], CreateContext, false);
  }

  /** Conversely, every life is what a worker does from its creation to its end in some run. */
  lemma EveryLife(n: nat, replaced: bool) returns (steps: seq<Step>)
    ensures Possible(INIT, steps) && Deeds(INIT, steps, 0) == Life(n, replaced) && Done(Run(INIT, steps), 0)
  {
    StartReaches(INIT);
    CanLive(n, replaced);
    ReachesOn(INIT, CreateContext, false, [], Life(n, replaced), Finished, !replaced, Life(n, replaced));
    assert [] + Life(n, replaced) == Life(n, replaced);
    steps :| By(INIT, steps, Life(n, replaced), Finished, !replaced);
  }
}

/** JavaScriptThreading.cpp: four workers that may replace themselves, and the stopper.  A worker
    takes the mutex in one step and does what it does under it in the next ones; the stopper joins
    threads and clears the set without the mutex, so these steps can come in between. */
module ThreadPool {
  import opened Wrappers
  import opened Sequences

  type Tid = nat

  /** What a worker does next.  Everything but the toss is done under the mutex; `Respawn`, `Remove`
      and `Add` are the detaching, the removal and the creation of the replacement in one critical
      section. */
  datatype Place =
    | CreateContext | CreateScript | Evaluate | MakeObjects | CheckFlag | Toss
    | Respawn | Remove | Add | CleanUp | Finished

  /** What the main thread has done: nothing, `startJavaScriptThreads`, raised the flag, copied the
      set and joined the first `next` threads of the copy, or returned from `stopJavaScriptThreads`. */
  datatype Main = BeforeStart | Started | Raised | Waiting(threads: seq<Tid>, next: nat) | Stopped

  /** `nextId` is the identifier that `createThread` will hand out, `holder` the worker inside a
      critical section. */
  datatype State = State(
    nextId: Tid, place: map<Tid, Place>, pool: set<Tid>, detached: set<Tid>, terminate: bool,
    holder: Option<Tid>, main: Main)

  const THREADS_COUNT: nat := 4

  const INIT := State(0, map[], {}, {}, false, None, BeforeStart)

  datatype Step = Start | Work(t: Tid, respawn: bool) | Raise | Snapshot(threads: seq<Tid>) | Join | Clear

  ghost predicate CopyOf(threads: seq<Tid>, pool: set<Tid>) {
    && (forall t :: t in pool <==> t in threads)
    && Distinct(threads)
  }

  /** A join returns when the thread has finished, and fails at once when it is detached. */
  ghost predicate Joined(s: State, t: Tid) {
    t in s.detached || (t in s.place && s.place[t] == Finished)
  }

  ghost predicate Enabled(s: State, step: Step) {
    match step
    case Start => s.main.BeforeStart? && s.holder.None?
    case Work(t, _) =>
      t in s.place && s.place[t] != Finished && (s.place[t] == Toss || s.holder.None? || s.holder == Some(t))
    case Raise => s.main.Started? && s.holder.None?
    case Snapshot(threads) => s.main.Raised? && s.holder.None? && CopyOf(threads, s.pool)
    case Join =>
      && s.main.Waiting? && s.main.next < |s.main.threads| && s.main.next < THREADS_COUNT
      && Joined(s, s.main.threads[s.main.next])
    case Clear => s.main.Waiting? && s.main.next == THREADS_COUNT
  }

  /** Goes on to `p` and releases the mutex. */
  function Leave(s: State, t: Tid, p: Place): State {
    s.(place := s.place[t := p], holder := None)
  }

  /** What a worker does under the mutex. */
  function Inside(s: State, t: Tid): State
    requires t in s.place && s.place[t] != Finished && s.place[t] != Toss
  {
    match s.place[t]
    case CreateContext => Leave(s, t, CreateScript)
    case CreateScript => Leave(s, t, Evaluate)
    case Evaluate => Leave(s, t, MakeObjects)
    case MakeObjects => Leave(s, t, CheckFlag)
    case CheckFlag => Leave(s, t, if s.terminate then CleanUp else Toss)
    case Respawn => s.(detached := s.detached + {t}, place := s.place[t := Remove])
    case Remove => s.(pool := s.pool - {t}, place := s.place[t := Add])
    case Add => Leave(s, t, CleanUp).(
      place := s.place[t := CleanUp][s.nextId := CreateContext], nextId := s.nextId + 1, pool := s.pool + {s.nextId})
    case CleanUp => Leave(s, t, Finished)
  }

  function Work1(s: State, t: Tid, respawn: bool): State
    requires t in s.place && s.place[t] != Finished
  {
    if s.place[t] == Toss then s.(place := s.place[t := if respawn then Respawn else Evaluate])
    else if s.holder.None? then s.(holder := Some(t))
    else Inside(s, t)
  }

  /** The loop that fills the set with `n` new threads. */
  function AddThreads(s: State, n: nat): State {
    if n == 0 then s
    else
      var r := AddThreads(s, n - 1);
      r.(place := r.place[r.nextId := CreateContext], pool := r.pool + {r.nextId}, nextId := r.nextId + 1)
  }

  ghost function Apply(s: State, step: Step): State
    requires Enabled(s, step)
  {
    match step
    case Start => AddThreads(s, THREADS_COUNT).(main := Started)
    case Work(t, respawn) => Work1(s, t, respawn)
    case Raise => s.(terminate := true, main := Raised)
    case Snapshot(threads) => s.(main := Waiting(threads, 0))
    case Join => s.(main := s.main.(next := s.main.next + 1))
    case Clear => s.(pool := {}, main := Stopped)
  }

  // ----- Runs -----

  ghost predicate Possible(s: State, steps: seq<Step>)
    decreases steps
  {
    steps == [] || (Enabled(s, steps[0]) && Possible(Apply(s, steps[0]), steps[1..]))
  }

  ghost function Run(s: State, steps: seq<Step>): State
    requires Possible(s, steps)
    decreases steps
  {
    if steps == [] then s else Run(Apply(s, steps[0]), steps[1..])
  }

  // ----- The pool invariant -----

  ghost predicate Ending(p: Place) {
    p.CleanUp? || p.Finished?
  }

  /** Between detaching itself and having created its replacement. */
  ghost predicate Replacing(p: Place) {
    p.Remove? || p.Add?
  }

  /** Identifiers are handed out once; a worker is detached exactly from its detaching on, and
      otherwise past its loop only if the flag is up. */
  ghost predicate WorkersInv(s: State) {
    && (forall t :: t in s.place ==> t < s.nextId)
    && s.detached <= s.place.Keys
    && (forall t :: t in s.place && t in s.detached ==> Replacing(s.place[t]) || Ending(s.place[t]))
    && (forall t :: t in s.place && Replacing(s.place[t]) ==> t in s.detached)
    && (forall t :: t in s.place && t !in s.detached && Ending(s.place[t]) ==> s.terminate)
  }

  ghost predicate HolderInv(s: State) {
    && (s.holder.Some? ==>
          s.holder.value in s.place && s.place[s.holder.value] != Toss && s.place[s.holder.value] != Finished)
    && forall t :: t in s.place && Replacing(s.place[t]) ==> s.holder == Some(t)
  }

  ghost predicate HolderAt(s: State, p: Place) {
    s.holder.Some? && s.holder.value in s.place && s.place[s.holder.value] == p
  }

  /** The created threads that have not detached themselves. */
  ghost function Attached(s: State): set<Tid> {
    s.place.Keys - s.detached
  }

  /** The set holds the attached threads, and the one that is about to remove itself. */
  ghost predicate PoolInv(s: State) {
    && (!s.main.Stopped? ==> s.pool == Attached(s) + if HolderAt(s, Remove) then {s.holder.value} else {})
    && (!s.main.BeforeStart? && !s.main.Stopped? ==>
          |Attached(s)| == if HolderAt(s, Remove) || HolderAt(s, Add) then THREADS_COUNT - 1 else THREADS_COUNT)
  }

  ghost predicate MainInv(s: State) {
    && (s.terminate <==> !s.main.BeforeStart? && !s.main.Started?)
    && (s.main.BeforeStart? ==> s == INIT)
    && (s.main.Waiting? ==>
          && |s.main.threads| == THREADS_COUNT && s.main.next <= THREADS_COUNT
          && (forall i :: 0 <= i < THREADS_COUNT ==> s.main.threads[i] in s.place)
          && (forall i :: 0 <= i < s.main.next ==> Joined(s, s.main.threads[i])))
  }

  ghost predicate Inv(s: State) {
    WorkersInv(s) && HolderInv(s) && PoolInv(s) && MainInv(s)
  }

  lemma {:induction false} CopySize(threads: seq<Tid>, pool: set<Tid>)
    requires CopyOf(threads, pool)
    ensures |threads| == |pool|
    decreases |threads|
  {
    if threads == [] {
      assert pool == {};
    } else {
      var t := threads[0];
      CopySize(threads[1..], pool - {t});
    }
  }

  /** What was joined, or can be, stays so. */
  lemma MainInvKept(s: State, s': State)
    requires MainInv(s) && !s.main.BeforeStart? && s'.main == s.main && s'.terminate == s.terminate
    requires s.place.Keys <= s'.place.Keys && forall u :: Joined(s, u) ==> Joined(s', u)
    ensures MainInv(s')
  {
  }

  lemma PoolInvKept(s: State, s': State)
    requires PoolInv(s) && s'.main == s.main && s'.pool == s.pool && Attached(s') == Attached(s)
    requires !HolderAt(s, Remove) && !HolderAt(s, Add) && !HolderAt(s', Remove) && !HolderAt(s', Add)
    ensures PoolInv(s')
  {
  }

  /** A worker goes from one ordinary place to another and leaves the mutex to whoever has it then. */
  lemma MoveKeepsInv(s: State, t: Tid, p: Place, s': State)
    requires Inv(s) && t in s.place && s.place[t] != Finished && !Replacing(s.place[t]) && !Replacing(p)
    requires if Ending(s.place[t]) then Ending(p) else Ending(p) ==> s.terminate
    requires s' == s.(place := s.place[t := p], holder := s'.holder) && HolderInv(s')
    requires s'.holder == s.holder || (s.holder == Some(t) && s'.holder.None?)
    ensures Inv(s')
  {
    assert s'.place.Keys == s.place.Keys && Attached(s') == Attached(s);
    if s.holder.Some? && s.holder.value != t {
      assert HolderAt(s, Remove) == HolderAt(s', Remove) && HolderAt(s, Add) == HolderAt(s', Add);
    } else {
      PoolInvKept(s, s');
    }
    MainInvKept(s, s');
  }

  lemma EnterKeepsInv(s: State, t: Tid)
    requires Inv(s) && t in s.place && s.place[t] != Finished && s.place[t] != Toss && s.holder.None?
    ensures Inv(s.(holder := Some(t)))
  {
    var s' := s.(holder := Some(t));
    assert Attached(s') == Attached(s);
    MainInvKept(s, s');
  }

  ghost function Detach(s: State, t: Tid): State {
    s.(detached := s.detached + {t}, place := s.place[t := Remove])
  }

  lemma DetachKeepsWorkersInv(s: State, t: Tid, s': State)
    requires WorkersInv(s) && HolderInv(s) && t in s.place && s.place[t] == Respawn && s.holder == Some(t)
    requires s' == Detach(s, t)
    ensures WorkersInv(s') && HolderInv(s')
  {
  }

  lemma DetachKeepsPoolInv(s: State, t: Tid, s': State)
    requires PoolInv(s) && t in s.place && t !in s.detached && s.place[t] == Respawn && s.holder == Some(t)
    requires s' == Detach(s, t)
    ensures PoolInv(s')
  {
    assert Attached(s') == Attached(s) - {t};
    assert HolderAt(s', Remove) && s'.holder.value == t;
    assert Attached(s') + {t} == Attached(s);
  }

  lemma DetachKeepsInv(s: State, t: Tid, s': State)
    requires Inv(s) && t in s.place && s.place[t] == Respawn && s.holder == Some(t) && s' == Detach(s, t)
    ensures Inv(s')
  {
    DetachKeepsWorkersInv(s, t, s');
    DetachKeepsPoolInv(s, t, s');
    MainInvKept(s, s');
  }

  lemma RemoveKeepsPoolInv(s: State, t: Tid, s': State)
    requires PoolInv(s) && t in s.detached && t in s.place && s.place[t] == Remove && s.holder == Some(t)
    requires s' == s.(pool := s.pool - {t}, place := s.place[t := Add])
    ensures PoolInv(s')
  {
    assert HolderAt(s, Remove) && HolderAt(s', Add);
    assert Attached(s') == Attached(s);
    if !s.main.Stopped? {
      assert s'.pool == Attached(s');
    }
  }

  lemma RemoveKeepsWorkersInv(s: State, t: Tid, s': State)
    requires WorkersInv(s) && HolderInv(s) && t in s.place && s.place[t] == Remove && s.holder == Some(t)
    requires s' == s.(pool := s.pool - {t}, place := s.place[t := Add])
    ensures WorkersInv(s') && HolderInv(s')
  {
  }

  lemma RemoveKeepsInv(s: State, t: Tid, s': State)
    requires Inv(s) && t in s.place && s.place[t] == Remove && s.holder == Some(t)
    requires s' == s.(pool := s.pool - {t}, place := s.place[t := Add])
    ensures Inv(s')
  {
    RemoveKeepsWorkersInv(s, t, s');
    RemoveKeepsPoolInv(s, t, s');
    MainInvKept(s, s');
  }

  ghost function AddOne(s: State, t: Tid): State {
    s.(place := s.place[t := CleanUp][s.nextId := CreateContext], holder := None, nextId := s.nextId + 1,
       pool := s.pool + {s.nextId})
  }

  lemma AddKeepsWorkersInv(s: State, t: Tid, s': State)
    requires WorkersInv(s) && HolderInv(s) && t in s.place && s.place[t] == Add && s.holder == Some(t)
    requires s' == AddOne(s, t)
    ensures WorkersInv(s') && HolderInv(s')
  {
  }

  lemma AddKeepsPoolInv(s: State, t: Tid, s': State)
    requires PoolInv(s) && t in s.detached && t in s.place && s.place[t] == Add && s.holder == Some(t)
    requires s.nextId !in s.place && s.detached <= s.place.Keys && s' == AddOne(s, t)
    ensures PoolInv(s')
  {
    assert HolderAt(s, Add) && !HolderAt(s', Remove);
    assert Attached(s') == Attached(s) + {s.nextId};
  }

  lemma AddKeepsInv(s: State, t: Tid, s': State)
    requires Inv(s) && t in s.place && s.place[t] == Add && s.holder == Some(t) && s' == AddOne(s, t)
    ensures Inv(s')
  {
    AddKeepsWorkersInv(s, t, s');
    AddKeepsPoolInv(s, t, s');
    MainInvKept(s, s');
  }

  /** A critical section other than the respawn. */
  lemma PlainKeepsInv(s: State, t: Tid, s': State)
    requires Inv(s) && t in s.place && s.place[t] != Toss && s.holder == Some(t)
    requires s.place[t] != Respawn && !Replacing(s.place[t]) && s' == Inside(s, t)
    ensures Inv(s')
  {
    var p := s'.place[t];
    assert s' == Leave(s, t, p) && !Replacing(p);
    assert HolderInv(s');
    MoveKeepsInv(s, t, p, s');
  }

  lemma InsideKeepsInv(s: State, t: Tid, s': State)
    requires Inv(s) && t in s.place && s.place[t] != Toss && s.holder == Some(t) && s' == Inside(s, t)
    ensures Inv(s')
  {
    if s.place[t] == Respawn {
      DetachKeepsInv(s, t, s');
    } else if s.place[t] == Remove {
      RemoveKeepsInv(s, t, s');
    } else if s.place[t] == Add {
      AddKeepsInv(s, t, s');
    } else {
      PlainKeepsInv(s, t, s');
    }
  }

  lemma TossKeepsInv(s: State, t: Tid, p: Place, s': State)
    requires Inv(s) && t in s.place && s.place[t] == Toss && (p == Respawn || p == Evaluate)
    requires s' == s.(place := s.place[t := p])
    ensures Inv(s')
  {
    assert HolderInv(s');
    MoveKeepsInv(s, t, p, s');
  }

  lemma WorkKeepsInv(s: State, t: Tid, respawn: bool)
    requires Inv(s) && Enabled(s, Work(t, respawn))
    ensures Inv(Work1(s, t, respawn))
  {
    if s.place[t] == Toss {
      TossKeepsInv(s, t, if respawn then Respawn else Evaluate, Work1(s, t, respawn));
    } else if s.holder.None? {
      EnterKeepsInv(s, t);
    } else {
      InsideKeepsInv(s, t, Inside(s, t));
    }
  }

  ghost predicate FreshThreads(s: State, n: nat) {
    && s.nextId == n && s.pool == s.place.Keys && |s.pool| == n
    && s.detached == {} && !s.terminate && s.holder.None? && s.main == BeforeStart
    && (forall t: Tid :: t in s.place <==> t < n)
    && forall t :: t in s.place ==> s.place[t] == CreateContext
  }

  lemma OneMoreThread(r: State, n: nat)
    requires FreshThreads(r, n)
    ensures FreshThreads(r.(place := r.place[n := CreateContext], pool := r.pool + {n}, nextId := n + 1), n + 1)
  {
    assert n !in r.pool;
    assert r.place[n := CreateContext].Keys == r.place.Keys + {n};
  }

  lemma {:induction false} AddThreadsToNone(s: State, n: nat)
    requires s == INIT
    ensures FreshThreads(AddThreads(s, n), n)
    decreases n
  {
    if n > 0 {
      AddThreadsToNone(s, n - 1);
      OneMoreThread(AddThreads(s, n - 1), n - 1);
    }
  }

  lemma FreshThreadsInv(s: State)
    requires FreshThreads(s, THREADS_COUNT)
    ensures Inv(s.(main := Started))
  {
    assert Attached(s.(main := Started)) == s.pool;
  }

  lemma StartKeepsInv(s: State)
    requires s == INIT
    ensures Inv(AddThreads(s, THREADS_COUNT).(main := Started))
  {
    AddThreadsToNone(s, THREADS_COUNT);
    FreshThreadsInv(AddThreads(s, THREADS_COUNT));
  }

  lemma SnapshotKeepsInv(s: State, threads: seq<Tid>)
    requires Inv(s) && Enabled(s, Snapshot(threads))
    ensures Inv(Apply(s, Snapshot(threads)))
  {
    CopySize(threads, s.pool);
    forall i | 0 <= i < THREADS_COUNT ensures threads[i] in s.place {
      assert threads[i] in threads;
    }
    assert Attached(Apply(s, Snapshot(threads))) == Attached(s);
  }

  lemma JoinKeepsInv(s: State)
    requires Inv(s) && Enabled(s, Join)
    ensures Inv(Apply(s, Join))
  {
    var s' := Apply(s, Join);
    assert Attached(s') == Attached(s);
    forall u | Joined(s, u) ensures Joined(s', u) {
    }
  }

  lemma MainKeepsInv(s: State, step: Step)
    requires Inv(s) && Enabled(s, step) && !step.Work?
    ensures Inv(Apply(s, step))
  {
    match step
    case Start => StartKeepsInv(s);
    case Snapshot(threads) => SnapshotKeepsInv(s, threads);
    case Join => JoinKeepsInv(s);
    case Raise => assert Attached(Apply(s, step)) == Attached(s);
    case _ =>
  }

  lemma StepKeepsInv(s: State, step: Step)
    requires Inv(s) && Enabled(s, step)
    ensures Inv(Apply(s, step))
  {
    if step.Work? {
      WorkKeepsInv(s, step.t, step.respawn);
    } else {
      MainKeepsInv(s, step);
    }
  }

  lemma {:induction false} RunKeepsInv(s: State, steps: seq<Step>)
    requires Inv(s) && Possible(s, steps)
    ensures Inv(Run(s, steps))
    decreases steps
  {
    if steps != [] {
      StepKeepsInv(s, steps[0]);
      RunKeepsInv(Apply(s, steps[0]), steps[1..]);
    }
  }

  lemma FreePool(s: State)
    requires Inv(s) && s.holder.None? && !s.main.BeforeStart? && !s.main.Stopped?
    ensures s.pool == Attached(s) && |s.pool| == THREADS_COUNT && s.pool !! s.detached
    ensures forall t :: t in s.place && (s.place[t].Toss? || s.place[t].Respawn?) ==> t in s.pool
  {
    assert s.pool == Attached(s) + {};
  }

  /** In every reachable state with the mutex free, while the pool is up, the set holds exactly the
      created threads that have not been replaced, four of them, none detached, and every worker
      about to respawn. */
  lemma PoolInvariant(steps: seq<Step>)
    requires Possible(INIT, steps) && Run(INIT, steps).holder.None?
    ensures var s := Run(INIT, steps);
            !s.main.BeforeStart? && !s.main.Stopped? ==>
              && s.pool == s.place.Keys - s.detached && |s.pool| == THREADS_COUNT && s.pool !! s.detached
              && forall t :: t in s.place && (s.place[t].Toss? || s.place[t].Respawn?) ==> t in s.pool
  {
    RunKeepsInv(INIT, steps);
    var s := Run(INIT, steps);
    if !s.main.BeforeStart? && !s.main.Stopped? {
      FreePool(s);
    }
  }

  /** The assertion in `stopJavaScriptThreads` holds whenever the set is copied. */
  lemma SnapshotHasFourThreads(steps: seq<Step>, threads: seq<Tid>)
    requires Possible(INIT, steps) && Enabled(Run(INIT, steps), Snapshot(threads))
    ensures |threads| == THREADS_COUNT
  {
    PoolInvariant(steps);
    CopySize(threads, Run(INIT, steps).pool);
  }

  // ----- Shutdown -----

  /** The most steps a worker and its replacement can still take once the flag is up. */
  function Weight(p: Place, inside: bool): nat {
    match p
    case Finished => 0
    case CleanUp => if inside then 1 else 2
    case CheckFlag => if inside then 3 else 4
    case MakeObjects => if inside then 5 else 6
    case Evaluate => if inside then 7 else 8
    case CreateScript => if inside then 9 else 10
    case CreateContext => if inside then 11 else 12
    case Add => 15
    case Remove => 16
    case Respawn => if inside then 17 else 18
    case Toss => 19
  }

  function Weights(s: State): map<Tid, nat> {
    map t | t in s.place :: Weight(s.place[t], s.holder == Some(t))
  }

  function TotalWeight(w: map<Tid, nat>, n: nat): nat {
    if n == 0 then 0 else TotalWeight(w, n - 1) + if n - 1 in w then w[n - 1] else 0
  }

  function Measure(s: State): nat {
    TotalWeight(Weights(s), s.nextId)
  }

  lemma {:induction false} TotalWeightUpdate(w: map<Tid, nat>, t: Tid, x: nat, n: nat)
    ensures TotalWeight(w[t := x], n) ==
            TotalWeight(w, n) + if t < n then x - (if t in w then w[t] else 0) else 0
    decreases n
  {
    if n > 0 {
      TotalWeightUpdate(w, t, x, n - 1);
    }
  }

  /** A step of `t` changes the weight of no other worker. */
  lemma WeightsUpdate(s: State, s': State, t: Tid)
    requires t in s.place && t in s'.place && s'.place == s.place[t := s'.place[t]]
    requires forall u :: u in s.place && u != t ==> (s.holder == Some(u)) == (s'.holder == Some(u))
    ensures Weights(s') == Weights(s)[t := Weight(s'.place[t], s'.holder == Some(t))]
  {
  }

  lemma MoveLowersMeasure(s: State, s': State, t: Tid)
    requires WorkersInv(s) && t in s.place && t in s'.place && s'.place == s.place[t := s'.place[t]]
    requires forall u :: u in s.place && u != t ==> (s.holder == Some(u)) == (s'.holder == Some(u))
    requires Weight(s'.place[t], s'.holder == Some(t)) < Weight(s.place[t], s.holder == Some(t))
    requires s'.nextId == s.nextId
    ensures Measure(s') < Measure(s)
  {
    WeightsUpdate(s, s', t);
    TotalWeightUpdate(Weights(s), t, Weight(s'.place[t], s'.holder == Some(t)), s.nextId);
  }

  lemma AddWeights(s: State, t: Tid, s': State)
    requires t in s.place && s.holder == Some(t) && s' == AddOne(s, t)
    ensures Weights(s') == Weights(s)[t := 2][s.nextId := 12]
  {
  }

  lemma AddLowersMeasure(s: State, t: Tid, s': State)
    requires WorkersInv(s) && t in s.place && s.place[t] == Add && s.holder == Some(t) && s' == AddOne(s, t)
    ensures Measure(s') < Measure(s)
  {
    AddWeights(s, t, s');
    TotalWeightUpdate(Weights(s), t, 2, s.nextId);
    TotalWeightUpdate(Weights(s)[t := 2], s.nextId, 12, s.nextId + 1);
    TotalWeightUpdate(Weights(s)[t := 2], s.nextId, 12, s.nextId);
  }

  lemma InsideLowersMeasure(s: State, t: Tid)
    requires Inv(s) && s.terminate && t in s.place && s.place[t] != Toss && s.holder == Some(t)
    ensures Measure(Inside(s, t)) < Measure(s)
  {
    var s' := Inside(s, t);
    if s.place[t] == Add {
      AddLowersMeasure(s, t, s');
    } else {
      MoveLowersMeasure(s, s', t);
    }
  }

  /** Once the flag is up, every worker step lowers the measure. */
  lemma WorkLowersMeasure(s: State, t: Tid, respawn: bool)
    requires Inv(s) && s.terminate && Enabled(s, Work(t, respawn))
    ensures Measure(Apply(s, Work(t, respawn))) < Measure(s)
  {
    if s.place[t] == Toss || s.holder.None? {
      assert s.holder != Some(t) && !Replacing(s.place[t]);
      MoveLowersMeasure(s, Apply(s, Work(t, respawn)), t);
    } else {
      InsideLowersMeasure(s, t);
    }
  }

  function WorkSteps(steps: seq<Step>): nat {
    if steps == [] then 0 else (if steps[0].Work? then 1 else 0) + WorkSteps(steps[1..])
  }

  lemma MainKeepsMeasure(s: State, step: Step)
    requires Inv(s) && s.terminate && Enabled(s, step) && !step.Work?
    ensures Measure(Apply(s, step)) == Measure(s) && Apply(s, step).terminate
  {
    assert Weights(Apply(s, step)) == Weights(s);
  }

  lemma StepLowersMeasure(s: State, step: Step)
    requires Inv(s) && s.terminate && Enabled(s, step)
    ensures (if step.Work? then 1 else 0) + Measure(Apply(s, step)) <= Measure(s)
    ensures Inv(Apply(s, step)) && Apply(s, step).terminate
  {
    StepKeepsInv(s, step);
    if step.Work? {
      WorkLowersMeasure(s, step.t, step.respawn);
    } else {
      MainKeepsMeasure(s, step);
    }
  }

  /** From any reachable state with the flag up, the workers together take at most `Measure`
      more steps, whatever the interleaving and the coin tosses. */
  lemma {:induction false} ShutdownBound(s: State, steps: seq<Step>)
    requires Inv(s) && s.terminate && Possible(s, steps)
    ensures WorkSteps(steps) + Measure(Run(s, steps)) <= Measure(s)
    decreases steps
  {
    if steps != [] {
      StepLowersMeasure(s, steps[0]);
      ShutdownBound(Apply(s, steps[0]), steps[1..]);
    }
  }

  lemma {:induction false} NoWeight(w: map<Tid, nat>, n: nat)
    requires TotalWeight(w, n) == 0
    ensures forall t :: t in w && t < n ==> w[t] == 0
    decreases n
  {
    if n > 0 {
      NoWeight(w, n - 1);
    }
  }

  lemma NothingLeft(s: State)
    requires WorkersInv(s) && Measure(s) == 0
    ensures forall t :: t in s.place ==> s.place[t] == Finished
  {
    NoWeight(Weights(s), s.nextId);
    forall t | t in s.place ensures s.place[t] == Finished {
      assert Weights(s)[t] == Weight(s.place[t], s.holder == Some(t)) == 0;
    }
  }

  lemma SomebodyCanWork(s: State, t: Tid)
    requires Inv(s) && t in s.place && s.place[t] != Finished
    ensures exists u :: Enabled(s, Work(u, false))
  {
    assert Enabled(s, Work(if s.holder.Some? then s.holder.value else t, false));
  }

  /** A run in which workers take that many steps leaves every worker finished; until then some
      worker can go on. */
  lemma WorkersFinish(s: State, steps: seq<Step>)
    requires Inv(s) && s.terminate && Possible(s, steps)
    ensures var s' := Run(s, steps);
            && (WorkSteps(steps) == Measure(s) ==> forall t :: t in s'.place ==> s'.place[t] == Finished)
            && ((exists t :: t in s'.place && s'.place[t] != Finished) ==> exists t :: Enabled(s', Work(t, false)))
  {
    ShutdownBound(s, steps);
    RunKeepsInv(s, steps);
    var s' := Run(s, steps);
    if WorkSteps(steps) == Measure(s) {
      NothingLeft(s');
    }
    if t :| t in s'.place && s'.place[t] != Finished {
      SomebodyCanWork(s', t);
    }
  }

  /** A worker between its look at the flag and the end of its loop. */
  ghost predicate PastCheck(s: State, t: Tid) {
    t in s.place && (s.place[t].Toss? || s.place[t].Respawn? || Replacing(s.place[t]))
  }

  ghost predicate NobodyLate(s: State) {
    forall t :: !PastCheck(s, t)
  }

  /** The step with which a worker creates its replacement. */
  ghost predicate Replaces(s: State, step: Step) {
    step.Work? && step.t in s.place && s.place[step.t].Add?
  }

  /** The threads that replace themselves in a run, in order. */
  ghost function Respawners(s: State, steps: seq<Step>): seq<Tid>
    requires Possible(s, steps)
    decreases steps
  {
    if steps == [] then []
    else (if Replaces(s, steps[0]) then [steps[0].t] else []) + Respawners(Apply(s, steps[0]), steps[1..])
  }

  /** Once the flag is up, nobody gets past the check any more. */
  lemma NobodyPassesCheck(s: State, step: Step)
    requires Inv(s) && s.terminate && Enabled(s, step)
    ensures Apply(s, step).terminate && forall t :: PastCheck(Apply(s, step), t) ==> PastCheck(s, t)
    ensures Replaces(s, step) ==> PastCheck(s, step.t) && !PastCheck(Apply(s, step), step.t)
  {
  }

  ghost predicate AllLate(s: State, ts: seq<Tid>) {
    forall i :: 0 <= i < |ts| ==> PastCheck(s, ts[i])
  }

  lemma LateCons(s: State, s': State, t: Tid, ts: seq<Tid>)
    requires AllLate(s', ts) && Distinct(ts) && PastCheck(s, t) && !PastCheck(s', t)
    requires forall u :: PastCheck(s', u) ==> PastCheck(s, u)
    ensures AllLate(s, [t] + ts) && Distinct([t] + ts)
  {
  }

  /** Once the flag is up, only workers already past the check respawn, each at most once; in
      particular no replacement ever does. */
  lemma {:induction false} OnlyLateWorkersRespawn(s: State, steps: seq<Step>)
    requires Inv(s) && s.terminate && Possible(s, steps)
    ensures AllLate(s, Respawners(s, steps)) && Distinct(Respawners(s, steps))
    decreases steps
  {
    if steps != [] {
      var s' := Apply(s, steps[0]);
      var rest := Respawners(s', steps[1..]);
      StepKeepsInv(s, steps[0]);
      NobodyPassesCheck(s, steps[0]);
      OnlyLateWorkersRespawn(s', steps[1..]);
      if Replaces(s, steps[0]) {
        LateCons(s, s', steps[0].t, rest);
      } else {
        assert Respawners(s, steps) == rest;
      }
    }
  }
}

/** WorkQueueManager.cpp: the work queue without a fixed capacity, which refuses items while a load
    that it started is outstanding. */
module WorkQueueManager {
  import opened WorkQueue

  // ----- The abstract manager -----

  /** `processing` is set while a load is outstanding. */
  datatype Manager = Manager(items: seq<Item>, processing: bool, received: seq<Item>, released: seq<Item>)

  const IDLE := Manager([], false, [], [])

  function Offer(m: Manager, item: Item): Manager {
    if m.processing then m.(received := m.received + [item], released := m.released + [item])
    else m.(items := m.items + [item], received := m.received + [item])
  }

  function OfferAll(m: Manager, items: seq<Item>): Manager
    decreases items
  {
    if items == [] then m else OfferAll(Offer(m, items[0]), items[1..])
  }

  function Drop(m: Manager): Manager {
    m.(items := [], processing := false, released := m.released + m.items)
  }

  /** One turn of the loop: the first item is taken out, invoked and destroyed. */
  function Turn(m: Manager, effect: Effect): Manager
    requires m.items != []
  {
    var m1 := OfferAll(m.(items := m.items[1..]), effect.queued);
    m1.(processing := effect.startsLoad, released := m1.released + [m.items[0]])
  }

  predicate Stopped(m: Manager) {
    m.processing || m.items == []
  }

  /** The invoked items and the manager after at most `n` turns from turn `k` on. */
  function Turns(m: Manager, world: World, k: nat, n: nat): (seq<(Item, bool)>, Manager)
    decreases n
  {
    if n == 0 || Stopped(m) then ([], m)
    else
      var item := m.items[0];
      var effect := world(k, item);
      var (trace, m1) := Turns(Turn(m, effect), world, k + 1, n - 1);
      ([(item, effect.startsLoad)] + trace, m1)
  }

  // ----- Laws -----

  ghost predicate ConservedPlus(m: Manager, out: multiset<Item>) {
    multiset(m.received) == multiset(m.released) + multiset(m.items) + out
  }

  lemma {:induction false} OfferAllConserves(m: Manager, items: seq<Item>, out: multiset<Item>)
    requires ConservedPlus(m, out)
    ensures ConservedPlus(OfferAll(m, items), out)
    decreases items
  {
    if items != [] {
      OfferAllConserves(Offer(m, items[0]), items[1..], out);
    }
  }

  lemma {:induction false} OfferAllItems(m: Manager, items: seq<Item>)
    ensures OfferAll(m, items).processing == m.processing
    ensures OfferAll(m, items).items == m.items + if m.processing then [] else items
    decreases items
  {
    if items != [] {
      OfferAllItems(Offer(m, items[0]), items[1..]);
    }
  }

  /** Dropping the queue forgets an outstanding load: items offered behind it are waiting, all of them
      and in order, and the next turn of the loop takes the first. */
  lemma OfferedAfterDrop(m: Manager, items: seq<Item>)
    ensures OfferAll(Drop(m), items).items == items
    ensures Stopped(OfferAll(Drop(m), items)) <==> items == []
  {
    OfferAllItems(Drop(m), items);
  }

  lemma TurnConserves(m: Manager, effect: Effect)
    requires ConservedPlus(m, multiset{}) && m.items != []
    ensures ConservedPlus(Turn(m, effect), multiset{})
  {
    assert m.items == [m.items[0]] + m.items[1..];
    OfferAllConserves(m.(items := m.items[1..]), effect.queued, multiset{m.items[0]});
  }

  lemma TurnItems(m: Manager, effect: Effect)
    requires !Stopped(m)
    ensures Turn(m, effect).items == m.items[1..] + effect.queued
  {
    OfferAllItems(m.(items := m.items[1..]), effect.queued);
  }

  lemma {:induction false} TurnsConserve(m: Manager, world: World, k: nat, n: nat)
    requires ConservedPlus(m, multiset{})
    ensures ConservedPlus(Turns(m, world, k, n).1, multiset{})
    decreases n
  {
    if n > 0 && !Stopped(m) {
      var effect := world(k, m.items[0]);
      TurnConserves(m, effect);
      TurnsConserve(Turn(m, effect), world, k + 1, n - 1);
    }
  }

  /** However many turns are taken: a load is outstanding exactly when the last invoked item started
      it, and no other item did.  So the loop ends with an empty queue, or with a load outstanding. */
  lemma {:induction false} TurnsLaw(m: Manager, world: World, k: nat, n: nat)
    requires !m.processing
    ensures var (trace, r) := Turns(m, world, k, n); LastAloneLoads(!r.processing, trace)
    decreases n
  {
    if n > 0 && !Stopped(m) {
      var effect := world(k, m.items[0]);
      var m1 := Turn(m, effect);
      if effect.startsLoad {
        assert Turns(m1, world, k + 1, n - 1) == ([], m1);
        assert [(m.items[0], true)] + [] == [(m.items[0], true)];
      } else {
        TurnsLaw(m1, world, k + 1, n - 1);
        var (trace, r) := Turns(m1, world, k + 1, n - 1);
        LoadlessFirst(m.items[0], !r.processing, trace);
      }
    }
  }

  /** Items are invoked in the order in which they were accepted. */
  lemma {:induction false} TurnsAreFifo(m: Manager, world: World, k: nat, n: nat)
    requires !m.processing
    ensures var r := Turns(m, world, k, n);
            m.items + Accepted(r.0, world, k, false) == Invoked(r.0) + r.1.items
    decreases n
  {
    if n == 0 || Stopped(m) {
      assert m.items + [] == [] + m.items;
    } else {
      var item, effect := m.items[0], world(k, m.items[0]);
      var m1 := Turn(m, effect);
      var later := Turns(m1, world, k + 1, n - 1);
      TurnItems(m, effect);
      if effect.startsLoad {
        assert later == ([], m1) && m1.items + [] == [] + m1.items;
      } else {
        TurnsAreFifo(m1, world, k + 1, n - 1);
      }
      FifoCons(m, world, k, item, effect, later.0, later.1.items);
    }
  }

  lemma FifoCons(
    m: Manager, world: World, k: nat, item: Item, effect: Effect, later: seq<(Item, bool)>, left: seq<Item>)
    requires m.items != [] && item == m.items[0] && effect == world(k, item)
    requires (m.items[1..] + effect.queued) + Accepted(later, world, k + 1, false) == Invoked(later) + left
    ensures var trace := [(item, effect.startsLoad)] + later;
            m.items + Accepted(trace, world, k, false) == Invoked(trace) + left
  {
    var trace := [(item, effect.startsLoad)] + later;
    assert trace[1..] == later && m.items == [item] + m.items[1..];
    FifoStep(item, m.items[1..], effect.queued, Accepted(later, world, k + 1, false), Invoked(later), left);
  }

  /** Further turns pick up where earlier ones stopped. */
  lemma {:induction false} TurnsAppend(m: Manager, world: World, k: nat, n: nat, m1: Manager, trace: seq<(Item, bool)>)
    requires Turns(m, world, k, n) == (trace, m1) && |trace| == n && !Stopped(m1)
    ensures var effect := world(k + n, m1.items[0]);
            Turns(m, world, k, n + 1) == (trace + [(m1.items[0], effect.startsLoad)], Turn(m1, effect))
    decreases n
  {
    if n == 0 {
      var effect := world(k, m1.items[0]);
      var m2 := Turn(m1, effect);
      assert Turns(m2, world, k + 1, 0) == ([], m2);
      assert [(m1.items[0], effect.startsLoad)] + [] == [] + [(m1.items[0], effect.startsLoad)];
    } else {
      var item := m.items[0];
      var effect := world(k, item);
      TurnsAppend(Turn(m, effect), world, k + 1, n - 1, m1, trace[1..]);
      var last := [(m1.items[0], world(k + n, m1.items[0]).startsLoad)];
      assert trace + last == [(item, effect.startsLoad)] + (trace[1..] + last);
    }
  }

  /** Once the loop has stopped, more turns change nothing. */
  lemma {:induction false} StoppedStays(m: Manager, world: World, k: nat, n: nat, more: nat)
    requires n <= more && Stopped(Turns(m, world, k, n).1)
    ensures Turns(m, world, k, more) == Turns(m, world, k, n)
    decreases n
  {
    if n > 0 && !Stopped(m) {
      StoppedStays(Turn(m, world(k, m.items[0])), world, k + 1, n - 1, more - 1);
    }
  }

  /** The loop need not end: it does not when every item queues itself again and starts no load. */
  lemma {:induction false} RequeueingNeverStops(m: Manager, world: World, k: nat, n: nat)
    requires !Stopped(m) && forall i, item :: world(i, item) == Effect([item], false)
    ensures !Stopped(Turns(m, world, k, n).1)
    decreases n
  {
    if n > 0 {
      TurnItems(m, world(k, m.items[0]));
      RequeueingNeverStops(Turn(m, world(k, m.items[0])), world, k + 1, n - 1);
    }
  }

  // ----- Runs -----

  /** `ProcessOp`: a call of processing that ends after at most `turns` turns. */
  datatype ManagerOp = OfferOp(item: Item) | DropOp | ProcessManagerOp(world: World, turns: nat)

  function Perform(m: Manager, op: ManagerOp): Manager {
    match op
    case OfferOp(item) => Offer(m, item)
    case DropOp => Drop(m)
    case ProcessManagerOp(world, turns) => Turns(m.(processing := false), world, 0, turns).1
  }

  function PerformAll(m: Manager, ops: seq<ManagerOp>): Manager
    decreases ops
  {
    if ops == [] then m else PerformAll(Perform(m, ops[0]), ops[1..])
  }

  /** Over every run every item passed in is waiting or destroyed, as often as it came in. */
  lemma {:induction false} RunsConserveItems(m: Manager, ops: seq<ManagerOp>)
    requires ConservedPlus(m, multiset{})
    ensures ConservedPlus(PerformAll(m, ops), multiset{})
    decreases ops
  {
    if ops != [] {
      if ops[0].ProcessManagerOp? {
        TurnsConserve(m.(processing := false), ops[0].world, 0, ops[0].turns);
      }
      RunsConserveItems(Perform(m, ops[0]), ops[1..]);
    }
  }

  // ----- The code -----

  class WorkQueueObject {
    var workQueue: seq<Item>
    var processing: bool
    ghost var received: seq<Item>
    ghost var released: seq<Item>

    ghost function Contents(): Manager
      reads this
    {
      Manager(workQueue, processing, received, released)
    }

    constructor ()
      ensures Contents() == IDLE
    {
      workQueue, processing, received, released := [], false, [], [];
    }

    method Enqueue(item: Item)
      modifies this
      ensures Contents() == Offer(old(Contents()), item)
    {
      received := received + [item];
      if processing {
        released := released + [item];
        return;
      }
      workQueue := workQueue + [item];
    }

    method ClearWorkQueue()
      modifies this
      ensures Contents() == Drop(old(Contents()))
    {
      processing := false;
      released := released + workQueue;
      workQueue := [];
    }

    method EnqueueEach(items: seq<Item>)
      modifies this
      ensures Contents() == OfferAll(old(Contents()), items)
    {
      var i := 0;
      while i < |items|
        invariant i <= |items| && OfferAll(Contents(), items[i..]) == OfferAll(old(Contents()), items)
      {
        assert items[i..][1..] == items[i + 1..];
        Enqueue(items[i]);
        i := i + 1;
      }
    }

    /** The loop ends when it does after some number of turns, `limit`; the state and the invoked
        items are then those after that many. */
    method ProcessWorkQueue(world: World, ghost limit: nat) returns (done: bool, ghost trace: seq<(Item, bool)>)
      requires Stopped(Turns(Contents().(processing := false), world, 0, limit).1)
      modifies this
      ensures (trace, Contents()) == Turns(old(Contents()).(processing := false), world, 0, limit)
      ensures Stopped(Contents()) && done == !processing
    {
      ghost var start := Contents().(processing := false);
      var k := 0;
      processing := false;
      trace := [];
      while !processing && workQueue != []
        invariant k <= limit && Turns(start, world, 0, k) == (trace, Contents()) && |trace| == k
        decreases limit - k
      {
        ghost var before := Contents();
        var item := workQueue[0];
        var effect := world(k, item);
        TurnsAppend(start, world, 0, k, before, trace);
        workQueue := workQueue[1..];
        EnqueueEach(effect.queued);
        processing := effect.startsLoad;
        released := released + [item];
        assert Contents() == Turn(before, effect);
        trace, k := trace + [(item, effect.startsLoad)], k + 1;
      }
      StoppedStays(start, world, 0, k, limit);
      done := !processing;
    }
  }
}

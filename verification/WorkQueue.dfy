/** WorkQueue.cpp: a queue of work items in a fixed array that is filled from the front and never
    wraps around, and the loop that invokes the items. */
module WorkQueue {
  import opened Wrappers

  /** An item, by its address. */
  type Item = nat

  const QUEUE_LENGTH: nat := 1024

  /** What invoking an item does: it queues further items and may start a load.  The world decides
      by the number of the invocation and the item. */
  datatype Effect = Effect(queued: seq<Item>, startsLoad: bool)
  type World = (nat, Item) -> Effect

  // ----- The abstract queue -----

  /** `items` are waiting, `used` slots of the array have been filled since it was last cleared;
      `received`, `released` and `handed` are the items ever passed in, deleted and dequeued. */
  datatype Queue = Queue(items: seq<Item>, used: nat, frozen: bool,
                         received: seq<Item>, released: seq<Item>, handed: seq<Item>)

  predicate Valid(q: Queue) {
    |q.items| <= q.used <= QUEUE_LENGTH
  }

  const EMPTY := Queue([], 0, false, [], [], [])

  /** `None`: the assertion that a slot is free fails. */
  function Enqueue(q: Queue, item: Item): (r: Option<Queue>)
    requires Valid(q)
    ensures r.Some? ==> Valid(r.value)
  {
    if q.used == QUEUE_LENGTH then None
    else if q.frozen then Some(q.(received := q.received + [item], released := q.released + [item]))
    else Some(q.(items := q.items + [item], used := q.used + 1, received := q.received + [item]))
  }

  function EnqueueAll(q: Queue, items: seq<Item>): (r: Option<Queue>)
    requires Valid(q)
    ensures r.Some? ==> Valid(r.value)
    decreases items
  {
    if items == [] then Some(q)
    else match Enqueue(q, items[0])
      case None => None
      case Some(q1) => EnqueueAll(q1, items[1..])
  }

  function Dequeue(q: Queue): (r: (Option<Item>, Queue))
    requires Valid(q)
    ensures Valid(r.1)
  {
    if q.items == [] then (None, q)
    else (Some(q.items[0]), q.(items := q.items[1..], handed := q.handed + [q.items[0]]))
  }

  function Clear(q: Queue): Queue {
    q.(items := [], used := 0, released := q.released + q.items)
  }

  /** The item at the front, invoked and deleted. */
  function InvokeFirst(q: Queue, effect: Effect): (r: Option<Queue>)
    requires Valid(q) && q.items != []
    ensures r.Some? ==> Valid(r.value)
  {
    match EnqueueAll(q.(items := q.items[1..]), effect.queued)
    case None => None
    case Some(q1) => Some(q1.(released := q1.released + [q.items[0]]))
  }

  /** Whether all work is done, the invoked items with what they answered, and the queue after. */
  datatype Outcome = Finished(done: bool, trace: seq<(Item, bool)>, queue: Queue) | AssertionFailed

  /** `q.used - |q.items|` slots have been dequeued. */
  function Process(q: Queue, world: World, k: nat): Outcome
    requires Valid(q)
    decreases QUEUE_LENGTH - (q.used - |q.items|), 1
  {
    if q.items == [] then Finished(true, [], q)
    else
      var item, effect := q.items[0], world(k, q.items[0]);
      match InvokeFirst(q, effect)
      case None => AssertionFailed
      case Some(q1) =>
        if effect.startsLoad then Finished(false, [(item, true)], q1)
        else
          EnqueueAllKeepsStart(q.(items := q.items[1..]), effect.queued);
          match Process(q1, world, k + 1)
          case AssertionFailed => AssertionFailed
          case Finished(done, trace, q2) => Finished(done, [(item, false)] + trace, q2)
  }

  /** Queueing does not move the start of the queue: this is why processing terminates. */
  lemma {:induction false} EnqueueAllKeepsStart(q: Queue, items: seq<Item>)
    requires Valid(q) && EnqueueAll(q, items).Some?
    ensures var r := EnqueueAll(q, items).value;
            && r.used - |r.items| == q.used - |q.items| && r.frozen == q.frozen
            && r.items == q.items + if q.frozen then [] else items
    decreases items
  {
    if items != [] {
      EnqueueAllKeepsStart(Enqueue(q, items[0]).value, items[1..]);
    }
  }

  /** While the queue takes items, a list is accepted exactly when there are slots for all of it;
      a frozen queue needs one free slot to drop any number of them. */
  lemma {:induction false} AcceptsExactly(q: Queue, items: seq<Item>)
    requires Valid(q)
    ensures EnqueueAll(q, items).Some? <==>
            items == [] || (if q.frozen then q.used < 1024 else q.used + |items| <= 1024)
    decreases items
  {
    if items != [] && Enqueue(q, items[0]).Some? {
      AcceptsExactly(Enqueue(q, items[0]).value, items[1..]);
    }
  }

  /** Clearing makes room again: behind it exactly the lists of at most 1024 items are accepted, and
      they are then what is waiting. */
  lemma ClearMakesRoom(q: Queue, items: seq<Item>)
    requires Valid(q) && !q.frozen
    ensures EnqueueAll(Clear(q), items).Some? <==> |items| <= 1024
    ensures |items| <= 1024 ==> EnqueueAll(Clear(q), items).value.items == items
  {
    AcceptsExactly(Clear(q), items);
    if |items| <= 1024 {
      EnqueueAllKeepsStart(Clear(q), items);
    }
  }

  // ----- Every item is released exactly once -----

  /** What was passed in is waiting, deleted or handed out, each item as often as it came in. */
  ghost predicate Conserved(q: Queue) {
    multiset(q.received) == multiset(q.released) + multiset(q.items) + multiset(q.handed)
  }

  lemma EnqueueConserves(q: Queue, item: Item)
    requires Valid(q) && Conserved(q) && Enqueue(q, item).Some?
    ensures Conserved(Enqueue(q, item).value)
  {
  }

  /** The same with one item out of the queue and not yet deleted. */
  ghost predicate ConservedBut(q: Queue, item: Item) {
    multiset(q.received) == multiset(q.released) + multiset(q.items) + multiset(q.handed) + multiset{item}
  }

  lemma {:induction false} EnqueueAllConserves(q: Queue, items: seq<Item>, item: Item)
    requires Valid(q) && ConservedBut(q, item) && EnqueueAll(q, items).Some?
    ensures ConservedBut(EnqueueAll(q, items).value, item)
    decreases items
  {
    if items != [] {
      EnqueueAllConserves(Enqueue(q, items[0]).value, items[1..], item);
    }
  }

  lemma DequeueConserves(q: Queue)
    requires Valid(q) && Conserved(q)
    ensures Conserved(Dequeue(q).1)
  {
    if q.items != [] {
      assert q.items == [q.items[0]] + q.items[1..];
    }
  }

  lemma InvokeConserves(q: Queue, effect: Effect)
    requires Valid(q) && Conserved(q) && q.items != [] && InvokeFirst(q, effect).Some?
    ensures Conserved(InvokeFirst(q, effect).value)
  {
    assert q.items == [q.items[0]] + q.items[1..];
    EnqueueAllConserves(q.(items := q.items[1..]), effect.queued, q.items[0]);
  }

  lemma {:induction false} ProcessConserves(q: Queue, world: World, k: nat)
    requires Valid(q) && Conserved(q) && Process(q, world, k).Finished?
    ensures var r := Process(q, world, k); Valid(r.queue) && Conserved(r.queue) && r.queue.frozen == q.frozen
    decreases QUEUE_LENGTH - (q.used - |q.items|)
  {
    if q.items != [] {
      var effect := world(k, q.items[0]);
      InvokeConserves(q, effect);
      EnqueueAllKeepsStart(q.(items := q.items[1..]), effect.queued);
      if !effect.startsLoad {
        ProcessConserves(InvokeFirst(q, effect).value, world, k + 1);
      }
    }
  }

  /** No item but the last started a load; the last did exactly when work is left undone. */
  ghost predicate LastAloneLoads(done: bool, trace: seq<(Item, bool)>) {
    && (!done ==> trace != [])
    && forall i :: 0 <= i < |trace| ==> (trace[i].1 <==> !done && i == |trace| - 1)
  }

  lemma LoadlessFirst(item: Item, done: bool, trace: seq<(Item, bool)>)
    requires LastAloneLoads(done, trace)
    ensures LastAloneLoads(done, [(item, false)] + trace)
  {
  }

  /** When processing says that all work is done the queue is empty, and otherwise the last invoked
      item, and no other, started a load. */
  lemma {:induction false} ProcessLaw(q: Queue, world: World, k: nat)
    requires Valid(q) && Process(q, world, k).Finished?
    ensures var r := Process(q, world, k); (r.done ==> r.queue.items == []) && LastAloneLoads(r.done, r.trace)
    decreases QUEUE_LENGTH - (q.used - |q.items|)
  {
    if q.items != [] {
      var effect := world(k, q.items[0]);
      EnqueueAllKeepsStart(q.(items := q.items[1..]), effect.queued);
      if !effect.startsLoad {
        var q1 := InvokeFirst(q, effect).value;
        ProcessLaw(q1, world, k + 1);
        var r := Process(q1, world, k + 1);
        LoadlessFirst(q.items[0], r.done, r.trace);
      }
    }
  }

  // ----- First in, first out -----

  function Invoked(trace: seq<(Item, bool)>): seq<Item> {
    if trace == [] then [] else [trace[0].0] + Invoked(trace[1..])
  }

  /** The items that the invoked ones had accepted, in order. */
  function Accepted(trace: seq<(Item, bool)>, world: World, k: nat, frozen: bool): seq<Item>
    decreases trace
  {
    if trace == [] then []
    else (if frozen then [] else world(k, trace[0].0).queued) + Accepted(trace[1..], world, k + 1, frozen)
  }

  lemma FifoStep(
    item: Item, waiting: seq<Item>, queued: seq<Item>, later: seq<Item>, invoked: seq<Item>, left: seq<Item>)
    requires (waiting + queued) + later == invoked + left
    ensures ([item] + waiting) + (queued + later) == ([item] + invoked) + left
  {
    assert ([item] + waiting) + (queued + later) == [item] + ((waiting + queued) + later);
  }

  /** Items are invoked in the order of their arrival: first those waiting, then those accepted
      meanwhile; what is left are the last arrivals. */
  lemma {:induction false} ProcessIsFifo(q: Queue, world: World, k: nat)
    requires Valid(q) && Process(q, world, k).Finished?
    ensures var r := Process(q, world, k);
            q.items + Accepted(r.trace, world, k, q.frozen) == Invoked(r.trace) + r.queue.items
    decreases QUEUE_LENGTH - (q.used - |q.items|)
  {
    if q.items != [] {
      var item, effect, waiting := q.items[0], world(k, q.items[0]), q.items[1..];
      var queued := if q.frozen then [] else effect.queued;
      EnqueueAllKeepsStart(q.(items := waiting), effect.queued);
      var q1 := InvokeFirst(q, effect).value;
      assert q.items == [item] + waiting && q1.items == waiting + queued;
      if effect.startsLoad {
        assert [(item, true)][1..] == [];
        FifoStep(item, waiting, queued, [], [], q1.items);
        assert queued + [] == queued;
      } else {
        ProcessIsFifo(q1, world, k + 1);
        var r := Process(q1, world, k + 1);
        assert ([(item, false)] + r.trace)[1..] == r.trace;
        FifoStep(item, waiting, queued, Accepted(r.trace, world, k + 1, q.frozen), Invoked(r.trace), r.queue.items);
      }
    }
  }

  // ----- Runs -----

  datatype Op = EnqueueOp(item: Item) | DequeueOp | ClearOp | SetFrozen(frozen: bool) | ProcessOp(world: World)

  /** `None` when an assertion fails. */
  function Do(q: Queue, op: Op): (r: Option<Queue>)
    requires Valid(q)
  {
    match op
    case EnqueueOp(item) => Enqueue(q, item)
    case DequeueOp => Some(Dequeue(q).1)
    case ClearOp => Some(Clear(q))
    case SetFrozen(b) => Some(q.(frozen := b))
    case ProcessOp(world) =>
      match Process(q, world, 0)
      case AssertionFailed => None
      case Finished(_, _, q1) => Some(q1)
  }

  ghost predicate Reaches(q: Queue, ops: seq<Op>, r: Queue)
    decreases ops
  {
    Valid(q) && if ops == [] then q == r else Do(q, ops[0]).Some? && Reaches(Do(q, ops[0]).value, ops[1..], r)
  }

  lemma DoConserves(q: Queue, op: Op)
    requires Valid(q) && Conserved(q) && Do(q, op).Some?
    ensures Valid(Do(q, op).value) && Conserved(Do(q, op).value)
  {
    match op
    case EnqueueOp(item) => EnqueueConserves(q, item);
    case DequeueOp => DequeueConserves(q);
    case ProcessOp(world) => ProcessConserves(q, world, 0);
    case _ =>
  }

  /** Over every run: nothing is lost, nothing is deleted twice. */
  lemma {:induction false} RunsConserve(q: Queue, ops: seq<Op>, r: Queue)
    requires Conserved(q) && Reaches(q, ops, r)
    ensures Valid(r) && Conserved(r)
    decreases ops
  {
    if ops != [] {
      DoConserves(q, ops[0]);
      RunsConserve(Do(q, ops[0]).value, ops[1..], r);
    }
  }

  /** No item occurs twice. */
  ghost predicate Once(s: seq<Item>) {
    forall x :: multiset(s)[x] <= 1
  }

  /** If no item is passed in twice, no item is deleted twice, none is deleted and still waiting or
      handed out, and once the queue is empty all others have been deleted. */
  lemma ReleasedOnce(ops: seq<Op>, r: Queue)
    requires Reaches(EMPTY, ops, r) && Once(r.received)
    ensures Once(r.released)
    ensures multiset(r.released) !! multiset(r.items) && multiset(r.released) !! multiset(r.handed)
    ensures r.items == [] ==> forall x :: x in r.received ==> x in r.released || x in r.handed
  {
    RunsConserve(EMPTY, ops, r);
    forall x ensures multiset(r.released)[x] + multiset(r.items)[x] + multiset(r.handed)[x] <= 1 {
      assert multiset(r.received)[x] <= 1;
    }
    if r.items == [] {
      forall x | x in r.received ensures x in r.released || x in r.handed {
        assert x in multiset(r.received);
      }
    }
  }
}

/** The queue of WorkQueue.cpp as the array and indices that its functions update in place. */
module SharedWorkQueue {
  import opened Wrappers
  import opened WorkQueue

  /** The static array with its two indices, and the frozen flag. */
  class SharedWorkQueue {
    const theQueue: array<Item>
    var startOfQueue: nat
    var endOfQueue: nat
    var frozen: bool
    ghost var received: seq<Item>
    ghost var released: seq<Item>
    ghost var handed: seq<Item>

    ghost predicate Ready()
      reads this
    {
      theQueue.Length == QUEUE_LENGTH && startOfQueue <= endOfQueue <= QUEUE_LENGTH
    }

    /** The abstract queue: the window of the array between the two indices. */
    ghost function Contents(): (q: Queue)
      requires Ready()
      reads this, theQueue
      ensures WorkQueue.Valid(q)
    {
      Queue(theQueue[startOfQueue..endOfQueue], endOfQueue, frozen, received, released, handed)
    }

    constructor ()
      ensures Ready() && Contents() == EMPTY && fresh(theQueue)
    {
      theQueue := new Item[QUEUE_LENGTH](_ => 0);
      startOfQueue, endOfQueue, frozen := 0, 0, false;
      received, released, handed := [], [], [];
    }

    /** `ok` is false when the assertion that a slot is free fails. */
    method Enqueue(item: Item) returns (ok: bool)
      requires Ready()
      modifies this, theQueue
      ensures Ready() && ok == WorkQueue.Enqueue(old(Contents()), item).Some?
      ensures ok ==> Contents() == WorkQueue.Enqueue(old(Contents()), item).value
    {
      if endOfQueue == QUEUE_LENGTH {
        return false;
      }
      received := received + [item];
      if frozen {
        released := released + [item];
        return true;
      }
      theQueue[endOfQueue] := item;
      endOfQueue := endOfQueue + 1;
      return true;
    }

    method Dequeue() returns (item: Option<Item>)
      requires Ready()
      modifies this
      ensures Ready() && (item, Contents()) == WorkQueue.Dequeue(old(Contents()))
    {
      if startOfQueue == endOfQueue {
        return None;
      }
      item := Some(theQueue[startOfQueue]);
      handed := handed + [theQueue[startOfQueue]];
      startOfQueue := startOfQueue + 1;
    }

    method Count() returns (n: nat)
      requires Ready()
      ensures n == |Contents().items|
    {
      n := endOfQueue - startOfQueue;
    }

    method SetFrozen(b: bool)
      requires Ready()
      modifies this
      ensures Ready() && Contents() == old(Contents()).(frozen := b)
    {
      frozen := b;
    }

    method Clear()
      requires Ready()
      modifies this, theQueue
      ensures Ready() && Contents() == WorkQueue.Clear(old(Contents()))
    {
      ghost var items, start := theQueue[startOfQueue..endOfQueue], startOfQueue;
      var i := startOfQueue;
      while i < endOfQueue
        invariant start <= i <= endOfQueue && endOfQueue == old(endOfQueue)
        invariant frozen == old(frozen) && received == old(received) && handed == old(handed)
        invariant forall j :: i <= j < endOfQueue ==> theQueue[j] == items[j - start]
        invariant released == old(released) + items[..i - start]
      {
        released := released + [theQueue[i]];
        theQueue[i] := 0;
        i := i + 1;
        assert items[..i - start] == items[..i - 1 - start] + [items[i - 1 - start]];
      }
      assert items[..endOfQueue - start] == items;
      startOfQueue := 0;
      endOfQueue := 0;
    }

    method EnqueueEach(items: seq<Item>) returns (ok: bool)
      requires Ready()
      modifies this, theQueue
      ensures Ready() && ok == EnqueueAll(old(Contents()), items).Some?
      ensures ok ==> Contents() == EnqueueAll(old(Contents()), items).value
    {
      var i := 0;
      while i < |items|
        invariant i <= |items| && Ready()
        invariant EnqueueAll(Contents(), items[i..]) == EnqueueAll(old(Contents()), items)
      {
        assert items[i..][1..] == items[i + 1..];
        ok := Enqueue(items[i]);
        if !ok {
          return false;
        }
        i := i + 1;
      }
      ok := true;
    }

    /** Takes the first item out, lets it have its effect and deletes it. */
    method Invoke(item: Item, effect: Effect) returns (ok: bool)
      requires Ready() && startOfQueue < endOfQueue && theQueue[startOfQueue] == item
      modifies this, theQueue
      ensures Ready() && ok == InvokeFirst(old(Contents()), effect).Some?
      ensures ok ==> Contents() == InvokeFirst(old(Contents()), effect).value
    {
      startOfQueue := startOfQueue + 1;
      assert Contents() == old(Contents()).(items := old(Contents()).items[1..]);
      ok := EnqueueEach(effect.queued);
      if ok {
        released := released + [item];
      }
    }

    /** Invokes items until one starts a load or none is left; `None` when an assertion fails. */
    method ProcessWork(world: World) returns (done: Option<bool>, ghost trace: seq<(Item, bool)>)
      requires Ready()
      modifies this, theQueue
      ensures Ready()
      ensures match Process(old(Contents()), world, 0)
              case AssertionFailed => done.None?
              case Finished(d, t, q) => done == Some(d) && trace == t && Contents() == q
    {
      var k, startedLoad := 0, false;
      trace := [];
      ghost var total := Process(Contents(), world, 0);
      ProcessedNothing(total);
      while !startedLoad && startOfQueue < endOfQueue
        invariant Ready()
        invariant if startedLoad then total == Finished(false, trace, Contents())
                  else total == Continue(trace, Process(Contents(), world, k))
        decreases !startedLoad, QUEUE_LENGTH - startOfQueue
      {
        ghost var q := Contents();
        var item := theQueue[startOfQueue];
        var effect := world(k, item);
        assert q.items[0] == item;
        ContinueOnce(trace, q, world, k);
        EnqueueAllStart(q, effect);
        var ok := Invoke(item, effect);
        if !ok {
          return None, trace;
        }
        trace := trace + [(item, effect.startsLoad)];
        startedLoad := effect.startsLoad;
        k := k + 1;
      }
      ContinueNothing(trace, Contents());
      done := Some(!startedLoad);
    }
  }

  /** An outcome after the items in `trace` have been invoked. */
  function Continue(trace: seq<(Item, bool)>, r: Outcome): Outcome {
    if r.AssertionFailed? then r else Finished(r.done, trace + r.trace, r.queue)
  }

  lemma ProcessedNothing(r: Outcome)
    ensures Continue([], r) == r
  {
    if r.Finished? {
      assert [] + r.trace == r.trace;
    }
  }

  lemma ContinueNothing(trace: seq<(Item, bool)>, q: Queue)
    ensures Continue(trace, Finished(true, [], q)) == Finished(true, trace, q)
  {
    assert trace + [] == trace;
  }

  lemma EnqueueAllStart(q: Queue, effect: Effect)
    requires Valid(q) && q.items != []
    ensures var r := InvokeFirst(q, effect); r.Some? ==> r.value.used - |r.value.items| > q.used - |q.items|
  {
    var q1 := q.(items := q.items[1..]);
    if EnqueueAll(q1, effect.queued).Some? {
      EnqueueAllKeepsStart(q1, effect.queued);
    }
  }

  lemma ContinueOnce(trace: seq<(Item, bool)>, q: Queue, world: World, k: nat)
    requires Valid(q) && q.items != []
    ensures var item, effect := q.items[0], world(k, q.items[0]);
            var longer := trace + [(item, effect.startsLoad)];
            Continue(trace, Process(q, world, k)) ==
            match InvokeFirst(q, effect)
            case None => AssertionFailed
            case Some(q1) =>
              if effect.startsLoad then Finished(false, longer, q1) else Continue(longer, Process(q1, world, k + 1))
  {
    var item, effect := q.items[0], world(k, q.items[0]);
    var r := InvokeFirst(q, effect);
    if r.Some? && !effect.startsLoad {
      var rest := Process(r.value, world, k + 1);
      if rest.Finished? {
        assert trace + ([(item, false)] + rest.trace) == (trace + [(item, false)]) + rest.trace;
      }
    }
  }
}

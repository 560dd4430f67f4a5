/** The event bus: a ring of 64 entries that refuses new events when it is full. */
module EventBus {
  import opened Bytes

  const CAPACITY: nat := 64

  /** The ring entry of the n-th event accepted. */
  function Slot(n: nat): (i: nat)
    ensures i < CAPACITY
  {
    n % CAPACITY
  }

  class EventBus<T(0)> {
    const queue: array<T>
    var head: nat
    var tail: nat
    var count: nat
    var totalPosted: nat
    var totalDispatched: nat
    var overflows: nat

    /** Every event ever accepted, in order, and how many of them have been popped. */
    ghost var accepted: seq<T>
    ghost var taken: nat
    ghost var refused: nat

    ghost predicate Valid()
      reads this, queue
    {
      && queue.Length == CAPACITY && head < CAPACITY && tail < CAPACITY && count <= CAPACITY
      && taken + count == |accepted|
      && tail == Slot(taken) && head == Slot(|accepted|)
      && (forall k {:trigger accepted[k]} :: taken <= k < |accepted| ==> queue[Slot(k)] == accepted[k])
      && totalPosted == |accepted| % WORD32
      && totalDispatched == taken % WORD32
      && overflows == refused % WORD32
    }

    constructor ()
      ensures Valid() && accepted == [] && taken == 0 && refused == 0 && fresh(queue)
    {
      queue := new T[CAPACITY];
      head, tail, count := 0, 0, 0;
      totalPosted, totalDispatched, overflows := 0, 0, 0;
      accepted, taken, refused := [], 0, 0;
    }

    /** The events waiting to be popped. */
    ghost function Pending(): seq<T>
      requires taken <= |accepted|
      reads this
    {
      accepted[taken..]
    }

    /** Accepts the event behind all others, or refuses it, changing nothing but the overflow count, when 64 wait. */
    method Post(event: T) returns (ok: bool)
      requires Valid()
      modifies this, queue
      ensures Valid()
      ensures ok <==> |old(Pending())| < 64
      ensures accepted == (if ok then old(accepted) + [event] else old(accepted))
      ensures taken == old(taken) && refused == old(refused) + if ok then 0 else 1
    {
      hide Slot;
      if count >= CAPACITY {
        CountUp(refused);
        overflows := (overflows + 1) % WORD32;
        refused := refused + 1;
        return false;
      }
      CountUp(|accepted|);
      SlotsDistinct(taken, |accepted|);
      NextSlot(|accepted|);
      queue[head] := event;
      head := (head + 1) % CAPACITY;
      count := count + 1;
      totalPosted := (totalPosted + 1) % WORD32;
      accepted := accepted + [event];
      return true;
    }

    /** The k-th event popped is the k-th event accepted, across any number of wraparounds. */
    method Pop() returns (event: Option<T>)
      requires Valid()
      modifies this
      ensures Valid()
      ensures event.None? <==> old(Pending()) == []
      ensures event.Some? ==>
              event.value == old(Pending())[0] && Pending() == old(Pending())[1..] && taken == old(taken) + 1
      ensures event.None? ==> taken == old(taken)
      ensures accepted == old(accepted) && refused == old(refused)
    {
      if count == 0 {
        return None;
      }
      hide Slot;
      NextSlot(taken);
      event := Some(queue[tail]);
      assert event.value == accepted[taken];
      tail := (tail + 1) % CAPACITY;
      count := count - 1;
      totalDispatched := (totalDispatched + 1) % WORD32;
      taken := taken + 1;
    }

    method Peek() returns (event: Option<T>)
      requires Valid()
      ensures event == if Pending() == [] then None else Some(Pending()[0])
    {
      if count == 0 {
        return None;
      }
      assert accepted[taken] == queue[tail];
      return Some(queue[tail]);
    }

    /** Posted minus dispatched, modulo the counters' width, is the depth. */
    method Depth() returns (depth: nat)
      requires Valid()
      ensures depth == |Pending()| && (totalPosted - totalDispatched) % 0x1_0000_0000 == depth
    {
      depth := count;
      Difference(|accepted|, taken);
    }
  }

  lemma {:induction false} SlotsDistinct(first: nat, n: nat)
    requires first <= n < first + CAPACITY
    ensures forall k {:trigger Slot(k)} :: first <= k < n ==> Slot(k) != Slot(n)
  {
  }

  lemma {:induction false} CountUp(n: nat)
    ensures (n % WORD32 + 1) % WORD32 == (n + 1) % WORD32
  {
  }

  lemma {:induction false} NextSlot(n: nat)
    ensures (Slot(n) + 1) % CAPACITY == Slot(n + 1)
  {
  }

  lemma {:induction false} Difference(posted: nat, taken: nat)
    requires taken <= posted <= taken + CAPACITY
    ensures (posted % WORD32 - taken % WORD32) % WORD32 == posted - taken
  {
  }
}

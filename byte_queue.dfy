/** The queue of incoming terminal characters (`terminal_in_queue`): a
    FreeRTOS queue of single bytes, created with room for 64 items. Only the
    FIFO behaviour the firmware relies on is modelled: a non-blocking send
    from the receive interrupt that fails on a full queue, and a
    non-blocking receive for the draining task. */
module ByteQueue {
  import opened Common

  /** Item count passed to xQueueCreate for the terminal queue. */
  const TERMINAL_QUEUE_LENGTH: nat := 64

  /** Outcome of offering one byte to a FIFO holding `items`. */
  datatype SendResult = SendResult(ok: bool, items: seq<byte>)

  /** A send into a bounded FIFO: it succeeds exactly when there is room,
      appends at the tail when it does, and leaves the queue as it was when
      it does not. */
  function TrySend(items: seq<byte>, capacity: nat, b: byte): (r: SendResult)
    ensures r.ok <==> |items| < capacity
    ensures r.ok ==> r.items == items + [b]
    ensures !r.ok ==> r.items == items
  {
    if |items| < capacity then SendResult(true, items + [b])
    else SendResult(false, items)
  }

  /** The queue after offering every byte of `xs` in turn. */
  function SendAll(items: seq<byte>, capacity: nat, xs: seq<byte>): seq<byte>
    decreases xs
  {
    if xs == [] then items
    else SendAll(TrySend(items, capacity, xs[0]).items, capacity, xs[1..])
  }

  /** Overflow only ever loses the newest bytes: offering `xs` to a queue
      that is within capacity keeps what was queued, followed by the oldest
      bytes of `xs` that fit, in the order they were offered. */
  lemma {:induction false} SendAllKeepsOldestInOrder(items: seq<byte>, capacity: nat, xs: seq<byte>)
    requires |items| <= capacity
    ensures SendAll(items, capacity, xs) == (items + xs)[..Min(capacity, |items| + |xs|)]
    decreases xs
  {
    if xs == [] {
      assert items + xs == items;
    } else {
      var next := TrySend(items, capacity, xs[0]).items;
      SendAllKeepsOldestInOrder(next, capacity, xs[1..]);
      if |items| < capacity {
        assert next + xs[1..] == items + xs;
      } else {
        assert (items + xs)[..capacity] == items;
        assert (next + xs[1..])[..capacity] == items;
      }
    }
  }

  /** Filling an empty queue of capacity N with N + 1 bytes: the first N
      are all retrievable in order and the last one is refused. */
  lemma BoundedDrop(capacity: nat, xs: seq<byte>)
    requires |xs| == capacity + 1
    ensures SendAll([], capacity, xs[..capacity]) == xs[..capacity]
    ensures !TrySend(SendAll([], capacity, xs[..capacity]), capacity, xs[capacity]).ok
  {
    SendAllKeepsOldestInOrder([], capacity, xs[..capacity]);
    assert [] + xs[..capacity] == xs[..capacity];
  }

  /** The FreeRTOS queue object; `items` lists the queued bytes, oldest
      first. */
  class Queue {
    const capacity: nat
    var items: seq<byte>

    ghost predicate Valid()
      reads this
    {
      |items| <= capacity
    }

    /** xQueueCreate: an empty queue with room for `capacity` bytes. */
    constructor (capacity: nat)
      ensures Valid()
      ensures this.capacity == capacity && items == []
    {
      this.capacity := capacity;
      items := [];
    }

    /** xQueueSendFromISR: never blocks; on a full queue the byte is dropped
        and false is returned. */
    method SendFromIsr(b: byte) returns (ok: bool)
      requires Valid()
      modifies this
      ensures Valid()
      ensures SendResult(ok, items) == TrySend(old(items), capacity, b)
    {
      ok := |items| < capacity;
      if ok {
        items := items + [b];
      }
    }

    /** xQueueReceive with a zero timeout: the oldest byte, or nothing when
        the queue is empty. */
    method Receive() returns (r: Option<byte>)
      requires Valid()
      modifies this
      ensures Valid()
      ensures old(items) == [] ==> r == None && items == []
      ensures old(items) != [] ==> r == Some(old(items)[0]) && items == old(items)[1..]
    {
      if items == [] {
        r := None;
      } else {
        r := Some(items[0]);
        items := items[1..];
      }
    }
  }
}

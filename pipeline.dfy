/** The path from the receive interrupt, through the queue, into the
    terminal buffer. The interrupt and the UART task interleave freely; each
    interrupt and each pass of the task's drain loop is taken as one atomic
    event. */
module Pipeline {
  import opened Common
  import ByteQueue
  import Terminal
  import RxHandler

  datatype Event =
    | Interrupt(rxc: bool, errorCode: bv8, data: nat)
    | DrainPass

  /** The queue of pending bytes and the terminal buffer. */
  datatype System = System(queue: seq<byte>, terminal: Terminal.Buffer)

  predicate Invariant(g: Terminal.Geometry, s: System)
  {
    |s.queue| <= ByteQueue.TERMINAL_QUEUE_LENGTH && Terminal.Invariant(g, s.terminal)
  }

  /** One event: an interrupt queues at most the byte it echoes; a drain pass
      hands every queued byte to the terminal and empties the queue. */
  function Next(g: Terminal.Geometry, s: System, e: Event): (r: System)
    requires Invariant(g, s)
    ensures Invariant(g, r)
  {
    match e
    case Interrupt(rxc, errorCode, data) =>
      var outcome := RxHandler.Decide(rxc, errorCode, data,
                                      |s.queue| < ByteQueue.TERMINAL_QUEUE_LENGTH);
      if outcome.Echoed? then System(s.queue + [outcome.b], s.terminal) else s
    case DrainPass =>
      System([], Terminal.Feed(g, s.terminal, s.queue))
  }

  /** The bytes one event echoes back to the sender. */
  function EchoOf(s: System, e: Event): seq<byte>
  {
    match e
    case Interrupt(rxc, errorCode, data) =>
      var outcome := RxHandler.Decide(rxc, errorCode, data,
                                      |s.queue| < ByteQueue.TERMINAL_QUEUE_LENGTH);
      if outcome.Echoed? then [outcome.b] else []
    case DrainPass => []
  }

  /** The bytes one event hands from the queue to the terminal. */
  function DrainedBy(s: System, e: Event): seq<byte>
  {
    if e.DrainPass? then s.queue else []
  }

  /** The state after a run of events, everything echoed on the way, and
      every byte the task took off the queue, in the order it took them. */
  datatype Trace = Trace(last: System, echoed: seq<byte>, drained: seq<byte>)

  function Run(g: Terminal.Geometry, s: System, events: seq<Event>): (r: Trace)
    requires Invariant(g, s)
    ensures Invariant(g, r.last)
    decreases events
  {
    if events == [] then Trace(s, [], [])
    else
      var rest := Run(g, Next(g, s, events[0]), events[1..]);
      Trace(rest.last, EchoOf(s, events[0]) + rest.echoed, DrainedBy(s, events[0]) + rest.drained)
  }

  /** One event: the queue followed by what it echoes is what it drains
      followed by the new queue. */
  lemma NextIsFifo(g: Terminal.Geometry, s: System, e: Event)
    requires Invariant(g, s)
    ensures s.queue + EchoOf(s, e) == DrainedBy(s, e) + Next(g, s, e).queue
  {
  }

  /** Two hand-overs in a row compose: bytes in followed by bytes echoed
      equal bytes out followed by what remains, across both. */
  lemma Regroup(q: seq<byte>, echo: seq<byte>, echoes: seq<byte>, out: seq<byte>, q': seq<byte>,
                outs: seq<byte>, remaining: seq<byte>)
    requires q + echo == out + q'
    requires q' + echoes == outs + remaining
    ensures q + (echo + echoes) == (out + outs) + remaining
  {
    calc {
      q + (echo + echoes);
      (q + echo) + echoes;
      (out + q') + echoes;
      out + (q' + echoes);
      out + (outs + remaining);
    }
  }

  /** The queue neither loses, reorders nor invents bytes: the starting
      queue followed by every echoed byte is exactly what the task drained
      followed by what is still queued. */
  lemma {:induction false} QueueIsFifo(g: Terminal.Geometry, s: System, events: seq<Event>)
    requires Invariant(g, s)
    ensures s.queue + Run(g, s, events).echoed ==
            Run(g, s, events).drained + Run(g, s, events).last.queue
    decreases events
  {
    var r := Run(g, s, events);
    if events == [] {
      assert s.queue + [] == s.queue;
      assert [] + s.queue == s.queue;
    } else {
      var e := events[0];
      var s' := Next(g, s, e);
      var rest := Run(g, s', events[1..]);
      assert r.echoed == EchoOf(s, e) + rest.echoed;
      assert r.drained == DrainedBy(s, e) + rest.drained;
      assert r.last == rest.last;
      QueueIsFifo(g, s', events[1..]);
      NextIsFifo(g, s, e);
      Regroup(s.queue, EchoOf(s, e), rest.echoed, DrainedBy(s, e), s'.queue, rest.drained, rest.last.queue);
    }
  }

  /** The terminal buffer is the starting buffer fed exactly the drained
      bytes, in order. */
  lemma {:induction false} TerminalFedDrained(g: Terminal.Geometry, s: System, events: seq<Event>)
    requires Invariant(g, s)
    ensures Run(g, s, events).last.terminal == Terminal.Feed(g, s.terminal, Run(g, s, events).drained)
    decreases events
  {
    var r := Run(g, s, events);
    if events == [] {
      assert r.last == s && r.drained == [];
    } else {
      var e := events[0];
      var s' := Next(g, s, e);
      var rest := Run(g, s', events[1..]);
      assert r.drained == DrainedBy(s, e) + rest.drained;
      assert r.last == rest.last;
      TerminalFedDrained(g, s', events[1..]);
      assert s'.terminal == Terminal.Feed(g, s.terminal, DrainedBy(s, e));
      Terminal.FeedAppend(g, s.terminal, DrainedBy(s, e), rest.drained);
    }
  }

  /** Order is kept end to end: whatever the interleaving, the terminal
      buffer followed by the bytes still queued is exactly the starting
      buffer fed the starting queue and then every echoed byte, in the order
      the interrupts echoed them. A byte is echoed exactly when it is queued,
      so the echo is also the sequence of accepted bytes. */
  lemma OrderPreserved(g: Terminal.Geometry, s: System, events: seq<Event>)
    requires Invariant(g, s)
    ensures Terminal.Feed(g, Run(g, s, events).last.terminal, Run(g, s, events).last.queue) ==
            Terminal.Feed(g, s.terminal, s.queue + Run(g, s, events).echoed)
  {
    var r := Run(g, s, events);
    QueueIsFifo(g, s, events);
    TerminalFedDrained(g, s, events);
    Terminal.FeedAppend(g, s.terminal, r.drained, r.last.queue);
  }

  /** Starting from an empty queue and ending with a drain pass, the
      terminal buffer is the starting buffer fed exactly the echoed bytes,
      in order. */
  lemma DeliveredInOrder(g: Terminal.Geometry, t: Terminal.Buffer, events: seq<Event>)
    requires Terminal.Invariant(g, t)
    requires events != [] && events[|events| - 1] == DrainPass
    ensures Run(g, System([], t), events).last.queue == []
    ensures Run(g, System([], t), events).last.terminal ==
            Terminal.Feed(g, t, Run(g, System([], t), events).echoed)
  {
    LastDrainEmpties(g, System([], t), events);
    OrderPreserved(g, System([], t), events);
    assert [] + Run(g, System([], t), events).echoed == Run(g, System([], t), events).echoed;
  }

  /** A run that ends with a drain pass leaves the queue empty. */
  lemma {:induction false} LastDrainEmpties(g: Terminal.Geometry, s: System, events: seq<Event>)
    requires Invariant(g, s)
    requires events != [] && events[|events| - 1] == DrainPass
    ensures Run(g, s, events).last.queue == []
    decreases events
  {
    if |events| > 1 {
      assert events[1..][|events[1..]| - 1] == DrainPass;
      LastDrainEmpties(g, Next(g, s, events[0]), events[1..]);
    }
  }
}

/**
 * The process-wide `queue`: a Go channel of strings with a buffer of 100.
 * The channel's buffer is modelled as a ring buffer over a fixed array.
 * A send on a full channel and a receive on an empty one block; here they
 * are simply not enabled, which the methods' preconditions state.
 */
module Queue {
  import opened Seqs

  /** The channel's buffer size, `make(chan string, 100)`. */
  const Capacity: nat := 100

  /** Array position of the i-th queued element when the oldest sits at `head`. */
  function Slot(head: nat, i: nat): nat {
    if head + i < Capacity then head + i else head + i - Capacity
  }

  class BoundedQueue {
    /** The queued messages, oldest first. */
    ghost var Contents: seq<string>

    var buf: array<string>
    var head: nat
    var count: nat

    ghost predicate Valid()
      reads this, buf
    {
      buf.Length == Capacity &&
      head < Capacity && count <= Capacity &&
      |Contents| == count &&
      forall i :: 0 <= i < count ==> Contents[i] == buf[Slot(head, i)]
    }

    constructor ()
      ensures Valid() && fresh(buf)
      ensures Contents == []
    {
      buf := new string[Capacity](_ => "");
      head, count := 0, 0;
      Contents := [];
    }

    /** A send would not block: the buffer has room. */
    predicate CanSend()
      reads this, buf
      requires Valid()
      ensures CanSend() <==> |Contents| < Capacity
    {
      count < Capacity
    }

    /** A receive would not block: the buffer holds a message. */
    predicate CanReceive()
      reads this, buf
      requires Valid()
      ensures CanReceive() <==> |Contents| > 0
    {
      count > 0
    }

    /** `queue <- m`: the message joins the tail; nothing else moves. */
    method Enqueue(m: string)
      requires Valid() && CanSend()
      modifies this, buf
      ensures Valid() && buf == old(buf)
      ensures Contents == After(old(Contents), Send(m))
      ensures Contents == old(Contents) + [m]
    {
      buf[Slot(head, count)] := m;
      count := count + 1;
      Contents := Contents + [m];
    }

    /** `<-queue`: the oldest message leaves and is returned. */
    method Dequeue() returns (m: string)
      requires Valid() && CanReceive()
      modifies this
      ensures Valid() && buf == old(buf)
      ensures [m] == Taken(old(Contents), Receive) && Contents == After(old(Contents), Receive)
      ensures m == old(Contents)[0] && Contents == old(Contents)[1..]
    {
      m := buf[head];
      head := if head + 1 == Capacity then 0 else head + 1;
      count := count - 1;
      Contents := Contents[1..];
    }
  }

  /**
   * Channel semantics over a whole history of operations, as values: the
   * reference the class's methods follow one step at a time (`Enqueue` is
   * `After` of a send, `Dequeue` is `Taken` and `After` of a receive).
   */
  datatype Op = Send(msg: string) | Receive

  /** The messages that a history sends, in order. */
  function Sent(ops: seq<Op>): seq<string> {
    if ops == [] then [] else SentBy(ops[0]) + Sent(ops[1..])
  }

  /** The message one operation sends, if it is a send. */
  function SentBy(op: Op): seq<string> {
    if op.Send? then [op.msg] else []
  }

  /** The outcome of a history: it blocks forever, or it ends with a buffer and the messages received. */
  datatype RunResult = Blocked | Done(buffer: seq<string>, received: seq<string>)

  /** An operation can proceed: a send needs room, a receive needs a message. */
  predicate Enabled(q: seq<string>, op: Op) {
    if op.Send? then |q| < Capacity else q != []
  }

  /** The buffer after an enabled operation. */
  function After(q: seq<string>, op: Op): seq<string>
    requires Enabled(q, op)
  {
    if op.Send? then q + [op.msg] else q[1..]
  }

  /** What an enabled operation receives: the oldest message for a receive, nothing for a send. */
  function Taken(q: seq<string>, op: Op): seq<string>
    requires Enabled(q, op)
  {
    if op.Send? then [] else [q[0]]
  }

  /**
   * Runs `ops` from buffer contents `q`: the final buffer and the messages
   * received, in order; Blocked when some operation would wait forever
   * because it is not enabled (a send on a full buffer, a receive on an
   * empty one). A history that does not block neither creates nor loses
   * a message: received and still buffered together count the initial
   * buffer and the messages sent.
   */
  function Run(q: seq<string>, ops: seq<Op>): (r: RunResult)
    ensures r.Done? ==> |r.received| + |r.buffer| == |q| + |Sent(ops)|
    decreases |ops|
  {
    if ops == [] then Done(q, [])
    else if !Enabled(q, ops[0]) then Blocked
    else
      var r := Run(After(q, ops[0]), ops[1..]);
      if r.Blocked? then Blocked else Done(r.buffer, Taken(q, ops[0]) + r.received)
  }

  /** One enabled operation keeps the received-then-buffered messages equal to the buffered-then-sent ones. */
  lemma StepIsFifo(q: seq<string>, op: Op)
    requires Enabled(q, op)
    ensures Taken(q, op) + After(q, op) == q + SentBy(op)
  {
    if op.Receive? {
      assert q == [q[0]] + q[1..];
    }
  }

  /** A history that does not block runs its first operation and then the rest. */
  lemma RunFirst(q: seq<string>, ops: seq<Op>)
    requires ops != [] && Run(q, ops).Done?
    ensures Enabled(q, ops[0]) && Run(After(q, ops[0]), ops[1..]).Done?
    ensures Run(q, ops).buffer == Run(After(q, ops[0]), ops[1..]).buffer
    ensures Run(q, ops).received == Taken(q, ops[0]) + Run(After(q, ops[0]), ops[1..]).received
  {
  }

  /**
   * FIFO: along any history that never blocks, the messages received
   * followed by those still buffered are the ones initially buffered
   * followed by those sent, so nothing is reordered, duplicated or lost.
   */
  lemma {:induction false} RunIsFifo(q: seq<string>, ops: seq<Op>)
    requires Run(q, ops).Done?
    ensures Run(q, ops).received + Run(q, ops).buffer == q + Sent(ops)
    decreases |ops|
  {
    if ops == [] {
      assert Sent(ops) == [];
    } else {
      var op := ops[0];
      var q' := After(q, op);
      RunFirst(q, ops);
      var r := Run(q', ops[1..]);
      RunIsFifo(q', ops[1..]);
      StepIsFifo(q, op);
      ChainFifo(Taken(q, op), q, q', SentBy(op), r.received, r.buffer, Sent(ops[1..]));
    }
  }

  /** Along any history that never blocks, the buffer stays within capacity. */
  lemma {:induction false} RunIsBounded(q: seq<string>, ops: seq<Op>)
    requires |q| <= Capacity
    requires Run(q, ops).Done?
    ensures |Run(q, ops).buffer| <= Capacity
    decreases |ops|
  {
    if ops != [] {
      RunFirst(q, ops);
      RunIsBounded(After(q, ops[0]), ops[1..]);
    }
  }

  /** A history that sends each of `ms` in turn. */
  function Sends(ms: seq<string>): seq<Op> {
    if ms == [] then [] else [Send(ms[0])] + Sends(ms[1..])
  }

  /** A send into a buffer with room goes through and appends its message. */
  lemma RunSend(q: seq<string>, m: string, rest: seq<Op>)
    requires |q| < Capacity
    ensures Run(q, [Send(m)] + rest) == Run(q + [m], rest)
  {
    HeadOfConcat([Send(m)], rest);
    assert [Send(m)][1..] + rest == rest;
  }

  /** A history of sends starts with the send of the first message. */
  lemma SendsFirst(ms: seq<string>, rest: seq<Op>)
    requires ms != []
    ensures Sends(ms) + rest == [Send(ms[0])] + (Sends(ms[1..]) + rest)
  {
  }

  /** Sends that fit in the buffer all go through and append their messages. */
  lemma {:induction false} SendsFit(q: seq<string>, ms: seq<string>, rest: seq<Op>)
    requires |q| + |ms| <= Capacity
    ensures Run(q, Sends(ms) + rest) == Run(q + ms, rest)
    decreases |ms|
  {
    if ms != [] {
      var m, ms' := ms[0], ms[1..];
      SendsFirst(ms, rest);
      RunSend(q, m, Sends(ms') + rest);
      SendsFit(q + [m], ms', rest);
      SnocThenRest(q, ms);
    } else {
      assert Sends(ms) + rest == rest && q + ms == q;
    }
  }

  /**
   * Backpressure: after `Capacity` sends into an empty buffer with no
   * receive, one more send blocks; once a receive has happened, that same
   * send goes through and the oldest message is the one received.
   */
  lemma SendBeyondCapacityBlocks(ms: seq<string>, m: string)
    requires |ms| == Capacity
    ensures Run([], Sends(ms) + [Send(m)]).Blocked?
    ensures Run([], Sends(ms) + [Receive, Send(m)]) == Done(ms[1..] + [m], [ms[0]])
  {
    SendsFit([], ms, [Send(m)]);
    SendsFit([], ms, [Receive, Send(m)]);
    assert [] + ms == ms;
    assert [Receive, Send(m)][1..] == [Send(m)];
    assert [Send(m)][1..] == [];
    assert Run(ms[1..], [Send(m)]) == Done(ms[1..] + [m], []);
    assert [ms[0]] + [] == [ms[0]];
  }
}

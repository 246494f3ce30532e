/**
 * `QueueHandler`: bind a TCP listener, accept exactly one connection, then
 * forever take the next message off the queue and write it to that
 * connection followed by CRLF. A bind or accept error is fatal
 * (`log.Fatal`); the result of each write is discarded.
 *
 * The outcomes the network decides (bind, accept, characters written) are
 * parameters, and the connection is the string its peer has received; a
 * character stands for a byte.
 */
module Relay {
  import opened Wrappers
  import opened Framing
  import opened Queue
  import opened Seqs

  /**
   * Starting: before `net.Listen`. Listening: bound, waiting in `Accept`.
   * Draining: connected, running the send loop. Terminated: a fatal error
   * ended the process.
   */
  datatype Phase = Starting | Listening | Draining | Terminated

  /** What the network answers at one step of the relay. */
  datatype Event =
    | Bind(ok: bool)        // result of net.Listen
    | Connect(ok: bool)     // result of ln.Accept
    | Write(written: nat)   // characters conn.Write got out for one message

  /**
   * One step of the relay, or None when the relay cannot take that step in
   * that phase. No step returns to Starting, a terminated relay takes no
   * step, and a draining relay takes exactly the write steps, staying
   * Draining.
   */
  function Step(p: Phase, e: Event): (r: Option<Phase>)
    ensures r != Some(Starting)
    ensures p == Terminated ==> r == None
    ensures p == Draining ==> r == if e.Write? then Some(Draining) else None
  {
    match (p, e)
    case (Starting, Bind(ok)) => Some(if ok then Listening else Terminated)
    case (Listening, Connect(ok)) => Some(if ok then Draining else Terminated)
    case (Draining, Write(_)) => Some(Draining)
    case _ => None
  }

  /**
   * The phase after a history of events, or None if the history is
   * impossible. The relay is in Starting only before its first event.
   */
  function Replay(p: Phase, evs: seq<Event>): (r: Option<Phase>)
    ensures r == Some(Starting) <==> p == Starting && evs == []
    decreases |evs|
  {
    if evs == [] then Some(p)
    else match Step(p, evs[0])
      case None => None
      case Some(p') => Replay(p', evs[1..])
  }

  /** Number of connections accepted in a history. */
  function Accepted(evs: seq<Event>): nat {
    if evs == [] then 0
    else (if evs[0] == Connect(true) then 1 else 0) + Accepted(evs[1..])
  }

  /** The events of a run of writes that got `ws[i]` characters out, in order. */
  function Writes(ws: seq<nat>): seq<Event> {
    if ws == [] then [] else [Write(ws[0])] + Writes(ws[1..])
  }

  /** One more write adds its event at the end. */
  lemma {:induction false} WritesSnoc(ws: seq<nat>, w: nat)
    ensures Writes(ws + [w]) == Writes(ws) + [Write(w)]
    decreases |ws|
  {
    if ws == [] {
      assert [] + [w] == [w];
    } else {
      HeadOfConcat(ws, [w]);
      WritesSnoc(ws[1..], w);
    }
  }

  /** The history of a draining relay: a good bind, a good accept, then its writes. */
  function DrainingHistory(ws: seq<nat>): seq<Event> {
    [Bind(true), Connect(true)] + Writes(ws)
  }

  /** One more write extends a draining history by its event. */
  lemma DrainingHistorySnoc(ws: seq<nat>, w: nat)
    ensures DrainingHistory(ws + [w]) == DrainingHistory(ws) + [Write(w)]
  {
    WritesSnoc(ws, w);
  }

  predicate AllWrites(evs: seq<Event>) {
    forall i :: 0 <= i < |evs| ==> evs[i].Write?
  }

  /**
   * Once draining, the relay only ever writes: every history of writes is
   * possible and keeps it draining, and any history with a bind or an
   * accept in it is impossible, so no second connection is ever accepted.
   */
  lemma {:induction false} DrainingIsClosed(evs: seq<Event>)
    ensures Replay(Draining, evs).Some? <==> AllWrites(evs)
    ensures Replay(Draining, evs).Some? ==> Replay(Draining, evs) == Some(Draining)
    decreases |evs|
  {
    if evs != [] {
      DrainingIsClosed(evs[1..]);
      if AllWrites(evs) {
        assert AllWrites(evs[1..]) by {
          forall i | 0 <= i < |evs| - 1 ensures evs[1..][i].Write? { assert evs[1..][i] == evs[i + 1]; }
        }
      } else if evs[0].Write? {
        var i :| 0 <= i < |evs| && !evs[i].Write?;
        assert !evs[1..][i - 1].Write?;
      }
    }
  }

  /** A terminated relay takes no further step. */
  lemma TerminatedIsFinal(evs: seq<Event>)
    ensures Replay(Terminated, evs) == if evs == [] then Some(Terminated) else None
  {
  }

  /** Leaving Starting takes a bind, whose result decides where the relay goes. */
  lemma FromStarting(evs: seq<Event>, p: Phase)
    requires Replay(Starting, evs) == Some(p) && p != Starting
    ensures evs != [] && evs[0].Bind?
    ensures Replay(if evs[0].ok then Listening else Terminated, evs[1..]) == Some(p)
  {
  }

  /** Leaving Listening takes an accept, whose result decides where the relay goes. */
  lemma FromListening(evs: seq<Event>, p: Phase)
    requires Replay(Listening, evs) == Some(p) && p != Listening
    ensures evs != [] && evs[0].Connect?
    ensures Replay(if evs[0].ok then Draining else Terminated, evs[1..]) == Some(p)
  {
  }

  /**
   * The relay reaches Draining only through one successful bind followed by
   * one successful accept, after which it only writes.
   */
  lemma DrainingOnlyAfterBindAndConnect(evs: seq<Event>)
    requires Replay(Starting, evs) == Some(Draining)
    ensures |evs| >= 2 && evs[0] == Bind(true) && evs[1] == Connect(true)
    ensures AllWrites(evs[2..])
  {
    FromStarting(evs, Draining);
    TerminatedIsFinal(evs[1..]);
    var rest := evs[1..];
    FromListening(rest, Draining);
    TerminatedIsFinal(rest[1..]);
    assert rest[1..] == evs[2..];
    DrainingIsClosed(evs[2..]);
  }

  /** The relay terminates only on a failed bind or on a failed accept after a good bind. */
  lemma TerminatedOnlyOnFatalError(evs: seq<Event>)
    requires Replay(Starting, evs) == Some(Terminated)
    ensures evs == [Bind(false)] || evs == [Bind(true), Connect(false)]
  {
    FromStarting(evs, Terminated);
    var rest := evs[1..];
    TerminatedIsFinal(rest);
    if evs[0].ok {
      FromListening(rest, Terminated);
      DrainingIsClosed(rest[1..]);
      TerminatedIsFinal(rest[1..]);
      assert evs == [evs[0]] + [rest[0]] + rest[1..];
    } else {
      assert evs == [evs[0]] + rest;
    }
  }

  /** A history of only writes accepts nothing. */
  lemma {:induction false} WritesAcceptNothing(evs: seq<Event>)
    requires AllWrites(evs)
    ensures Accepted(evs) == 0
    decreases |evs|
  {
    if evs != [] {
      assert AllWrites(evs[1..]) by {
        forall i | 0 <= i < |evs| - 1 ensures evs[1..][i].Write? { assert evs[1..][i] == evs[i + 1]; }
      }
      WritesAcceptNothing(evs[1..]);
    }
  }

  /** Over the whole life of the relay at most one connection is accepted. */
  lemma AtMostOneConnection(evs: seq<Event>)
    requires Replay(Starting, evs).Some?
    ensures Accepted(evs) <= 1
    ensures Accepted(evs) == 1 <==> Replay(Starting, evs) == Some(Draining)
  {
    if evs != [] && evs[0] == Bind(true) && |evs| > 1 && evs[1] == Connect(true) {
      var rest := evs[1..];
      assert rest[1..] == evs[2..];
      DrainingIsClosed(evs[2..]);
      WritesAcceptNothing(evs[2..]);
    } else if evs != [] && evs[0] == Bind(true) && |evs| > 1 {
      var rest := evs[1..];
      assert rest[0] == Connect(false);
      assert Replay(Terminated, rest[1..]).Some?;
      assert rest[1..] == [];
    } else if evs != [] && evs[0] == Bind(false) {
      assert Replay(Terminated, evs[1..]).Some?;
      assert evs[1..] == [];
    }
  }

  class Relay {
    /** The channel shared with the collector. */
    const queue: BoundedQueue
    var phase: Phase
    /** The characters the connected peer has received. */
    var output: string
    /** Everything the network has answered so far. */
    ghost var History: seq<Event>
    /** The messages taken off the queue, in the order they were taken. */
    ghost var Drained: seq<string>
    /** For each drained message, the characters its write got out. */
    ghost var Written: seq<nat>

    /**
     * The phase is the one the history leads to; a draining relay's history
     * is a good bind, a good accept and then exactly the logged writes; and
     * the peer has received each drained message's frame, cut to what its
     * write got out.
     */
    ghost predicate Valid()
      reads this, queue, queue.buf
    {
      queue.Valid() &&
      Replay(Starting, History) == Some(phase) &&
      (phase == Listening ==> History == [Bind(true)]) &&
      (phase == Draining ==> History == DrainingHistory(Written)) &&
      |Drained| == |Written| &&
      (phase != Draining ==> Drained == []) &&
      output == Delivered(Drained, Written)
    }

    constructor (q: BoundedQueue)
      requires q.Valid()
      ensures Valid() && queue == q
      ensures phase == Starting && output == [] && History == [] && Drained == []
    {
      queue := q;
      phase := Starting;
      output := [];
      History := [];
      Drained := [];
      Written := [];
    }

    /** `net.Listen`: on success the relay waits for a connection, on error it terminates. */
    method Listen(bindOk: bool)
      requires Valid() && phase == Starting
      modifies this
      ensures Valid()
      ensures phase == (if bindOk then Listening else Terminated)
      ensures History == old(History) + [Bind(bindOk)]
      ensures output == old(output) && Drained == old(Drained)
    {
      phase := if bindOk then Listening else Terminated;
      ReplayAppend(History, Bind(bindOk));
      History := History + [Bind(bindOk)];
    }

    /** `ln.Accept`: on success the relay starts draining, on error it terminates. */
    method Accept(acceptOk: bool)
      requires Valid() && phase == Listening
      modifies this
      ensures Valid()
      ensures phase == (if acceptOk then Draining else Terminated)
      ensures History == old(History) + [Connect(acceptOk)]
      ensures output == old(output) && Drained == old(Drained)
    {
      phase := if acceptOk then Draining else Terminated;
      ReplayAppend(History, Connect(acceptOk));
      History := History + [Connect(acceptOk)];
    }

    /**
     * One turn of the send loop: the oldest message leaves the queue and
     * `written` characters of its frame reach the peer. The queue and the phase
     * advance the same way whatever `written` is: a failed write is
     * ignored and the loop goes on.
     */
    method DrainStep(written: nat)
      requires Valid() && phase == Draining && queue.CanReceive()
      modifies this, queue
      ensures Valid() && phase == Draining && queue.buf == old(queue.buf)
      ensures queue.Contents == old(queue.Contents)[1..]
      ensures Drained == old(Drained) + [old(queue.Contents)[0]]
      ensures Written == old(Written) + [written]
      ensures output == old(output) + Prefix(Frame(old(queue.Contents)[0]), written)
      ensures History == old(History) + [Write(written)]
    {
      var msg := queue.Dequeue();
      DeliveredSnoc(Drained, Written, msg, written);
      ReplayAppend(History, Write(written));
      DrainingHistorySnoc(Written, written);
      output := output + Prefix(Frame(msg), written);
      History := History + [Write(written)];
      Drained := Drained + [msg];
      Written := Written + [written];
    }

    /**
     * `for msg := range queue`, for as many turns as `written` has entries:
     * the next messages leave the queue in order, and the peer receives
     * their frames, each cut to what its write got out.
     */
    method Drain(written: seq<nat>)
      requires Valid() && phase == Draining
      requires |written| <= |queue.Contents|
      modifies this, queue
      ensures Valid() && phase == Draining && queue.buf == old(queue.buf)
      ensures queue.Contents == old(queue.Contents)[|written|..]
      ensures Drained == old(Drained) + old(queue.Contents)[..|written|]
      ensures output == old(output) + Delivered(old(queue.Contents)[..|written|], written)
    {
      ghost var pending, drained0, written0 := queue.Contents, Drained, Written;
      var i := 0;
      while i < |written|
        invariant 0 <= i <= |written| <= |pending|
        invariant Valid() && phase == Draining && queue.buf == old(queue.buf)
        invariant queue.Contents == pending[i..]
        invariant Drained == drained0 + pending[..i]
        invariant Written == written0 + written[..i]
      {
        TakeOneMore(pending, i);
        TakeOneMore(written, i);
        DrainStep(written[i]);
        i := i + 1;
      }
      assert written[..i] == written;
      DeliveredAppend(drained0, written0, pending[..i], written);
    }

    /**
     * The whole `QueueHandler`, for `written` turns of its loop: after a
     * good bind and a good accept the relay drains those messages in order;
     * after a bind or accept error it has terminated, with nothing taken
     * off the queue and nothing sent.
     */
    method QueueHandler(bindOk: bool, acceptOk: bool, written: seq<nat>)
      requires Valid() && phase == Starting
      requires |written| <= |queue.Contents|
      modifies this, queue
      ensures Valid() && queue.buf == old(queue.buf)
      ensures phase == Draining <==> bindOk && acceptOk
      ensures phase == Terminated <==> !(bindOk && acceptOk)
      ensures bindOk && acceptOk ==>
        queue.Contents == old(queue.Contents)[|written|..] &&
        output == Delivered(old(queue.Contents)[..|written|], written)
      ensures !(bindOk && acceptOk) ==> queue.Contents == old(queue.Contents) && output == []
    {
      Listen(bindOk);
      if !bindOk {
        return;
      }
      Accept(acceptOk);
      if !acceptOk {
        return;
      }
      Drain(written);
    }
  }

  lemma {:induction false} ReplayAppend(evs: seq<Event>, e: Event)
    requires Replay(Starting, evs).Some?
    ensures Replay(Starting, evs + [e]) == Step(Replay(Starting, evs).value, e)
  {
    ReplayFromAppend(Starting, evs, e);
  }

  lemma {:induction false} ReplayFromAppend(p: Phase, evs: seq<Event>, e: Event)
    requires Replay(p, evs).Some?
    ensures Replay(p, evs + [e]) == Step(Replay(p, evs).value, e)
    decreases |evs|
  {
    if evs == [] {
      assert evs + [e] == [e];
      assert [e][1..] == [];
    } else {
      assert (evs + [e])[1..] == evs[1..] + [e];
      ReplayFromAppend(Step(p, evs[0]).value, evs[1..], e);
    }
  }
}

/**
 * The relay's wire format: every message is written as its text followed
 * by carriage return and line feed (`fmt.Sprintf("%s\r\n", msg)`), with no
 * other framing.
 */
module Framing {
  import opened Wrappers
  import opened Seqs

  const LineEnd: string := "\r\n"

  /** The characters handed to the connection for one message: the message, then CRLF. */
  function Frame(msg: string): (r: string)
    ensures |r| == |msg| + 2 && r[..|msg|] == msg && r[|msg|..] == LineEnd
  {
    msg + LineEnd
  }

  /**
   * The characters of a run of messages written one after another. It is
   * empty exactly when there is no message, and otherwise it ends with a
   * line end, so a consumer never sees an unterminated tail.
   */
  function Stream(msgs: seq<string>): (r: string)
    ensures r == [] <==> msgs == []
    ensures msgs != [] ==> |r| >= 2 && r[|r| - 2..] == LineEnd
  {
    if msgs == [] then []
    else
      var f, t := Frame(msgs[0]), Stream(msgs[1..]);
      assert (f + t)[|f + t| - 2..] == if t == [] then f[|f| - 2..] else t[|t| - 2..];
      f + t
  }

  /** The first `n` characters of `s`, or all of it when `n` is larger. */
  function Prefix(s: string, n: nat): string {
    if n < |s| then s[..n] else s
  }

  /**
   * What the peer receives when the i-th write of `msgs` got `written[i]`
   * of its frame's characters onto the connection: a failed write delivers only
   * part of its frame, or nothing.
   */
  function Delivered(msgs: seq<string>, written: seq<nat>): (r: string)
    requires |msgs| == |written|
    ensures |r| <= |Stream(msgs)|
  {
    if msgs == [] then []
    else Prefix(Frame(msgs[0]), written[0]) + Delivered(msgs[1..], written[1..])
  }

  /** A message that contains no CRLF, so its frame holds exactly one line end. */
  predicate NoLineEnd(m: string) {
    forall k :: 0 <= k < |m| - 1 ==> !(m[k] == '\r' && m[k + 1] == '\n')
  }

  /** Position of the first CRLF in `s`, if there is one. */
  function FindLineEnd(s: string): (r: Option<nat>)
    ensures r.Some? ==> r.value + 1 < |s| && s[r.value] == '\r' && s[r.value + 1] == '\n'
    ensures forall k :: 0 <= k < (if r.Some? then r.value else |s| - 1) ==>
              !(s[k] == '\r' && s[k + 1] == '\n')
  {
    if |s| < 2 then None
    else if s[0] == '\r' && s[1] == '\n' then Some(0)
    else match FindLineEnd(s[1..])
      case None => None
      case Some(k) => Some(k + 1)
  }

  /**
   * What a line-oriented consumer reads from a stream: the CRLF-terminated
   * lines, without their terminators; an unterminated tail is not a line.
   */
  function Lines(s: string): seq<string>
    decreases |s|
  {
    match FindLineEnd(s)
    case None => []
    case Some(k) => [s[..k]] + Lines(s[k + 2..])
  }

  /** Appending messages appends their frames. */
  lemma {:induction false} StreamAppend(a: seq<string>, b: seq<string>)
    ensures Stream(a + b) == Stream(a) + Stream(b)
    decreases |a|
  {
    if a == [] {
      assert a + b == b;
    } else {
      assert (a + b)[0] == a[0] && (a + b)[1..] == a[1..] + b;
      StreamAppend(a[1..], b);
    }
  }

  /** In a frame of a message without CRLF, the first CRLF is the terminator. */
  lemma {:induction false} FindLineEndOfFrame(m: string, rest: string)
    requires NoLineEnd(m)
    ensures FindLineEnd(Frame(m) + rest) == Some(|m|)
  {
    var s := Frame(m) + rest;
    if m != [] {
      assert s[1..] == Frame(m[1..]) + rest;
      assert s[0] == m[0] && s[1] == if |m| > 1 then m[1] else '\r';
      assert NoLineEnd(m[1..]) by {
        forall k | 0 <= k < |m| - 2 ensures !(m[1..][k] == '\r' && m[1..][k + 1] == '\n') {
          assert m[1..][k] == m[k + 1] && m[1..][k + 1] == m[k + 2];
        }
      }
      FindLineEndOfFrame(m[1..], rest);
    }
  }

  /**
   * Round trip: a consumer splitting the stream at CRLF gets back exactly
   * the messages, in order, provided none of them holds a CRLF.
   */
  lemma {:induction false} LinesOfStream(msgs: seq<string>)
    requires forall i :: 0 <= i < |msgs| ==> NoLineEnd(msgs[i])
    ensures Lines(Stream(msgs)) == msgs
    decreases |msgs|
  {
    if msgs == [] {
      assert FindLineEnd([]) == None;
    } else {
      var m, rest := msgs[0], msgs[1..];
      var t := Stream(rest);
      assert Stream(msgs) == Frame(m) + t;
      FindLineEndOfFrame(m, t);
      FrameParts(m, t);
      assert forall i :: 0 <= i < |rest| ==> NoLineEnd(rest[i]) by {
        forall i | 0 <= i < |rest| ensures NoLineEnd(rest[i]) { assert rest[i] == msgs[i + 1]; }
      }
      LinesOfStream(rest);
      HeadAndTail(msgs);
    }
  }

  /** A frame followed by more characters splits back into the message and those characters. */
  lemma FrameParts(m: string, t: string)
    ensures (Frame(m) + t)[..|m|] == m
    ensures (Frame(m) + t)[|m| + 2..] == t
  {
  }

  /** When every write gets its whole frame out, the peer receives exactly the stream. */
  lemma {:induction false} DeliveredInFull(msgs: seq<string>, written: seq<nat>)
    requires |msgs| == |written|
    requires forall i :: 0 <= i < |msgs| ==> written[i] >= |Frame(msgs[i])|
    ensures Delivered(msgs, written) == Stream(msgs)
    decreases |msgs|
  {
    if msgs != [] {
      assert written[0] >= |Frame(msgs[0])|;
      DeliveredInFull(msgs[1..], written[1..]);
    }
  }

  /** Delivery over two runs of writes is the delivery of the first followed by that of the second. */
  lemma {:induction false} DeliveredAppend(a: seq<string>, wa: seq<nat>, b: seq<string>, wb: seq<nat>)
    requires |a| == |wa| && |b| == |wb|
    ensures Delivered(a + b, wa + wb) == Delivered(a, wa) + Delivered(b, wb)
    decreases |a|
  {
    if a == [] {
      assert a + b == b && wa + wb == wb;
    } else {
      HeadOfConcat(a, b);
      HeadOfConcat(wa, wb);
      DeliveredAppend(a[1..], wa[1..], b, wb);
    }
  }

  /** One more write adds its frame, cut to what it got out, at the end. */
  lemma DeliveredSnoc(msgs: seq<string>, written: seq<nat>, m: string, w: nat)
    requires |msgs| == |written|
    ensures Delivered(msgs + [m], written + [w]) == Delivered(msgs, written) + Prefix(Frame(m), w)
  {
    DeliveredAppend(msgs, written, [m], [w]);
    assert Delivered([m], [w]) == Prefix(Frame(m), w) + Delivered([], []);
  }

  /**
   * End to end over the wire: when every write gets its frame out, a
   * consumer reading CRLF-terminated lines from what the peer received gets
   * exactly the drained messages, in order, none twice and none missing.
   */
  lemma ConsumerReadsMessagesInOrder(msgs: seq<string>, written: seq<nat>)
    requires |msgs| == |written|
    requires forall i :: 0 <= i < |msgs| ==> written[i] >= |Frame(msgs[i])|
    requires forall i :: 0 <= i < |msgs| ==> NoLineEnd(msgs[i])
    ensures Lines(Delivered(msgs, written)) == msgs
  {
    DeliveredInFull(msgs, written);
    LinesOfStream(msgs);
  }
}

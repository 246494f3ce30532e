/**
 * The process as `main` wires it: one queue shared by the HTTP collector
 * and the TCP relay.
 */
module Gateway {
  import opened Message
  import opened Framing
  import opened Queue
  import opened Collector
  import opened Relay

  /** A GET is refused with 405 and `Allow: POST`, and the queue stays empty. */
  method RefusedScenario() returns (refused: Response, anyQueued: bool)
    ensures refused.status == StatusMethodNotAllowed
    ensures "Allow" in refused.header && refused.header["Allow"] == "POST"
    ensures !anyQueued
  {
    var q := new BoundedQueue();
    refused := Collect(q, Request("GET", "/alerts/cpu-high/"));
    anyQueued := q.CanReceive();
  }

  /**
   * A POST to `/alerts/cpu-high/` puts `alerts/cpu-high` on the queue, and
   * once the relay is connected its peer receives exactly `alerts/cpu-high`
   * followed by CRLF.
   */
  method AlertScenario() returns (accepted: Response, received: string)
    ensures accepted.status == StatusOK
    ensures received == "alerts/cpu-high\r\n"
  {
    var path := "/alerts/cpu-high/";
    AlertPathTrim();
    var q := new BoundedQueue();
    accepted := Collect(q, Request("POST", path));
    var relay := ConnectedRelay(q);
    var frame := Frame("alerts/cpu-high");
    relay.DrainStep(|frame|);
    received := relay.output;
    assert received == [] + Prefix(frame, |frame|);
  }

  /** A relay on `q` whose listen and accept have both succeeded. */
  method ConnectedRelay(q: BoundedQueue) returns (relay: Relay)
    requires q.Valid()
    ensures fresh(relay) && relay.queue == q && relay.Valid()
    ensures relay.phase == Draining && relay.output == []
    ensures q.Contents == old(q.Contents)
  {
    relay := new Relay(q);
    relay.Listen(true);
    relay.Accept(true);
  }

  /** The message derived from `/alerts/cpu-high/`. */
  lemma AlertPathTrim()
    ensures Trim("/alerts/cpu-high/") == "alerts/cpu-high"
  {
    var path := "/alerts/cpu-high/";
    assert path[1..|path| - 1] == "alerts/cpu-high";
    assert AllSlash(path[..1]) && AllSlash(path[|path| - 1..]);
    TrimOfSlice(path, 1, |path| - 1);
  }
}

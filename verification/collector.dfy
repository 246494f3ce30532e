/**
 * The HTTP handler `Collector`: only POST is accepted; the request path,
 * stripped of leading and trailing slashes, is sent on the queue.
 */
module Collector {
  import opened Wrappers
  import opened Message
  import opened Queue

  const StatusOK: nat := 200
  const StatusMethodNotAllowed: nat := 405

  datatype Request = Request(verb: string, path: string)

  /**
   * What the handler writes back. A handler that never calls WriteHeader
   * answers with the default status 200.
   */
  datatype Response = Response(status: nat, header: map<string, string>)

  /** The handler's decision: the response, and the message to send, if any. */
  datatype Outcome = Outcome(response: Response, message: Option<string>)

  /** The decision `Collector` takes for a request, before any send happens. */
  function Decide(req: Request): (o: Outcome)
    ensures o.message.Some? <==> req.verb == "POST"
    ensures req.verb != "POST" ==>
      o.response.status == StatusMethodNotAllowed && o.response.header == map["Allow" := "POST"]
    ensures req.verb == "POST" ==>
      o.response.status == StatusOK && o.response.header == map[] &&
      IsTrimOf(req.path, o.message.value)
  {
    if req.verb != "POST" then
      Outcome(Response(StatusMethodNotAllowed, map["Allow" := "POST"]), None)
    else
      Outcome(Response(StatusOK, map[]), Some(Trim(req.path)))
  }

  /**
   * `Collector`: a non-POST request is rejected with 405 and `Allow: POST`
   * and leaves the queue as it was; a POST request puts exactly one
   * message, the trimmed path, at the queue's tail. A POST on a full queue
   * blocks in the source, so it is only enabled while the queue has room.
   */
  method Collect(q: BoundedQueue, req: Request) returns (resp: Response)
    requires q.Valid()
    requires req.verb == "POST" ==> q.CanSend()
    modifies q, q.buf
    ensures q.Valid() && q.buf == old(q.buf)
    ensures resp == Decide(req).response
    ensures req.verb != "POST" ==> q.Contents == old(q.Contents)
    ensures req.verb == "POST" ==> q.Contents == old(q.Contents) + [Trim(req.path)]
  {
    if req.verb != "POST" {
      resp := Response(StatusMethodNotAllowed, map["Allow" := "POST"]);
      return;
    }
    var msg := Trim(req.path);
    q.Enqueue(msg);
    resp := Response(StatusOK, map[]);
  }
}

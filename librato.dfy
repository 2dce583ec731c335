/**
 * The Librato batching transport (src/dendrite/io.go:29-33, 86-144) as one
 * sequential state machine. The two channels become sequence fields, the
 * background goroutine's select becomes the steps Receive and Flush, and the
 * HTTP exchange becomes an outcome handed to Send.
 */
module Librato {
  import opened Wrappers
  import opened Wire
  import opened Dispatch

  /** Buffer sizes given to `make(chan ..., 1000)` (src/dendrite/io.go:90-91). */
  const MetricsCapacity: nat := 1000
  const ResponsesCapacity: nat := 1000

  const JsonContentType: string := "application/json"
  const SecureScheme: string := "https"

  /** What the HTTP POST and the read of its body came to. */
  datatype HttpOutcome =
    | RequestFailed
    | BodyReadFailed
    | Response(status: seq<byte>, body: seq<byte>)

  /** One POST as issued: target, content type and body. */
  datatype Request = Request(url: Url, contentType: string, body: seq<byte>)

  datatype IoError = ResponseTruncated

  /** The response text pushed for a delivered batch: status line, newline, body. */
  function ResponseText(status: seq<byte>, body: seq<byte>): seq<byte>
  {
    status + [Newline] + body
  }

  /** A status line has no newline, so a reader finds status and body again. */
  lemma ResponseTextSplits(status: seq<byte>, body: seq<byte>)
    requires Newline !in status
    ensures Newline in ResponseText(status, body)
    ensures var t := ResponseText(status, body);
            var i := IndexOf(t, Newline);
            t[..i] == status && t[i + 1..] == body
  {
    var t := ResponseText(status, body);
    assert t[|status|] == Newline;
    assert forall k :: 0 <= k < |status| ==> t[k] == status[k];
    var i := IndexOf(t, Newline);
    assert i == |status|;
  }

  /** The responses Send adds for an outcome: one on delivery, none on failure. */
  function Replies(outcome: HttpOutcome): seq<seq<byte>>
  {
    match outcome
    case Response(status, body) => [ResponseText(status, body)]
    case _ => []
  }

  /** All batches in order, one after another. */
  function Flatten(batches: seq<seq<Record>>): seq<Record>
  {
    if batches == [] then [] else batches[0] + Flatten(batches[1..])
  }

  /** Handing one more batch to Send extends the delivered stream by exactly that batch. */
  lemma {:induction false} FlattenSnoc(batches: seq<seq<Record>>, b: seq<Record>)
    ensures Flatten(batches + [b]) == Flatten(batches) + b
  {
    if batches != [] {
      assert (batches + [b])[1..] == batches[1..] + [b];
      FlattenSnoc(batches[1..], b);
    }
  }

  /**
   * One Librato endpoint (`libratoStruct`). `metrics` and `responses` are the
   * two buffered channels; `msgs` is the batch the loop collects. The ghost
   * fields record every record written, every batch handed to Send and every
   * request posted.
   */
  class Endpoint {
    const url: Url
    var metrics: seq<Record>
    var responses: seq<seq<byte>>
    var msgs: seq<Record>
    ghost var written: seq<Record>
    ghost var sent: seq<seq<Record>>
    ghost var posted: seq<Request>

    /**
     * The object invariant: channels within capacity, FIFO end to end (what
     * was sent, then the batch, then the queue, is what was written), and
     * each posted request is the envelope of the batch sent with it.
     */
    ghost predicate Valid()
      reads this
    {
      && url.scheme == SecureScheme
      && |metrics| <= MetricsCapacity
      && |responses| <= ResponsesCapacity
      && Flatten(sent) + msgs + metrics == written
      && |posted| == |sent|
      && forall i :: 0 <= i < |sent| ==>
           posted[i] == Request(url, JsonContentType, GaugesBody(sent[i]))
    }

    /** `NewLibratoReadWriter`: empty channels, the scheme forced to https. */
    constructor (u: Url)
      ensures Valid()
      ensures url == u.(scheme := SecureScheme)
      ensures metrics == [] && responses == [] && msgs == []
      ensures written == [] && sent == [] && posted == []
    {
      url := u.(scheme := SecureScheme);
      metrics, responses, msgs := [], [], [];
      written, sent, posted := [], [], [];
    }

    /** `Write`: the record joins the tail of the inbound queue; a full queue blocks. */
    method Write(msg: Record) returns (n: nat, err: Option<IoError>)
      requires Valid()
      requires |metrics| < MetricsCapacity
      modifies this
      ensures Valid()
      ensures metrics == old(metrics) + [msg] && written == old(written) + [msg]
      ensures responses == old(responses) && msgs == old(msgs)
      ensures sent == old(sent) && posted == old(posted)
      ensures n == |msg| && err == None
    {
      metrics := metrics + [msg];
      written := written + [msg];
      n, err := |msg|, None;
    }

    /** The select's receive case: the head of the queue joins the batch. */
    method Receive()
      requires Valid()
      requires metrics != []
      modifies this
      ensures Valid()
      ensures msgs == old(msgs) + [old(metrics)[0]] && metrics == old(metrics)[1..]
      ensures responses == old(responses) && written == old(written)
      ensures sent == old(sent) && posted == old(posted)
    {
      assert metrics == [metrics[0]] + metrics[1..];
      msgs := msgs + [metrics[0]];
      metrics := metrics[1..];
    }

    /**
     * `Send`: posts the envelope of `batch` once; on a delivered response it
     * pushes status and body, on either failure it pushes nothing. The batch
     * is never kept.
     */
    method Send(batch: seq<Record>, outcome: HttpOutcome)
      requires outcome.Response? ==> |responses| < ResponsesCapacity
      modifies this
      ensures posted == old(posted) + [Request(url, JsonContentType, GaugesBody(batch))]
      ensures sent == old(sent) + [batch]
      ensures responses == old(responses) + Replies(outcome)
      ensures metrics == old(metrics) && msgs == old(msgs) && written == old(written)
    {
      var body := GaugesBody(batch);
      posted := posted + [Request(url, JsonContentType, body)];
      sent := sent + [batch];
      match outcome
      case RequestFailed =>
      case BodyReadFailed =>
      case Response(status, payload) =>
        responses := responses + [ResponseText(status, payload)];
    }

    /**
     * The select's default case, taken when the queue is empty: a non-empty
     * batch is sent once and reset; an empty one sends nothing.
     */
    method Flush(outcome: HttpOutcome)
      requires Valid()
      requires metrics == []
      requires msgs != [] && outcome.Response? ==> |responses| < ResponsesCapacity
      modifies this
      ensures Valid()
      ensures msgs == [] && metrics == [] && written == old(written)
      ensures old(msgs) == [] ==>
                sent == old(sent) && posted == old(posted) && responses == old(responses)
      ensures old(msgs) != [] ==>
                && sent == old(sent) + [old(msgs)]
                && posted == old(posted) + [Request(url, JsonContentType, GaugesBody(old(msgs)))]
                && responses == old(responses) + Replies(outcome)
    {
      if |msgs| > 0 {
        Send(msgs, outcome);
        FlattenSnoc(old(sent), old(msgs));
        msgs := [];
        assert |Replies(outcome)| <= 1;
      }
    }

    /**
     * One pass of `Loop`'s outer iteration: drain the whole queue into the
     * batch in FIFO order, then flush. Exactly one send when there was
     * anything pending, none otherwise; the batch is discarded, not
     * re-queued, whatever the outcome.
     */
    method Cycle(outcome: HttpOutcome)
      requires Valid()
      requires msgs + metrics != [] && outcome.Response? ==> |responses| < ResponsesCapacity
      modifies this
      ensures Valid()
      ensures metrics == [] && msgs == [] && written == old(written)
      ensures old(msgs) + old(metrics) == [] ==>
                sent == old(sent) && posted == old(posted) && responses == old(responses)
      ensures old(msgs) + old(metrics) != [] ==>
                && sent == old(sent) + [old(msgs) + old(metrics)]
                && posted == old(posted) + [Request(url, JsonContentType, GaugesBody(old(msgs) + old(metrics)))]
                && responses == old(responses) + Replies(outcome)
    {
      while metrics != []
        invariant Valid()
        invariant msgs + metrics == old(msgs) + old(metrics)
        invariant written == old(written) && responses == old(responses)
        invariant sent == old(sent) && posted == old(posted)
        decreases |metrics|
      {
        Receive();
      }
      assert msgs == old(msgs) + old(metrics);
      Flush(outcome);
    }

    /**
     * `Read`: takes the head response and copies what fits into `buf`,
     * reporting truncation exactly when `buf` is shorter than the response.
     * An empty outbound queue blocks.
     */
    method Read(buf: array<byte>) returns (n: nat, err: Option<IoError>)
      requires Valid()
      requires responses != []
      modifies this, buf
      ensures Valid()
      ensures responses == old(responses)[1..]
      ensures metrics == old(metrics) && msgs == old(msgs) && written == old(written)
      ensures sent == old(sent) && posted == old(posted)
      ensures var rsp := old(responses)[0];
              && n == (if buf.Length < |rsp| then buf.Length else |rsp|)
              && buf[..n] == rsp[..n]
              && buf[n..] == old(buf[n..])
              && (err == Some(ResponseTruncated) <==> buf.Length < |rsp|)
              && (err == None <==> |rsp| <= buf.Length)
    {
      var rsp := responses[0];
      responses := responses[1..];
      n := if buf.Length < |rsp| then buf.Length else |rsp|;
      var i := 0;
      while i < n
        modifies buf
        invariant 0 <= i <= n
        invariant forall k :: 0 <= k < i ==> buf[k] == rsp[k]
        invariant forall k :: i <= k < buf.Length ==> buf[k] == old(buf[k])
      {
        buf[i] := rsp[i];
        i := i + 1;
      }
      assert buf[..n] == rsp[..n];
      assert buf[n..] == old(buf[n..]);
      if n < |rsp| {
        err := Some(ResponseTruncated);
      } else {
        err := None;
      }
    }
  }

  /** The collector's "200 OK" answer with body `{"status":"ok"}` reads back as one text. */
  lemma ResponseExample()
    ensures ResponseText(Ascii("200 OK"), Ascii("{\"status\":\"ok\"}")) == Ascii("200 OK\n{\"status\":\"ok\"}")
  {
    var text := ResponseText(Ascii("200 OK"), Ascii("{\"status\":\"ok\"}"));
    var t := Ascii("200 OK\n{\"status\":\"ok\"}");
    assert |text| == |t|;
    assert forall i :: 0 <= i < |t| ==> text[i] == t[i];
  }

  /**
   * A client of the endpoint: three records written before one cycle are
   * posted in order as one envelope to the https URL, and the collector's
   * answer is the one response, read back whole into a buffer of its size.
   */
  method DeliveryExample(a: Record, b: Record, c: Record, status: seq<byte>, body: seq<byte>)
    returns (reply: seq<byte>, err: Option<IoError>, ghost requests: seq<Request>)
    ensures requests == [Request(Url("https", "", ""), JsonContentType, GaugesBody([a, b, c]))]
    ensures reply == ResponseText(status, body) && err == None
  {
    var e := new Endpoint(Url("librato", "", ""));
    var n;
    n, err := e.Write(a);
    n, err := e.Write(b);
    n, err := e.Write(c);
    assert e.msgs + e.metrics == [a, b, c];
    e.Cycle(Response(status, body));
    assert e.sent == [[a, b, c]];
    assert e.posted == [Request(e.url, JsonContentType, GaugesBody([a, b, c]))];
    requests := e.posted;
    assert e.responses == [ResponseText(status, body)];
    var buf := new byte[|status| + 1 + |body|];
    n, err := e.Read(buf);
    reply := buf[..n];
  }
}

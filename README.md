# Dendrite's Librato transport, modelled in Dafny

Dendrite sends metrics to a destination named by a URL. `NewReadWriter` picks a
transport from the URL scheme. The Librato transport is the one with real
behaviour. Its `Write` puts serialized gauge records on a bounded inbound
channel. A background loop drains that channel into a batch. When the channel is
momentarily empty, the loop POSTs the batch as one `{"gauges": [...]}` JSON body.
On a successful exchange it pushes `status + "\n" + body` onto a bounded
response channel, and `Read` pops from that channel into the caller's buffer.

The model is one sequential state machine:

- `wire.dfy` (module `Wire`): Go's `[]byte` and `string` as `seq<byte>`,
  `bytes.Join`, and the request envelope `GaugesBody`. It also has a reference
  reader (`Split`, `ParseGauges`), used only to state the envelope's round trip.
- `dispatch.dfy` (module `Dispatch`): `SchemePrefix` (the text before the first
  `+`) and `NewReadWriter` as a total function. The result is either the
  constructor chosen, with its argument, or a panic with its message.
- `librato.dfy` (module `Librato`): class `Endpoint` mirrors `libratoStruct`.
  - `metrics` and `responses` are the two channels, each a sequence with capacity 1000.
  - `msgs` is the loop's batch.
  - Ghost logs record every record written (`written`), every batch handed to
    `Send` (`sent`) and every request posted (`posted`).
  - `Valid()` keeps both channels within capacity and the scheme at `https`.
  - `Valid()` keeps FIFO end to end: `Flatten(sent) + msgs + metrics == written`.
  - `Valid()` ties each posted request to the envelope of its batch.
  - A blocking channel operation becomes a precondition. `Write` needs room in
    `metrics`, `Read` needs a response, and a delivered `Send` needs room in
    `responses`.
  - The HTTP exchange is a parameter of `Send`: request failed, body read
    failed, or a status line and a body.
- `wrappers.dfy` (module `Wrappers`): `Option`, standing for Go's `nil`-or-error result.

The `for { select { ... } }` of `Loop` is split into two steps. `Receive` is
the receive case and `Flush` is the `default` case, which the select takes only
when the channel is empty. `Cycle` is one outer pass: a `while` loop of
`Receive` until the queue is empty, then one `Flush`. Any interleaving of
`Write`, `Receive`, `Flush`, `Cycle` and `Read` keeps `Valid()`, so FIFO order
holds however writes and loop steps interleave. The batch limit of 300 is only
the slice's initial capacity in the source, so the model does not enforce it.

## Model

| member | source | states |
|---|---|---|
| `Wire.Join` | src/dendrite/io.go:116 | `bytes.Join` over the records; its properties are stated by `Wire.JoinLength`, `Wire.JoinAppend` and `Wire.SplitJoin` |
| `Wire.GaugesBody` | src/dendrite/io.go:116 | the request body `{"gauges": [` + comma-joined records + `]}`; its shape is stated by `Wire.GaugesRoundTrip`, `Wire.GaugesSingle`, `Wire.GaugesSnoc` and `Wire.GaugesLength` |
| `Wire.JoinLength` | src/dendrite/io.go:116 | the joined records hold every record byte plus exactly one separator per gap between neighbours |
| `Wire.JoinAppend` | src/dendrite/io.go:116 | joining two non-empty runs of records is joining each run, with one separator between them |
| `Wire.Split` | src/dendrite/io.go:116 | reference reader: splitting at a byte gives pieces without that byte that join back to the input |
| `Wire.SplitJoin` | src/dendrite/io.go:116 | records without a comma come back unchanged, in order, from a comma-join |
| `Wire.GaugesRoundTrip` | src/dendrite/io.go:116 | the request body of a non-empty, comma-free batch is framed by `{"gauges": [` and `]}`, and reading it back gives the batch in order |
| `Wire.GaugesSingle` | src/dendrite/io.go:116 | a one-record batch is sent as the envelope around that record, with no comma |
| `Wire.GaugesSnoc` | src/dendrite/io.go:116 | the last record follows a comma and is followed directly by `]}`; there is no trailing separator |
| `Wire.GaugesLength` | src/dendrite/io.go:116 | the body length is the framing plus the records plus one comma per gap |
| `Wire.GaugesExample` | src/dendrite/io.go:116 | records `a`, `b` and `c` give exactly the body `{"gauges": [a,b,c]}` |
| `Dispatch.NewReadWriter` | src/dendrite/io.go:41-60 | the scheme switch as written, including its dead `tcp+tls` case; what it selects for every scheme is stated by `Dispatch.DispatchTable` |
| `Dispatch.SchemePrefix` | src/dendrite/io.go:42 | the protocol word is the longest prefix of the scheme without `+`; it ends at the first `+` or at the end |
| `Dispatch.PrefixBeforePlus` | src/dendrite/io.go:42 | for a `+`-free word `p`, the scheme `p+rest` has protocol `p`, whatever `rest` is |
| `Dispatch.PrefixWithoutPlus` | src/dendrite/io.go:42 | a scheme without `+` is its own protocol word |
| `Dispatch.DispatchTable` | src/dendrite/io.go:41-58 | `file` selects the file constructor on `Host + "/" + Path`; `udp`, `tcp` and `librato` select their constructors on the URL; `tcps`, `http` and `https` panic "not implemented"; every other word panics "unknown protocol"; this holds with or without a `+suffix` |
| `Dispatch.TcpTlsCaseUnreachable` | src/dendrite/io.go:42-53 | no scheme has protocol word `tcp+tls`, so that switch case never matches |
| `Dispatch.TcpTlsSelectsTcp` | src/dendrite/io.go:42-49 | as written, the scheme `tcp+tls` selects the plain TCP constructor |
| `Dispatch.NewReadWriterCorrected` | src/dendrite/io.go:41-58 | the switch rewritten so that the exact scheme `tcp+tls` reaches its case; this independent switch panics "not implemented" on `tcp+tls` and agrees with `NewReadWriter` on every other scheme |
| `Dispatch.CorrectedDispatchTable` | src/dendrite/io.go:41-58 | the corrected dispatch keeps the whole table except that `tcp+tls` now panics |
| `Librato.ResponseText` | src/dendrite/io.go:126 | the response text `status + "\n" + body`; stated by `Librato.ResponseTextSplits` |
| `Librato.Replies` | src/dendrite/io.go:117-127 | the responses one exchange adds: one text on a response, none on a request or body-read failure; used in the contracts of `Send`, `Flush` and `Cycle` |
| `Librato.ResponseTextSplits` | src/dendrite/io.go:126 | the text pushed for a delivered batch is the status line, one newline, then the body, and the first newline separates them again |
| `Librato.ResponseExample` | src/dendrite/io.go:126 | status `200 OK` with body `{"status":"ok"}` gives exactly the text `200 OK\n{"status":"ok"}` |
| `Librato.FlattenSnoc` | src/dendrite/io.go:96-113 | handing one more batch to `Send` extends the stream of sent records by exactly that batch, at the end |
| `Librato.Endpoint.constructor` | src/dendrite/io.go:86-94 | a new endpoint has empty channels, an empty batch and empty logs, and its URL is the given one with scheme `https` |
| `Librato.Endpoint.Write` | src/dendrite/io.go:141-144 | with room in the inbound queue, the record goes to its tail; the responses, the batch and the send logs are unchanged; the result is `len(msg)` and no error |
| `Librato.Endpoint.Receive` | src/dendrite/io.go:101-104 | the head of the inbound queue moves to the end of the batch; nothing else changes |
| `Librato.Endpoint.Send` | src/dendrite/io.go:115-129 | exactly one POST of `GaugesBody(batch)`, as `application/json`, to the endpoint's URL; on a response it appends `status + "\n" + body`; on a request or body-read failure it appends nothing; the queue and the batch are untouched |
| `Librato.Endpoint.Flush` | src/dendrite/io.go:105-110 | on an empty queue, a non-empty batch is sent once and reset to empty; an empty batch sends nothing and changes nothing |
| `Librato.Endpoint.Cycle` | src/dendrite/io.go:100-112 | one pass drains the whole queue into the batch in FIFO order, then sends the old batch followed by the old queue exactly once if that is non-empty, or sends nothing; either way the batch ends empty, so a failed batch is not re-queued; FIFO end to end is kept |
| `Librato.Endpoint.Read` | src/dendrite/io.go:131-139 | removes exactly the head response `rsp`; copies `n = min(len(buf), len(rsp))` bytes, so `buf[..n] == rsp[..n]` and the rest of `buf` is untouched; reports "response truncated" exactly when `len(buf) < len(rsp)` |
| `Librato.DeliveryExample` | src/dendrite/io.go:100-139 | three records written before one cycle are posted as exactly one request, to the https URL, whose body is the envelope of the three in order; the collector's answer is the one response, read back whole with no error |

## Findings

| source | as written | input that shows it | evidently intended | confidence | as-written member | corrected member |
|---|---|---|---|---|---|---|
| src/dendrite/io.go:42-53 | the switch compares `tcp+tls` with the text before the first `+`, which never contains `+`, so that case is dead | URL scheme `tcp+tls` | `tcp+tls` panics "not implemented", like `tcps`; as written it reaches `NewTCPReadWriter`, which dials network `tcp+tls` | medium, not executed | `Dispatch.TcpTlsSelectsTcp` | `Dispatch.NewReadWriterCorrected` |

## Left out

- The goroutine, select scheduling, `time.Sleep` and the endless `for` are not modelled. The loop is the steps `Receive`, `Flush` and `Cycle`; timing and true concurrency are not modelled.
- Blocking on a full or empty channel is a precondition, not a wait: `Write` requires room in `metrics`, `Read` requires a response, and `Send` requires room in `responses` only when the exchange succeeded.
- The HTTP POST, the `http.Transport` settings, `ioutil.ReadAll` and `defer resp.Body.Close()` are library calls. Their combined result is the `HttpOutcome` parameter of `Send`.
- `logs.Error` is logging only, so a failed exchange is modelled as silently pushing nothing.
- `NewFileReadWriter`, `NewUDPReadWriter` and `NewTCPReadWriter` wrap `os.OpenFile` and `net.Dial`. The dispatch returns which one is called and with what argument. `noOpReader.Read` always returns `(0, EOF)` and is not modelled.
- `Url` keeps only scheme, host and path. Go's `url.URL.String()` formatting is not modelled.
- `NewLibratoReadWriter` is not modelled as changing the caller's URL in place: it sets the scheme on the caller's own `*url.URL`, while the model keeps its own copy.
- `Write` is not modelled as keeping a reference to the caller's byte slice: a later change to that slice is invisible to the model.
- `panic` is the `Panic` result of `NewReadWriter` rather than an abort.
- `Split` and `ParseGauges` are reference readers for stating the envelope's round trip; the source has no reader of its own bodies.
- `Wire.GaugesRoundTrip`: stated only for non-empty batches of comma-free records, because records that themselves contain commas cannot be split back apart.

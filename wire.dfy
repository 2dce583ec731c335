/**
 * Bytes on the wire: Go's `[]byte` and `string` are both byte sequences here,
 * `bytes.Join` over records, and the `{"gauges": [...]}` request envelope
 * that the Librato sender writes (src/dendrite/io.go:116).
 */
module Wire {
  import opened Wrappers

  newtype byte = b: int | 0 <= b < 256

  /** One already-serialized metric sample, as handed to Write. */
  type Record = seq<byte>

  /** The bytes of an ASCII string literal. */
  function Ascii(s: string): (r: seq<byte>)
    requires forall i :: 0 <= i < |s| ==> s[i] as int < 128
  {
    seq(|s|, i requires 0 <= i < |s| => s[i] as int as byte)
  }

  const Comma: byte := 44
  const Newline: byte := 10
  const GaugesOpen: seq<byte> := Ascii("{\"gauges\": [")
  const GaugesClose: seq<byte> := Ascii("]}")

  /** `bytes.Join`: the parts in order, with `sep` between neighbours only. */
  function Join(parts: seq<seq<byte>>, sep: seq<byte>): seq<byte>
  {
    if |parts| == 0 then []
    else if |parts| == 1 then parts[0]
    else parts[0] + sep + Join(parts[1..], sep)
  }

  /** Sum of the lengths of the parts. */
  function TotalLength(parts: seq<seq<byte>>): nat
  {
    if parts == [] then 0 else |parts[0]| + TotalLength(parts[1..])
  }

  /** Joining gives every byte of every part plus one separator per gap. */
  lemma {:induction false} JoinLength(parts: seq<seq<byte>>, sep: seq<byte>)
    requires parts != []
    ensures |Join(parts, sep)| == TotalLength(parts) + (|parts| - 1) * |sep|
  {
    if |parts| > 1 {
      JoinLength(parts[1..], sep);
    }
  }

  /** Joining two non-empty runs is joining each, with one separator between. */
  lemma {:induction false} JoinAppend(a: seq<seq<byte>>, b: seq<seq<byte>>, sep: seq<byte>)
    requires a != [] && b != []
    ensures Join(a + b, sep) == Join(a, sep) + sep + Join(b, sep)
  {
    if |a| == 1 {
      assert (a + b)[1..] == b;
    } else {
      assert (a + b)[1..] == a[1..] + b;
      JoinAppend(a[1..], b, sep);
    }
  }

  /** Position of the first `c` in `s`. */
  function IndexOf(s: seq<byte>, c: byte): (i: nat)
    requires c in s
    ensures i < |s| && s[i] == c
    ensures c !in s[..i]
  {
    if s[0] == c then 0
    else
      var k := IndexOf(s[1..], c);
      assert s[1..][..k] == s[1..k + 1];
      1 + k
  }

  /**
   * Splitting at every `c`: the inverse of joining with `[c]`. Not part of
   * the transport; it is how a collector reads the envelope back.
   */
  function Split(s: seq<byte>, c: byte): (r: seq<seq<byte>>)
    ensures r != []
    ensures forall k :: 0 <= k < |r| ==> c !in r[k]
    ensures Join(r, [c]) == s
    decreases |s|
  {
    if c in s then
      var i := IndexOf(s, c);
      var rest := Split(s[i + 1..], c);
      assert ([s[..i]] + rest)[1..] == rest;
      assert s == s[..i] + [c] + s[i + 1..];
      [s[..i]] + rest
    else
      [s]
  }

  /** Records without the separator byte come back unchanged from a join. */
  lemma {:induction false} SplitJoin(parts: seq<seq<byte>>, c: byte)
    requires parts != []
    requires forall k :: 0 <= k < |parts| ==> c !in parts[k]
    ensures Split(Join(parts, [c]), c) == parts
  {
    if |parts| == 1 {
      assert c !in parts[0];
    } else {
      var tail := Join(parts[1..], [c]);
      var s := parts[0] + [c] + tail;
      assert c !in parts[0];
      assert c in s by { assert s[|parts[0]|] == c; }
      var i := IndexOf(s, c);
      assert i == |parts[0]|;
      assert s[..i] == parts[0];
      assert s[i + 1..] == tail;
      SplitJoin(parts[1..], c);
    }
  }

  /** The request body `Send` posts for a batch of records. */
  function GaugesBody(batch: seq<Record>): seq<byte>
  {
    GaugesOpen + Join(batch, [Comma]) + GaugesClose
  }

  /** A collector's reading of a request body: the envelope's records, if framed. */
  function ParseGauges(body: seq<byte>): Option<seq<Record>>
  {
    var lo, hi := |GaugesOpen|, |GaugesClose|;
    if |body| >= lo + hi && body[..lo] == GaugesOpen && body[|body| - hi..] == GaugesClose
    then Some(Split(body[lo..|body| - hi], Comma))
    else None
  }

  /** The body is the envelope around the comma-joined records, read back in order. */
  lemma GaugesRoundTrip(batch: seq<Record>)
    requires batch != []
    requires forall k :: 0 <= k < |batch| ==> Comma !in batch[k]
    ensures ParseGauges(GaugesBody(batch)) == Some(batch)
  {
    var body := GaugesBody(batch);
    var inner := Join(batch, [Comma]);
    assert body[..|GaugesOpen|] == GaugesOpen;
    assert body[|body| - |GaugesClose|..] == GaugesClose;
    assert body[|GaugesOpen|..|body| - |GaugesClose|] == inner;
    SplitJoin(batch, Comma);
  }

  /** A batch of one record carries no separator at all. */
  lemma GaugesSingle(r: Record)
    ensures GaugesBody([r]) == GaugesOpen + r + GaugesClose
  {
  }

  /** Records appear in order, a comma after every record but the last. */
  lemma GaugesSnoc(batch: seq<Record>, last: Record)
    requires batch != []
    ensures GaugesBody(batch + [last]) == GaugesOpen + Join(batch, [Comma]) + [Comma] + last + GaugesClose
  {
    JoinAppend(batch, [last], [Comma]);
  }

  /** The envelope adds exactly its fixed framing and one comma per gap. */
  lemma GaugesLength(batch: seq<Record>)
    requires batch != []
    ensures |GaugesBody(batch)| == |GaugesOpen| + TotalLength(batch) + |batch| - 1 + |GaugesClose|
  {
    JoinLength(batch, [Comma]);
  }

  /** Records "a", "b", "c" in one batch go out as `{"gauges": [a,b,c]}`. */
  lemma GaugesExample()
    ensures GaugesBody([Ascii("a"), Ascii("b"), Ascii("c")]) == Ascii("{\"gauges\": [a,b,c]}")
  {
    var a, b, c := Ascii("a"), Ascii("b"), Ascii("c");
    assert [a, b, c][1..] == [b, c] && [b, c][1..] == [c];
    assert Join([b, c], [Comma]) == b + [Comma] + c;
    assert Join([a, b, c], [Comma]) == a + [Comma] + b + [Comma] + c;
    var lhs := GaugesBody([a, b, c]);
    var rhs := Ascii("{\"gauges\": [a,b,c]}");
    assert |lhs| == |rhs|;
    assert forall i :: 0 <= i < |lhs| ==> lhs[i] == rhs[i];
  }
}

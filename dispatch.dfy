/**
 * Transport selection by URL scheme: `NewReadWriter` (src/dendrite/io.go:41-60)
 * looks at the scheme text before the first '+' and picks a constructor or
 * panics. The constructors themselves are represented by what they are given.
 */
module Dispatch {
  /** The parts of a parsed URL the transports use. */
  datatype Url = Url(scheme: string, host: string, path: string)

  /** `strings.Split(scheme, "+")[0]`: the scheme up to, not including, the first '+'. */
  function SchemePrefix(scheme: string): (p: string)
    ensures |p| <= |scheme| && p == scheme[..|p|]
    ensures '+' !in p
    ensures |p| < |scheme| ==> scheme[|p|] == '+'
  {
    if scheme == [] || scheme[0] == '+' then []
    else [scheme[0]] + SchemePrefix(scheme[1..])
  }

  /** Which constructor `NewReadWriter` hands the URL to, with its argument. */
  datatype Constructor =
    | FileReadWriter(path: string)
    | UdpReadWriter(url: Url)
    | TcpReadWriter(url: Url)
    | LibratoReadWriter(url: Url)

  datatype Selection = Selected(ctor: Constructor) | Panic(message: string)

  const NotImplemented: string := "not implemented"
  const UnknownProtocol: string := "unknown protocol"

  /** The scheme dispatch as written, including its unreachable "tcp+tls" case. */
  function NewReadWriter(u: Url): Selection
  {
    var protocol := SchemePrefix(u.scheme);
    if protocol == "file" then Selected(FileReadWriter(u.host + "/" + u.path))
    else if protocol == "udp" then Selected(UdpReadWriter(u))
    else if protocol == "tcp" then Selected(TcpReadWriter(u))
    else if protocol == "librato" then Selected(LibratoReadWriter(u))
    else if protocol == "tcps" || protocol == "tcp+tls" then Panic(NotImplemented)
    else if protocol == "http" || protocol == "https" then Panic(NotImplemented)
    else Panic(UnknownProtocol)
  }

  /** The prefix of `p + "+" + rest` is `p` whenever `p` has no '+'. */
  lemma PrefixBeforePlus(p: string, rest: string)
    requires '+' !in p
    ensures SchemePrefix(p + "+" + rest) == p
  {
    var s := p + "+" + rest;
    var q := SchemePrefix(s);
    assert s[|p|] == '+';
    assert forall k :: 0 <= k < |p| ==> s[k] == p[k];
    assert |q| == |p|;
    assert q == s[..|p|] == p;
  }

  /** A scheme without '+' is its own prefix. */
  lemma PrefixWithoutPlus(p: string)
    requires '+' !in p
    ensures SchemePrefix(p) == p
  {
  }

  /** The scheme has the given protocol word, alone or followed by "+..." */
  predicate HasProtocol(scheme: string, p: string)
  {
    '+' !in p &&
    (scheme == p || (|scheme| > |p| && scheme[..|p| + 1] == p + "+"))
  }

  /**
   * The dispatch table: what each protocol word selects, whatever follows
   * its first '+', and the panic for every other word.
   */
  lemma DispatchTable(u: Url, p: string)
    requires HasProtocol(u.scheme, p)
    ensures p == "file" ==> NewReadWriter(u) == Selected(FileReadWriter(u.host + "/" + u.path))
    ensures p == "udp" ==> NewReadWriter(u) == Selected(UdpReadWriter(u))
    ensures p == "tcp" ==> NewReadWriter(u) == Selected(TcpReadWriter(u))
    ensures p == "librato" ==> NewReadWriter(u) == Selected(LibratoReadWriter(u))
    ensures p in {"tcps", "http", "https"} ==> NewReadWriter(u) == Panic(NotImplemented)
    ensures p !in {"file", "udp", "tcp", "librato", "tcps", "http", "https"} ==>
              NewReadWriter(u) == Panic(UnknownProtocol)
  {
    if u.scheme == p {
      PrefixWithoutPlus(p);
    } else {
      assert u.scheme == p + "+" + u.scheme[|p| + 1..];
      PrefixBeforePlus(p, u.scheme[|p| + 1..]);
    }
    assert '+' in "tcp+tls" by { assert "tcp+tls"[3] == '+'; }
  }

  /** The "tcp+tls" case can never match: a prefix never holds a '+'. */
  lemma TcpTlsCaseUnreachable(scheme: string)
    ensures SchemePrefix(scheme) != "tcp+tls"
  {
    assert "tcp+tls"[3] == '+';
  }

  /** As written, a "tcp+tls" URL goes to the plain TCP constructor. */
  lemma TcpTlsSelectsTcp(u: Url)
    requires u.scheme == "tcp+tls"
    ensures NewReadWriter(u) == Selected(TcpReadWriter(u))
  {
    PrefixBeforePlus("tcp", "tls");
    assert u.scheme == "tcp" + "+" + "tls";
  }

  /**
   * The dispatch with the "tcp+tls" case made reachable: that exact scheme
   * is switched on whole, so it panics as not implemented, like "tcps".
   */
  function NewReadWriterCorrected(u: Url): (r: Selection)
    ensures u.scheme == "tcp+tls" ==> r == Panic(NotImplemented)
    ensures u.scheme != "tcp+tls" ==> r == NewReadWriter(u)
  {
    var protocol := if u.scheme == "tcp+tls" then u.scheme else SchemePrefix(u.scheme);
    if protocol == "file" then Selected(FileReadWriter(u.host + "/" + u.path))
    else if protocol == "udp" then Selected(UdpReadWriter(u))
    else if protocol == "tcp" then Selected(TcpReadWriter(u))
    else if protocol == "librato" then Selected(LibratoReadWriter(u))
    else if protocol == "tcps" || protocol == "tcp+tls" then Panic(NotImplemented)
    else if protocol == "http" || protocol == "https" then Panic(NotImplemented)
    else Panic(UnknownProtocol)
  }

  /** Outside "tcp+tls", the corrected dispatch keeps the whole table. */
  lemma CorrectedDispatchTable(u: Url, p: string)
    requires HasProtocol(u.scheme, p)
    ensures u.scheme == "tcp+tls" ==> NewReadWriterCorrected(u) == Panic(NotImplemented)
    ensures u.scheme != "tcp+tls" && p == "tcp" ==> NewReadWriterCorrected(u) == Selected(TcpReadWriter(u))
    ensures p == "file" ==> NewReadWriterCorrected(u) == Selected(FileReadWriter(u.host + "/" + u.path))
    ensures p == "udp" ==> NewReadWriterCorrected(u) == Selected(UdpReadWriter(u))
    ensures p == "librato" ==> NewReadWriterCorrected(u) == Selected(LibratoReadWriter(u))
    ensures p in {"tcps", "http", "https"} ==> NewReadWriterCorrected(u) == Panic(NotImplemented)
    ensures p !in {"file", "udp", "tcp", "librato", "tcps", "http", "https"} ==>
              NewReadWriterCorrected(u) == Panic(UnknownProtocol)
  {
    DispatchTable(u, p);
    if u.scheme == "tcp+tls" {
      assert u.scheme[..4] == "tcp+";
    }
  }
}

/** A client that decodes a response by the framing header it finds gets back the data of the response. */
module ResponseRoundTrip {
  import opened Octets
  import opened Lines
  import opened Numerals
  import opened Chunked
  import opened Requests
  import opened Framing
  import opened HeaderFields
  import Response

  function ReadHeaders(s: bytes): map<bytes, bytes> {
    Fields(ReadBlock(s, NextLine(s, LineEnd(s, 0))).lines)
  }

  /** The message body and what follows it on the connection: RFC 2616, section 4.4. None is a response that
  is not complete yet. */
  function Unframe(headers: map<bytes, bytes>, s: bytes): Option<(bytes, bytes)> {
    if "transfer-encoding" in headers && headers["transfer-encoding"] == "chunked" then Dechunk(s)
    else if "content-length" !in headers then None
    else
      match ParseLong(headers["content-length"])
      case None => None
      case Some(n) => if 0 <= n <= |s| then Some((s[..n], s[n..])) else None
  }

  /** What the headers make of the bytes behind them. */
  function Deliver(headers: map<bytes, bytes>, s: bytes, decompress: bytes -> bytes): Option<(bytes, bytes)> {
    match Unframe(headers, s)
    case None => None
    case Some((body, rest)) =>
      if "content-encoding" in headers && headers["content-encoding"] == "gzip" then Some((decompress(body), rest))
      else Some((body, rest))
  }

  function Receive(s: bytes, decompress: bytes -> bytes): Option<(bytes, bytes)> {
    HeaderEndMeaning(s);
    var e := HeaderEnd(s);
    if e == 0 then None else Deliver(ReadHeaders(s), s[e..], decompress)
  }

  lemma ReceiveBy(h: bytes, body: bytes, headers: map<bytes, bytes>, decompress: bytes -> bytes)
    requires HeaderEnd(h + body) == |h| > 0 && ReadHeaders(h + body) == headers
    ensures Receive(h + body, decompress) == Deliver(headers, body, decompress)
  {
    assert (h + body)[|h|..] == body;
  }

  // ---- printed heads

  lemma {:induction false} NoHeader(header: Pairs, name: bytes)
    requires !Named(header, Lower(name))
    ensures Response.GetHeader(header, name) == None
    decreases |header|
  {
    if header != [] {
      var front := header[..|header| - 1];
      assert forall i :: 0 <= i < |front| ==> front[i] == header[i];
      NoHeader(front, name);
    }
  }

  lemma StatusLinePlain(description: bytes)
    requires OneLine(description)
    ensures OneLine(Response.StatusLine(description)) && !Blank(Response.StatusLine(description))
  {
    var line := Response.StatusLine(description);
    forall i | 0 <= i < |line| ensures !IsBreak(line[i]) {
      assert 9 <= i < |line| - 1 ==> line[i] == description[i - 9];
    }
    assert line[0] == 'H';
  }

  lemma ReadPrintedHead(first: bytes, pairs: Pairs, after: bytes)
    requires OneLine(first) && !Blank(first) && PlainPairs(pairs)
    ensures var h := PrintLines([first] + HeaderLines(pairs)) + CRLF;
            && HeaderEnd(h + after) == |h| > 0 && ReadHeaders(h + after) == PairMap(pairs)
  {
    var rest := HeaderLines(pairs);
    PrintedPairs(pairs);
    PrintedHead(first, rest, after);
  }

  lemma PrintedHead(first: bytes, rest: seq<bytes>, after: bytes)
    requires OneLine(first) && !Blank(first) && Printable(rest)
    ensures var h := PrintLines([first] + rest) + CRLF;
            && HeaderEnd(h + after) == |h| > 0 && ReadHeaders(h + after) == Fields(rest)
  {
    var lines := [first] + rest;
    assert lines[0] == first && lines[1..] == rest;
    assert Printable(lines) by {
      assert forall i :: 0 < i < |lines| ==> lines[i] == rest[i - 1];
    }
    PrintedHeadEnd(lines, after);
    PrintedHeadFields(lines, after);
  }

  lemma PrintedHeadEnd(lines: seq<bytes>, after: bytes)
    requires lines != [] && Printable(lines)
    ensures var h := PrintLines(lines) + CRLF;
            HeaderEnd(h + after) == |h| > 0
  {
    var h := PrintLines(lines) + CRLF;
    assert OccursAt(h + after, h, 0);
    PrintedHeaderEnd(h + after, lines, 0);
  }

  lemma PrintedHeadFields(lines: seq<bytes>, after: bytes)
    requires lines != [] && Printable(lines)
    ensures ReadHeaders(PrintLines(lines) + CRLF + after) == Fields(lines[1..])
  {
    var s := PrintLines(lines) + CRLF + after;
    StartsWith(PrintLines(lines) + CRLF, after);
    SplitFirstLine(s, lines, 0);
    PrintedLineEnd(s, lines[0], 0);
    ReadPrintedBlock(s, lines[1..], |lines[0]| + 2);
  }

  lemma StartsWith(head: bytes, after: bytes)
    ensures OccursAt(head + after, head, 0)
  {
  }

  // ---- the response

  /** A response whose texts fit on a line each. */
  predicate Readable(f: Response.Fields, date: bytes) {
    && OneLine(f.description) && PlainPairs(f.header) && OneLine(date) && Trimmed(date)
    && (f.mimeType.Some? ==> OneLine(f.mimeType.value) && Trimmed(f.mimeType.value))
  }

  /** A readable response whose handler has left the codings to the server, and whose request was not HEAD. */
  predicate Conforming(f: Response.Fields, date: bytes) {
    && Readable(f, date) && !f.head
    && !Named(f.header, "transfer-encoding") && !Named(f.header, "content-encoding")
  }

  lemma Letters(name: bytes)
    requires name != [] && forall i :: 0 <= i < |name| ==> name[i] > ' ' && name[i] != ':'
    ensures FieldName(name) && OneLine(name)
  {
  }

  lemma FixedNames()
    ensures FieldName("Content-Type") && OneLine("Content-Type") && FieldName("Date") && OneLine("Date")
    ensures FieldName("Connection") && OneLine("Connection")
  {
    Letters("Content-Type");
    Letters("Date");
    Letters("Connection");
  }

  lemma EncodingNames()
    ensures FieldName("Content-Encoding") && OneLine("Content-Encoding")
    ensures FieldName("Transfer-Encoding") && OneLine("Transfer-Encoding")
    ensures Lower("Content-Encoding") == "content-encoding" && Lower("Transfer-Encoding") == "transfer-encoding"
  {
    ContentEncodingName();
    TransferEncodingName();
    ContentEncodingLower();
    TransferEncodingLower();
  }

  lemma ContentEncodingName()
    ensures var a: bytes := "Content-Encoding"; FieldName(a) && OneLine(a)
  {
    var a: bytes := "Content-Encoding";
    assert forall i :: 0 <= i < 8 ==> a[i] > ' ' && a[i] != ':';
    assert forall i :: 8 <= i < 16 ==> a[i] > ' ' && a[i] != ':';
    Letters(a);
  }

  lemma TransferEncodingName()
    ensures var a: bytes := "Transfer-Encoding"; FieldName(a) && OneLine(a)
  {
    var a: bytes := "Transfer-Encoding";
    assert forall i :: 0 <= i < 9 ==> a[i] > ' ' && a[i] != ':';
    assert forall i :: 9 <= i < 17 ==> a[i] > ' ' && a[i] != ':';
    Letters(a);
  }

  lemma ContentEncodingLower()
    ensures Lower("Content-Encoding") == "content-encoding"
  {
    var a: bytes, b: bytes := "Content-Encoding", "content-encoding";
    assert LowerChar('C') == 'c' && LowerChar('E') == 'e';
    assert forall i :: 0 <= i < 8 ==> Lower(a)[i] == b[i];
    assert forall i :: 8 <= i < 16 ==> Lower(a)[i] == b[i];
    assert Lower(a) == b;
  }

  lemma TransferEncodingLower()
    ensures Lower("Transfer-Encoding") == "transfer-encoding"
  {
    var a: bytes, b: bytes := "Transfer-Encoding", "transfer-encoding";
    assert LowerChar('T') == 't' && LowerChar('E') == 'e';
    assert forall i :: 0 <= i < 9 ==> Lower(a)[i] == b[i];
    assert forall i :: 9 <= i < 17 ==> Lower(a)[i] == b[i];
    assert Lower(a) == b;
  }

  function Common(f: Response.Fields, date: bytes): Pairs {
    Response.TypeField(f) + Response.DateField(f, date) + f.header + Response.ConnectionField(f)
  }

  lemma PlainConcat(a: Pairs, b: Pairs)
    requires PlainPairs(a) && PlainPairs(b)
    ensures PlainPairs(a + b)
  {
  }

  lemma NamedConcat(a: Pairs, b: Pairs, name: bytes)
    requires !Named(a, name) && !Named(b, name)
    ensures !Named(a + b, name)
  {
    forall i | 0 <= i < |a + b| ensures Lower((a + b)[i].0) != name {
      assert i < |a| ==> Lower(a[i].0) != name;
      assert i >= |a| ==> Lower(b[i - |a|].0) != name;
    }
  }

  lemma CommonPlain(f: Response.Fields, date: bytes)
    requires Readable(f, date)
    ensures PlainPairs(Common(f, date))
  {
    FixedNames();
    var t, d, c := Response.TypeField(f), Response.DateField(f, date), Response.ConnectionField(f);
    assert PlainPairs(t) && PlainPairs(d) && PlainPairs(c);
    PlainConcat(t, d);
    PlainConcat(t + d, f.header);
    PlainConcat(t + d + f.header, c);
  }

  lemma CommonNotNamed(f: Response.Fields, date: bytes, name: bytes)
    requires !Named(f.header, name) && |name| >= 14
    ensures !Named(Common(f, date), name)
  {
    var t, d, c := Response.TypeField(f), Response.DateField(f, date), Response.ConnectionField(f);
    NamedConcat(t, d, name);
    NamedConcat(t + d, f.header, name);
    NamedConcat(t + d + f.header, c, name);
  }

  /** What the client reads in the header of a chunked response. */
  lemma ChunkedHeaders(f: Response.Fields, date: bytes)
    requires Conforming(f, date) && Response.IsChunked(f)
    ensures var pairs := Response.LeadingFields(f, date) + Response.FramingFields(f);
            && PlainPairs(pairs)
            && "transfer-encoding" in PairMap(pairs) && PairMap(pairs)["transfer-encoding"] == "chunked"
            && ("content-encoding" in PairMap(pairs) <==> Response.Gzip(f))
            && (Response.Gzip(f) ==> PairMap(pairs)["content-encoding"] == "gzip")
  {
    EncodingHeaders(f, date);
    ChunkedField();
    PairMapSnoc(Response.LeadingFields(f, date), "Transfer-Encoding", "chunked");
    assert |"content-encoding"| != |"transfer-encoding"|;
  }

  lemma ChunkedField()
    ensures PlainField(("Transfer-Encoding", "chunked")) && Lower("Transfer-Encoding") == "transfer-encoding"
  {
    EncodingNames();
  }

  lemma EncodingHeaders(f: Response.Fields, date: bytes)
    requires Conforming(f, date)
    ensures var pairs := Response.LeadingFields(f, date);
            && PlainPairs(pairs)
            && ("content-encoding" in PairMap(pairs) <==> Response.Gzip(f))
            && (Response.Gzip(f) ==> PairMap(pairs)["content-encoding"] == "gzip")
  {
    var common := Common(f, date);
    CommonPlain(f, date);
    if Response.Gzip(f) {
      GzipField();
      PairMapSnoc(common, "Content-Encoding", "gzip");
      assert Response.LeadingFields(f, date) == common + [("Content-Encoding", "gzip")];
    } else {
      CommonNotNamed(f, date, "content-encoding");
      NotNamed(common, "content-encoding");
      assert Response.LeadingFields(f, date) == common;
    }
  }

  lemma GzipField()
    ensures PlainField(("Content-Encoding", "gzip")) && Lower("Content-Encoding") == "content-encoding"
  {
    EncodingNames();
  }

  /** What the client reads in the header of a response with a declared length. */
  lemma FixedHeaders(f: Response.Fields, date: bytes)
    requires Conforming(f, date) && !Response.IsChunked(f) && 0 <= Response.Size(f) <= LONG_MAX
    ensures var pairs := Response.LeadingFields(f, date) + Response.FramingFields(f);
            && PlainPairs(pairs) && !Response.Gzip(f)
            && "transfer-encoding" !in PairMap(pairs) && "content-encoding" !in PairMap(pairs)
            && "content-length" in PairMap(pairs)
            && ParseLong(PairMap(pairs)["content-length"]) == Some(Response.Size(f))
  {
    var common, n := Common(f, date), Response.Size(f);
    ContentLengthName();
    PrintedNumber(n);
    CommonPlain(f, date);
    assert Response.LeadingFields(f, date) == common;
    CommonNotNamed(f, date, "transfer-encoding");
    CommonNotNamed(f, date, "content-encoding");
    NotNamed(common, "transfer-encoding");
    NotNamed(common, "content-encoding");
    PairMapSnoc(common, "Content-Length", Print(n, 10));
    assert |"content-length"| == 14 && |"content-encoding"| == 16 && |"transfer-encoding"| == 17;
  }

  lemma LowerTwice(s: bytes)
    ensures Lower(Lower(s)) == Lower(s)
  {
  }

  /** Chunked or compressed responses: whatever the sizes of the reads and of the compressor's pieces, the
  client gets all of the data, and then finds the next message. */
  lemma ChunkedResponseRoundTrip(
      f: Response.Fields, date: bytes, data: bytes, writes: seq<bytes>, rest: bytes,
      compress: bytes -> bytes, decompress: bytes -> bytes)
    requires Conforming(f, date) && Response.IsChunked(f)
    requires decompress(compress(data)) == data
    requires var sent := Response.Sent(data, Response.Pending(f));
             Concat(writes) == if Response.Gzip(f) then compress(sent) else sent
    ensures Receive(Response.Head(f, date) + (Response.BodyBytes(f, writes) + rest), decompress) == Some((data, rest))
  {
    var pairs := Response.LeadingFields(f, date) + Response.FramingFields(f);
    var body := Response.BodyBytes(f, writes) + rest;
    ChunkedHeaders(f, date);
    ReceiveSent(f, date, body, decompress);
    ChunkedBodyRoundTrip(writes, rest);
    DeliverChunked(PairMap(pairs), body, Concat(writes), rest, decompress);
  }

  /** n is the length a response declares: the handler's own last content-length if that is a number, and otherwise
  the length of the data. */
  ghost predicate Declares(f: Response.Fields, n: int) {
    if !Named(f.header, "content-length") then n == f.contentLength
    else exists i: nat :: LastNamed(f.header, i, "content-length")
           && n == match ParseLong(f.header[i].1) case None => f.contentLength case Some(v) => v
  }

  lemma {:induction false} LastHeader(header: Pairs, i: nat, name: bytes)
    requires LastNamed(header, i, Lower(name))
    ensures Response.GetHeader(header, name) == Some(header[i].1)
    decreases |header|
  {
    if i < |header| - 1 {
      var front := header[..|header| - 1];
      assert forall j :: 0 <= j < |front| ==> front[j] == header[j];
      LastHeader(front, i, name);
    }
  }

  lemma LengthKey()
    ensures Lower("content-length") == "content-length"
  {
    ContentLengthName();
    LowerTwice("Content-Length");
  }

  lemma SizeDeclared(f: Response.Fields)
    ensures Declares(f, Response.Size(f))
    ensures Response.GetHeader(f.header, "content-length").Some? <==> Named(f.header, "content-length")
  {
    LengthKey();
    if Named(f.header, "content-length") {
      var i := FindLast(f.header, "content-length");
      LastHeader(f.header, i, "content-length");
    } else {
      NoHeader(f.header, "content-length");
    }
  }

  /** Data is compressed if the client takes it and the handler has not declared a length; it is chunked if it is
  compressed or its length is unknown, but not for HEAD. */
  lemma CodingChosen(f: Response.Fields)
    ensures Response.Gzip(f) <==> f.encodeAsGzip && !Named(f.header, "content-length")
    ensures Response.IsChunked(f) <==>
              !f.head && (f.chunkedTransfer || (f.encodeAsGzip && !Named(f.header, "content-length")))
  {
    SizeDeclared(f);
  }

  /** The first n bytes and the rest; None while they have not all come. */
  function FirstBytes(s: bytes, n: nat): Option<(bytes, bytes)> {
    if n <= |s| then Some((s[..n], s[n..])) else None
  }

  lemma UnframeFixed(f: Response.Fields, date: bytes, body: bytes, decompress: bytes -> bytes)
    requires Conforming(f, date) && !Response.IsChunked(f) && 0 <= Response.Size(f) <= LONG_MAX
    ensures Receive(Response.Head(f, date) + body, decompress)
         == FirstBytes(body, Response.Size(f))
  {
    var pairs := Response.LeadingFields(f, date) + Response.FramingFields(f);
    FixedHeaders(f, date);
    ReceiveSent(f, date, body, decompress);
    DeliverFixed(PairMap(pairs), body, Response.Size(f), decompress);
  }

  lemma DeliverFixed(headers: map<bytes, bytes>, body: bytes, n: nat, decompress: bytes -> bytes)
    requires "transfer-encoding" !in headers && "content-encoding" !in headers
    requires "content-length" in headers && ParseLong(headers["content-length"]) == Some(n)
    ensures Deliver(headers, body, decompress) == FirstBytes(body, n)
  {
  }

  /** The client finds the fields that were printed, and the body behind them. */
  lemma ReceiveSent(f: Response.Fields, date: bytes, body: bytes, decompress: bytes -> bytes)
    requires Readable(f, date) && PlainPairs(Response.LeadingFields(f, date) + Response.FramingFields(f))
    ensures Receive(Response.Head(f, date) + body, decompress)
         == Deliver(PairMap(Response.LeadingFields(f, date) + Response.FramingFields(f)), body, decompress)
  {
    var pairs := Response.LeadingFields(f, date) + Response.FramingFields(f);
    StatusLinePlain(f.description);
    ReadPrintedHead(Response.StatusLine(f.description), pairs, body);
    ReceiveBy(Response.Head(f, date), body, PairMap(pairs), decompress);
  }

  lemma DeliverChunked(
      headers: map<bytes, bytes>, coded: bytes, data: bytes, rest: bytes, decompress: bytes -> bytes)
    requires "transfer-encoding" in headers && headers["transfer-encoding"] == "chunked"
    requires Dechunk(coded) == Some((data, rest))
    ensures Deliver(headers, coded, decompress)
         == if "content-encoding" in headers && headers["content-encoding"] == "gzip"
            then Some((decompress(data), rest)) else Some((data, rest))
  {
  }

  /** What a client makes of n declared bytes when the server has sent the data, cut to n bytes, and then rest: if
  the data is too short, the client takes the missing bytes from what follows, or waits. */
  function FixedOutcome(data: bytes, rest: bytes, n: nat): Option<(bytes, bytes)> {
    if n <= |data| then Some((data[..n], rest))
    else if n <= |data| + |rest| then Some((data + rest[..n - |data|], rest[n - |data|..]))
    else None
  }

  /** Responses that declare a length n, of their own or the length of their data: the client gets exactly the first n
  bytes of the data if there are as many. If not, it waits, and takes what is sent next on the connection for the
  missing bytes. */
  lemma FixedResponseRoundTrip(f: Response.Fields, date: bytes, data: bytes, writes: seq<bytes>, rest: bytes, n: nat,
                               decompress: bytes -> bytes)
    requires Conforming(f, date) && !Response.IsChunked(f) && Declares(f, n) && n <= LONG_MAX
    requires Concat(writes) == Response.Sent(data, Response.Pending(f))
    ensures Receive(Response.Head(f, date) + (Response.BodyBytes(f, writes) + rest), decompress)
         == FixedOutcome(data, rest, n)
  {
    var body := Response.BodyBytes(f, writes);
    DeclaredOnce(f, n);
    FixedBody(f, date, data, writes);
    UnframeFixed(f, date, body + rest, decompress);
    TakeFrom(body, data, rest, n);
  }

  lemma DeclaredOnce(f: Response.Fields, n: int)
    requires Declares(f, n)
    ensures n == Response.Size(f)
  {
    SizeDeclared(f);
    if Named(f.header, "content-length") {
      var i: nat, j: nat :| LastNamed(f.header, i, "content-length") && LastNamed(f.header, j, "content-length")
        && (n == match ParseLong(f.header[i].1) case None => f.contentLength case Some(v) => v)
        && (Response.Size(f) == match ParseLong(f.header[j].1) case None => f.contentLength case Some(v) => v);
      assert i == j;
    }
  }

  lemma FixedBody(f: Response.Fields, date: bytes, data: bytes, writes: seq<bytes>)
    requires Conforming(f, date) && !Response.IsChunked(f) && 0 <= Response.Size(f) <= LONG_MAX
    requires Concat(writes) == Response.Sent(data, Response.Pending(f))
    ensures Response.BodyBytes(f, writes) == data[..Min(Response.Size(f), |data|)]
  {
    FixedHeaders(f, date);
  }

  lemma TakeFrom(body: bytes, data: bytes, rest: bytes, n: nat)
    requires body == data[..Min(n, |data|)]
    ensures FirstBytes(body + rest, n) == FixedOutcome(data, rest, n)
  {
    if n <= |data| {
      SplitBehind(body, rest, n);
      assert body + rest[..0] == body && rest[0..] == rest;
    } else {
      assert body == data;
      if n <= |data| + |rest| {
        SplitBehind(data, rest, n);
      }
    }
  }

  lemma SplitBehind(data: bytes, rest: bytes, n: nat)
    requires |data| <= n <= |data| + |rest|
    ensures (data + rest)[..n] == data + rest[..n - |data|] && (data + rest)[n..] == rest[n - |data|..]
  {
  }

  /** A response that declares one byte and has none. */
  const EMPTY_HANDED: Response.Fields :=
    Response.Fields("200 OK", None, [], false, false, false, true, 1)

  /** Its client waits for ever, or takes the first byte of the next message. */
  lemma DeclaredTooLong(date: bytes, rest: bytes, decompress: bytes -> bytes)
    requires OneLine(date) && Trimmed(date)
    ensures var f := EMPTY_HANDED;
      && Conforming(f, date) && Response.Sent([], Response.Pending(f)) == []
      && Receive(Response.Head(f, date) + rest, decompress)
         == if rest == [] then None else Some((rest[..1], rest[1..]))
  {
    var f, writes: seq<bytes> := EMPTY_HANDED, [];
    assert forall i :: 0 <= i < 6 ==> !IsBreak(f.description[i]);
    assert Declares(f, 1);
    FixedResponseRoundTrip(f, date, [], writes, rest, 1, decompress);
    assert Response.BodyBytes(f, writes) + rest == rest;
    if rest != [] {
      SplitBehind([], rest, 1);
    }
  }
}

/** What a client reads in the header of a response. */
module ResponseMeaning {
  import opened Octets
  import opened Lines
  import opened Numerals
  import opened Chunked
  import opened Framing
  import opened HeaderFields
  import opened ResponseRoundTrip
  import Response

  function ReadStatus(s: bytes): bytes {
    s[..LineEnd(s, 0)]
  }

  /** The handler has set the field itself, in any case. */
  predicate Own(f: Response.Fields, name: bytes) {
    Named(f.header, name)
  }

  predicate Compressed(f: Response.Fields) {
    f.encodeAsGzip && !Own(f, "content-length")
  }

  predicate InChunks(f: Response.Fields) {
    !f.head && (f.chunkedTransfer || Compressed(f))
  }

  /** The fields about the framing that the server sets. */
  predicate ByServer(f: Response.Fields, name: bytes) {
    || (name == "transfer-encoding" && InChunks(f))
    || (name == "content-encoding" && Compressed(f))
    || (name == "content-length" && !InChunks(f) && !Compressed(f))
  }

  /** The handler's own fields, each with its last value. */
  ghost predicate OwnFields(f: Response.Fields, headers: map<bytes, bytes>) {
    forall i: nat, name :: LastNamed(f.header, i, name) && !ByServer(f, name) ==>
      name in headers && headers[name] == f.header[i].1
  }

  ghost predicate CommonFields(f: Response.Fields, date: bytes, headers: map<bytes, bytes>) {
    && (!Own(f, "connection") ==>
          "connection" in headers && headers["connection"] == if f.keepAlive then "keep-alive" else "close")
    && (!Own(f, "date") ==> "date" in headers && headers["date"] == date)
    && (!Own(f, "content-type") ==>
          if f.mimeType.Some? then "content-type" in headers && headers["content-type"] == f.mimeType.value
          else "content-type" !in headers)
  }

  ghost predicate FramingHeaders(f: Response.Fields, headers: map<bytes, bytes>) {
    && (if InChunks(f) then "transfer-encoding" in headers && headers["transfer-encoding"] == "chunked"
        else Own(f, "transfer-encoding") || "transfer-encoding" !in headers)
    && (if Compressed(f) then "content-encoding" in headers && headers["content-encoding"] == "gzip"
        else Own(f, "content-encoding") || "content-encoding" !in headers)
    && (if !InChunks(f) && !Compressed(f)
        then "content-length" in headers
             && forall n :: Declares(f, n) && LONG_MIN < n <= LONG_MAX ==>
                  ParseLong(headers["content-length"]) == Some(n)
        else Own(f, "content-length") || "content-length" !in headers)
  }

  // ---- maps of fields put together

  lemma {:induction false} PairMapConcat(a: Pairs, b: Pairs)
    ensures PairMap(a + b) == PairMap(a) + PairMap(b)
    decreases |b|
  {
    if b == [] {
      assert a + b == a;
    } else {
      var front, last := b[..|b| - 1], b[|b| - 1];
      assert (a + b)[..|a + b| - 1] == a + front;
      PairMapConcat(a, front);
    }
  }

  lemma NamedIff(pairs: Pairs, name: bytes)
    ensures Named(pairs, name) <==> name in PairMap(pairs)
  {
    if Named(pairs, name) {
      var i := FindLast(pairs, name);
      LastOfName(pairs, i, name);
    } else {
      NotNamed(pairs, name);
    }
  }

  lemma OnePair(name: bytes, value: bytes)
    ensures PairMap([(name, value)]) == map[Lower(name) := value]
  {
    assert [(name, value)][..0] == [];
  }

  lemma SmallNames()
    ensures Lower("Content-Type") == "content-type" && Lower("Date") == "date" && Lower("Connection") == "connection"
    ensures Lower("date") == "date" && Lower("connection") == "connection"
  {
    var t: bytes, u: bytes := "Content-Type", "content-type";
    assert LowerChar('C') == 'c' && LowerChar('T') == 't' && LowerChar('D') == 'd';
    assert forall i :: 0 <= i < 12 ==> Lower(t)[i] == u[i];
    assert Lower(t) == u;
    var d: bytes, e: bytes := "Date", "date";
    assert forall i :: 0 <= i < 4 ==> Lower(d)[i] == e[i];
    assert Lower(d) == e;
    var c: bytes, g: bytes := "Connection", "connection";
    assert forall i :: 0 <= i < 10 ==> Lower(c)[i] == g[i];
    assert Lower(c) == g;
    LowerTwice(d);
    LowerTwice(c);
  }

  function TypeMap(f: Response.Fields): map<bytes, bytes> {
    match f.mimeType case None => map[] case Some(m) => map["content-type" := m]
  }

  function DateMap(f: Response.Fields, date: bytes): map<bytes, bytes> {
    if Own(f, "date") then map[] else map["date" := date]
  }

  function ConnectionMap(f: Response.Fields): map<bytes, bytes> {
    if Own(f, "connection") then map[]
    else map["connection" := if f.keepAlive then "keep-alive" else "close"]
  }

  function EncodingMap(f: Response.Fields): map<bytes, bytes> {
    if Compressed(f) then map["content-encoding" := "gzip"] else map[]
  }

  function FramingMap(f: Response.Fields): map<bytes, bytes> {
    if InChunks(f) then map["transfer-encoding" := "chunked"]
    else if Compressed(f) then map[]
    else map["content-length" := Response.PrintLong(Response.Size(f))]
  }

  lemma Absent(f: Response.Fields, name: bytes)
    requires Lower(name) == name
    ensures Response.GetHeader(f.header, name) == None <==> !Own(f, name)
  {
    if Own(f, name) {
      var i := FindLast(f.header, name);
      LastHeader(f.header, i, name);
    } else {
      NoHeader(f.header, name);
    }
  }

  lemma CommonMaps(f: Response.Fields, date: bytes)
    ensures PairMap(Response.TypeField(f)) == TypeMap(f)
    ensures PairMap(Response.DateField(f, date)) == DateMap(f, date)
    ensures PairMap(Response.ConnectionField(f)) == ConnectionMap(f)
  {
    SmallNames();
    Absent(f, "date");
    Absent(f, "connection");
    if f.mimeType.Some? {
      OnePair("Content-Type", f.mimeType.value);
    }
    OnePair("Date", date);
    OnePair("Connection", if f.keepAlive then "keep-alive" else "close");
  }

  lemma FramingMaps(f: Response.Fields)
    ensures PairMap(Response.EncodingField(f)) == EncodingMap(f)
    ensures PairMap(Response.FramingFields(f)) == FramingMap(f)
  {
    CodingChosen(f);
    EncodingNames();
    ContentLengthName();
    OnePair("Content-Encoding", "gzip");
    OnePair("Transfer-Encoding", "chunked");
    OnePair("Content-Length", Response.PrintLong(Response.Size(f)));
  }

  function AllMap(f: Response.Fields, date: bytes): map<bytes, bytes> {
    TypeMap(f) + DateMap(f, date) + PairMap(f.header) + ConnectionMap(f) + EncodingMap(f) + FramingMap(f)
  }

  lemma HeadMap(f: Response.Fields, date: bytes)
    ensures PairMap(Response.LeadingFields(f, date) + Response.FramingFields(f)) == AllMap(f, date)
  {
    var t, d, o := Response.TypeField(f), Response.DateField(f, date), f.header;
    var c, e := Response.ConnectionField(f), Response.EncodingField(f);
    CommonMaps(f, date);
    FramingMaps(f);
    PairMapConcat(t, d);
    PairMapConcat(t + d, o);
    PairMapConcat(t + d + o, c);
    PairMapConcat(t + d + o + c, e);
    PairMapConcat(t + d + o + c + e, Response.FramingFields(f));
  }

  lemma LiteralNames()
    ensures |"date"| == 4 && |"connection"| == 10 && |"content-type"| == 12 && |"content-length"| == 14
    ensures |"content-encoding"| == 16 && |"transfer-encoding"| == 17
  {
  }

  lemma OwnInMap(f: Response.Fields, date: bytes)
    ensures OwnFields(f, AllMap(f, date))
  {
    LiteralNames();
    forall i: nat, name | LastNamed(f.header, i, name) && !ByServer(f, name)
      ensures name in AllMap(f, date) && AllMap(f, date)[name] == f.header[i].1
    {
      LastOfName(f.header, i, name);
      assert Own(f, name);
      assert name !in ConnectionMap(f) && name !in EncodingMap(f) && name !in FramingMap(f);
    }
  }

  /** The later maps do not touch a name that the handler's own fields and they do not have. */
  lemma NotLater(f: Response.Fields, date: bytes, name: bytes)
    requires !Own(f, name) && name !in EncodingMap(f) && name !in FramingMap(f)
    ensures name in AllMap(f, date) <==> name in ConnectionMap(f) || name in DateMap(f, date) || name in TypeMap(f)
    ensures name in ConnectionMap(f) ==> AllMap(f, date)[name] == ConnectionMap(f)[name]
    ensures name in DateMap(f, date) && name !in ConnectionMap(f) ==> AllMap(f, date)[name] == DateMap(f, date)[name]
    ensures name in TypeMap(f) && name !in ConnectionMap(f) && name !in DateMap(f, date) ==>
              AllMap(f, date)[name] == TypeMap(f)[name]
  {
    NamedIff(f.header, name);
  }

  lemma CommonInMap(f: Response.Fields, date: bytes)
    ensures CommonFields(f, date, AllMap(f, date))
  {
    LiteralNames();
    ConnectionInMap(f, date);
    if !Own(f, "date") {
      NotLater(f, date, "date");
    }
    if !Own(f, "content-type") {
      NotLater(f, date, "content-type");
    }
  }

  lemma ConnectionInMap(f: Response.Fields, date: bytes)
    ensures !Own(f, "connection") ==>
      && "connection" in AllMap(f, date)
      && AllMap(f, date)["connection"] == if f.keepAlive then "keep-alive" else "close"
  {
    LiteralNames();
    if !Own(f, "connection") {
      NotLater(f, date, "connection");
    }
  }

  lemma PrintedLong(n: int)
    requires LONG_MIN < n <= LONG_MAX
    ensures ParseLong(Response.PrintLong(n)) == Some(n)
  {
    if n >= 0 {
      PrintParseLong(n);
    } else {
      var s := Response.PrintLong(n);
      PrintParse(-n, 10);
      assert s[1..] == Print(-n, 10);
    }
  }

  /** The last maps decide about the framing fields. */
  lemma LastMaps(f: Response.Fields, date: bytes, name: bytes)
    requires |name| >= 14
    ensures name in AllMap(f, date) <==> name in FramingMap(f) || name in EncodingMap(f) || Own(f, name)
    ensures name in FramingMap(f) ==> AllMap(f, date)[name] == FramingMap(f)[name]
    ensures name in EncodingMap(f) && name !in FramingMap(f) ==> AllMap(f, date)[name] == EncodingMap(f)[name]
  {
    LiteralNames();
    NamedIff(f.header, name);
  }

  lemma LengthInMap(f: Response.Fields, date: bytes)
    requires !InChunks(f) && !Compressed(f)
    ensures "content-length" in AllMap(f, date)
    ensures forall n :: Declares(f, n) && LONG_MIN < n <= LONG_MAX ==>
              ParseLong(AllMap(f, date)["content-length"]) == Some(n)
  {
    LiteralNames();
    LastMaps(f, date, "content-length");
    forall n | Declares(f, n) && LONG_MIN < n <= LONG_MAX
      ensures ParseLong(AllMap(f, date)["content-length"]) == Some(n)
    {
      DeclaredOnce(f, n);
      PrintedLong(n);
    }
  }

  lemma FramingInMap(f: Response.Fields, date: bytes)
    ensures FramingHeaders(f, AllMap(f, date))
  {
    LiteralNames();
    LastMaps(f, date, "transfer-encoding");
    LastMaps(f, date, "content-encoding");
    if !InChunks(f) && !Compressed(f) {
      LengthInMap(f, date);
    } else {
      LastMaps(f, date, "content-length");
    }
  }

  // ---- the bytes

  lemma LongPlain(n: int)
    ensures OneLine(Response.PrintLong(n)) && Trimmed(Response.PrintLong(n))
  {
    var m: nat := if n < 0 then -n else n;
    PrintedDigits(m, 10);
    var d := Print(m, 10);
    forall i | 0 <= i < |d| ensures d[i] > ' ' && !IsBreak(d[i]) {
      assert DigitValue(d[i], 10).Some?;
    }
  }

  lemma AllPlain(f: Response.Fields, date: bytes)
    requires Readable(f, date)
    ensures PlainPairs(Response.LeadingFields(f, date) + Response.FramingFields(f))
  {
    CommonPlain(f, date);
    GzipField();
    ChunkedField();
    ContentLengthName();
    LongPlain(Response.Size(f));
    var c, e, g := Common(f, date), Response.EncodingField(f), Response.FramingFields(f);
    assert PlainPairs(e) && PlainPairs(g);
    PlainConcat(c, e);
    PlainConcat(c + e, g);
  }

  /** A client reads in the bytes of a response, whatever follows its head: the status line with the description, the
  handler's own fields with their last values, the connection, date and type fields that the handler has not set
  itself, and the framing fields. */
  lemma ClientReads(f: Response.Fields, date: bytes, after: bytes)
    requires Readable(f, date)
    ensures var s := Response.Head(f, date) + after; var headers := ReadHeaders(s);
      && ReadStatus(s) == "HTTP/1.1 " + f.description + " "
      && OwnFields(f, headers) && CommonFields(f, date, headers) && FramingHeaders(f, headers)
      && HeaderEnd(s) == |Response.Head(f, date)|
  {
    var pairs := Response.LeadingFields(f, date) + Response.FramingFields(f);
    AllPlain(f, date);
    StatusLinePlain(f.description);
    ReadPrintedHead(Response.StatusLine(f.description), pairs, after);
    ReadFirst(Response.StatusLine(f.description), HeaderLines(pairs), after);
    HeadMap(f, date);
    OwnInMap(f, date);
    CommonInMap(f, date);
    FramingInMap(f, date);
  }

  lemma ReadFirst(first: bytes, rest: seq<bytes>, after: bytes)
    requires OneLine(first)
    ensures ReadStatus(PrintLines([first] + rest) + CRLF + after) == first
  {
    var lines := [first] + rest;
    var s := PrintLines(lines) + CRLF + after;
    StartsWith(PrintLines(lines) + CRLF, after);
    SplitFirstLine(s, lines, 0);
    PrintedLineEnd(s, first, 0);
    assert s[..|first|] == s[0..|first|];
  }

  // ---- the response to HEAD

  /** Behind the header of a response to HEAD, which should end there, come the declared bytes of the data; so it ends
  there exactly if nothing is declared or there is no data. */
  lemma HeadCarriesBody(f: Response.Fields, date: bytes, data: bytes, writes: seq<bytes>, rest: bytes, n: nat)
    requires Readable(f, date) && f.head && !Compressed(f) && Declares(f, n)
    requires Concat(writes) == Response.Sent(data, Response.Pending(f))
    ensures var s := Response.Head(f, date) + (Response.BodyBytes(f, writes) + rest);
      && 0 < HeaderEnd(s) <= |s|
      && s[HeaderEnd(s)..] == data[..Min(n, |data|)] + rest
      && (s[HeaderEnd(s)..] == rest <==> n == 0 || data == [])
  {
    var body := Response.BodyBytes(f, writes);
    ClientReads(f, date, body + rest);
    CodingChosen(f);
    DeclaredOnce(f, n);
    var s := Response.Head(f, date) + (body + rest);
    assert s[|Response.Head(f, date)|..] == body + rest;
    assert body == data[..Min(n, |data|)];
    if body != [] {
      assert |body + rest| > |rest|;
    } else {
      assert body + rest == rest;
    }
  }

  /** The response to HEAD for one byte of data. */
  const HEADED: Response.Fields := Response.Fields("200 OK", None, [], true, false, false, true, 1)

  /** The byte comes behind the header. */
  lemma HeadedByte(date: bytes, rest: bytes)
    requires OneLine(date) && Trimmed(date)
    ensures Concat(["x"]) == Response.Sent("x", Response.Pending(HEADED))
    ensures var s := Response.Head(HEADED, date) + (Response.BodyBytes(HEADED, ["x"]) + rest);
      0 < HeaderEnd(s) <= |s| && s[HeaderEnd(s)..] == "x" + rest
  {
    var x: bytes := "x";
    assert forall i :: 0 <= i < 6 ==> !IsBreak(HEADED.description[i]);
    assert ["x"][..0] == [] && [] + x == x && x[..1] == x;
    assert Declares(HEADED, 1);
    HeadCarriesBody(HEADED, date, x, [x], rest, 1);
  }
}

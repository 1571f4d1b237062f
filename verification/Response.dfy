/** Sending a response: the choice of framing, the header, and the body through a bounded buffer. */
module Response {
  import opened Octets
  import opened Lines
  import opened Numerals
  import opened Streams
  import opened Chunked
  import opened Framing
  import opened HeaderFields

  const BUFFER_SIZE := 16 * 1024

  /** The output stream of a body: plain or chunked, and through a compressor or not. The compressor takes
  everything in and writes the compressed bytes in pieces of any size when it is finished. `given` is what
  was written to it, `writes` what reached the stream under the compressor. */
  class BodyStream {
    const chunked: bool
    const gzip: bool
    const compress: bytes -> bytes
    const pieceSize: nat -> nat
    ghost const base: bytes
    var out: bytes
    var taken: bytes
    ghost var given: bytes
    ghost var writes: seq<bytes>

    ghost predicate Coding()
      reads this
    {
      out == base + Coded(chunked, writes)
    }

    ghost predicate Open()
      reads this
    {
      Coding() && if gzip then taken == given && writes == [] else Concat(writes) == given
    }

    constructor (chunked: bool, gzip: bool, compress: bytes -> bytes, pieceSize: nat -> nat, out: bytes)
      ensures Open() && given == [] && base == out
      ensures this.chunked == chunked && this.gzip == gzip && this.compress == compress
    {
      this.chunked, this.gzip, this.compress, this.pieceSize := chunked, gzip, compress, pieceSize;
      this.out, base, taken, given, writes := out, out, [], [], [];
    }

    method WriteCoded(b: bytes)
      modifies this`out
      ensures out == old(out) + CodedOne(chunked, b)
    {
      if chunked {
        var c := new ChunkedOutputStream(out);
        c.Write(b, 0, |b|);
        assert b[0..|b|] == b;
        out := c.out;
      } else {
        out := out + b;
      }
    }

    /** One write to the stream under the compressor. */
    method WriteThrough(b: bytes)
      requires Coding()
      modifies this`out, this`writes
      ensures Coding() && writes == old(writes) + [b] && Concat(writes) == old(Concat(writes)) + b
    {
      CodedSnoc(chunked, writes, b);
      AppendAssociates(base, Coded(chunked, writes), CodedOne(chunked, b));
      WriteCoded(b);
      writes := writes + [b];
    }

    method Write(b: bytes)
      requires Open()
      modifies this
      ensures Open() && given == old(given) + b
    {
      given := given + b;
      if gzip {
        taken := taken + b;
      } else {
        WriteThrough(b);
      }
    }

    /** The compressor's finish(), if there is one: all compressed bytes, in pieces. */
    method FinishCompressor()
      requires Open()
      modifies this`out, this`writes
      ensures Coding() && Concat(writes) == if gzip then compress(given) else given
    {
      if !gzip {
        return;
      }
      var z, pos, k := compress(taken), 0, 0;
      while pos < |z|
        invariant pos <= |z| && Coding() && Concat(writes) == z[..pos]
      {
        var n := Grant(pieceSize(k), |z| - pos);
        WriteThrough(z[pos..pos + n]);
        assert z[..pos] + z[pos..pos + n] == z[..pos + n];
        pos, k := pos + n, k + 1;
      }
    }
  }

  /** The bytes of a sequence of writes to a stream. */
  function Coded(chunked: bool, writes: seq<bytes>): bytes {
    if chunked then Chunks(writes) else Concat(writes)
  }

  function CodedOne(chunked: bool, b: bytes): bytes {
    if chunked then Chunk(b) else b
  }

  lemma CodedSnoc(chunked: bool, writes: seq<bytes>, b: bytes)
    ensures Coded(chunked, writes + [b]) == Coded(chunked, writes) + CodedOne(chunked, b)
    ensures Concat(writes + [b]) == Concat(writes) + b
  {
    assert (writes + [b])[..|writes|] == writes;
  }

  // ---- the response

  datatype Fields = Fields(
    description: bytes, mimeType: Option<bytes>, header: seq<(bytes, bytes)>,
    head: bool, chunkedTransfer: bool, encodeAsGzip: bool, keepAlive: bool, contentLength: int)

  /** getHeader: the value put last under a name, in any case. */
  function GetHeader(header: seq<(bytes, bytes)>, name: bytes): Option<bytes> {
    if header == [] then None
    else if Lower(header[|header| - 1].0) == Lower(name) then Some(header[|header| - 1].1)
    else GetHeader(header[..|header| - 1], name)
  }

  function Gzip(f: Fields): bool {
    f.encodeAsGzip && GetHeader(f.header, "content-length") == None
  }

  function IsChunked(f: Fields): bool {
    !f.head && (f.chunkedTransfer || Gzip(f))
  }

  /** The declared size: a handler's own content-length goes first, if it is a number. */
  function Size(f: Fields): int {
    match GetHeader(f.header, "content-length")
    case None => f.contentLength
    case Some(text) =>
      match ParseLong(text)
      case None => f.contentLength
      case Some(n) => n
  }

  /** The number written by print(long). */
  function PrintLong(n: int): bytes {
    if n < 0 then ['-'] + Print(-n, 10) else Print(n, 10)
  }

  function FramingFields(f: Fields): seq<(bytes, bytes)> {
    if IsChunked(f) then [("Transfer-Encoding", "chunked")]
    else if Gzip(f) then []
    else [("Content-Length", PrintLong(Size(f)))]
  }

  function TypeField(f: Fields): seq<(bytes, bytes)> {
    match f.mimeType
    case None => []
    case Some(m) => [("Content-Type", m)]
  }

  function DateField(f: Fields, date: bytes): seq<(bytes, bytes)> {
    if GetHeader(f.header, "date") == None then [("Date", date)] else []
  }

  function ConnectionField(f: Fields): seq<(bytes, bytes)> {
    if GetHeader(f.header, "connection") == None
    then [("Connection", if f.keepAlive then "keep-alive" else "close")] else []
  }

  function EncodingField(f: Fields): seq<(bytes, bytes)> {
    if Gzip(f) then [("Content-Encoding", "gzip")] else []
  }

  function LeadingFields(f: Fields, date: bytes): seq<(bytes, bytes)> {
    TypeField(f) + DateField(f, date) + f.header + ConnectionField(f) + EncodingField(f)
  }

  function StatusLine(description: bytes): bytes {
    "HTTP/1.1 " + description + " "
  }

  function Head(f: Fields, date: bytes): bytes {
    PrintLines([StatusLine(f.description)] + HeaderLines(LeadingFields(f, date) + FramingFields(f))) + CRLF
  }

  /** What sendBody takes from the data: everything for -1, otherwise at most `pending` bytes. */
  function Sent(data: bytes, pending: int): bytes {
    if pending == -1 then data else if pending <= 0 then [] else data[..Min(pending, |data|)]
  }

  /** The argument that reaches sendBody. */
  function Pending(f: Fields): int {
    if IsChunked(f) || Gzip(f) then -1 else Size(f)
  }

  method CopyPortion(data: BufferedInput, buff: array<byte>, bytesToRead: nat, stream: BodyStream) returns (n: int)
    requires data.Valid() && stream.Open() && 0 < bytesToRead <= buff.Length
    modifies data, stream, buff
    ensures data.Valid() && stream.Open() && n <= bytesToRead
    ensures if n <= 0 then data.pos == old(data.pos) == |data.data| && stream.given == old(stream.given)
            else old(data.pos) + n == data.pos <= |data.data|
                 && stream.given == old(stream.given) + data.data[old(data.pos)..data.pos]
  {
    ghost var before := data.pos;
    n := data.Read(buff, 0, bytesToRead);
    if n > 0 {
      assert buff[..n] == data.data[before..data.pos];
      stream.Write(buff[..n]);
    }
  }

  /** Copies the data to the stream through a buffer; the data may come in portions of any size. */
  method SendBody(data: BufferedInput, pending: int, stream: BodyStream)
    requires data.Valid() && stream.Open() && stream.given == []
    modifies data, stream
    ensures stream.Open() && stream.given == Sent(data.data[old(data.pos)..], pending)
  {
    var buff := new byte[BUFFER_SIZE];
    var left, sendEverything := pending, pending == -1;
    ghost var start := data.pos;
    while left > 0 || sendEverything
      invariant data.Valid() && stream.Open()
      invariant start <= data.pos && stream.given == data.data[start..data.pos]
      invariant if sendEverything then left == -1 else left == pending - |stream.given|
      invariant !sendEverything && pending > 0 ==> left >= 0
      invariant !sendEverything && pending <= 0 ==> stream.given == []
      decreases |data.data| - data.pos
    {
      var bytesToRead := if sendEverything then BUFFER_SIZE else Min(left, BUFFER_SIZE);
      ghost var before := data.pos;
      var n := CopyPortion(data, buff, bytesToRead, stream);
      if n <= 0 {
        break;
      }
      SliceJoin(data.data, start, before, data.pos);
      if !sendEverything {
        left := left - n;
      }
    }
  }

  lemma {:induction false} PrintLinesAppend(a: seq<bytes>, b: seq<bytes>)
    ensures PrintLines(a + b) == PrintLines(a) + PrintLines(b)
    decreases |a|
  {
    if a == [] {
      assert a + b == b;
    } else {
      assert (a + b)[0] == a[0] && (a + b)[1..] == a[1..] + b;
      PrintLinesAppend(a[1..], b);
    }
  }

  lemma PrintLinesOne(line: bytes)
    ensures PrintLines([line]) == line + CRLF
  {
    assert [line][1..] == [];
  }

  lemma PrintField(first: seq<bytes>, pairs: seq<(bytes, bytes)>, key: bytes, value: bytes)
    ensures PrintLines(first + HeaderLines(pairs + [(key, value)]))
         == PrintLines(first + HeaderLines(pairs)) + (Field(key, value) + CRLF)
  {
    var line := Field(key, value);
    assert first + HeaderLines(pairs + [(key, value)]) == (first + HeaderLines(pairs)) + [line];
    PrintLinesAppend(first + HeaderLines(pairs), [line]);
    PrintLinesOne(line);
  }

  class HttpResponse {
    const description: bytes
    const mimeType: Option<bytes>
    const header: seq<(bytes, bytes)>
    const head: bool
    const keepAlive: bool
    const contentLength: int
    const data: BufferedInput
    var chunkedTransfer: bool
    var encodeAsGzip: bool
    /** What the PrintWriter has printed; pairs are the header fields in it. */
    var printed: bytes
    ghost var pairs: seq<(bytes, bytes)>

    /** The constructor of a response: a negative length asks for chunks. */
    constructor (description: bytes, mimeType: Option<bytes>, header: seq<(bytes, bytes)>, head: bool,
                 gzip: bool, keepAlive: bool, data: BufferedInput, totalBytes: int)
      ensures View() == Fields.Fields(description, mimeType, header, head, totalBytes < 0, gzip, keepAlive, totalBytes)
      ensures this.data == data
    {
      this.description, this.mimeType, this.header, this.head := description, mimeType, header, head;
      this.keepAlive, this.data, contentLength := keepAlive, data, totalBytes;
      chunkedTransfer, encodeAsGzip, printed, pairs := totalBytes < 0, gzip, [], [];
    }

    ghost function View(): Fields
      reads this
    {
      Fields.Fields(description, mimeType, header, head, chunkedTransfer, encodeAsGzip, keepAlive, contentLength)
    }

    ghost predicate Printing()
      reads this
    {
      printed == PrintLines([StatusLine(description)] + HeaderLines(pairs))
    }

    method PrintHeader(key: bytes, value: bytes)
      requires Printing()
      modifies this`printed, this`pairs
      ensures Printing() && pairs == old(pairs) + [(key, value)]
    {
      PrintField([StatusLine(description)], pairs, key, value);
      printed := printed + (Field(key, value) + CRLF);
      pairs := pairs + [(key, value)];
    }

    method PrintEntries()
      requires Printing()
      modifies this`printed, this`pairs
      ensures Printing() && pairs == old(pairs) + header
    {
      var i := 0;
      while i < |header|
        invariant i <= |header| && Printing() && pairs == old(pairs) + header[..i]
      {
        PrintHeader(header[i].0, header[i].1);
        i := i + 1;
      }
    }

    /** The fields before the one that announces the framing. */
    method PrintLeading(date: bytes)
      modifies this
      ensures Printing() && pairs == LeadingFields(old(View()), date)
      ensures encodeAsGzip == Gzip(old(View()))
      ensures chunkedTransfer == (old(chunkedTransfer) || encodeAsGzip)
    {
      printed, pairs := StatusLine(description) + CRLF, [];
      PrintLinesOne(StatusLine(description));
      assert [StatusLine(description)] + HeaderLines(pairs) == [StatusLine(description)];
      ghost var f := View();
      if mimeType.Some? {
        PrintHeader("Content-Type", mimeType.value);
      }
      assert pairs == TypeField(f);
      PrintDate(date, f);
      PrintEntries();
      PrintConnection(f);
      PrintEncoding(f);
    }

    method PrintDate(date: bytes, ghost f: Fields)
      requires Printing() && f.header == header
      modifies this`printed, this`pairs
      ensures Printing() && pairs == old(pairs) + DateField(f, date)
    {
      if GetHeader(header, "date") == None {
        PrintHeader("Date", date);
      }
    }

    method PrintConnection(ghost f: Fields)
      requires Printing() && f.header == header && f.keepAlive == keepAlive
      modifies this`printed, this`pairs
      ensures Printing() && pairs == old(pairs) + ConnectionField(f)
    {
      if GetHeader(header, "connection") == None {
        PrintHeader("Connection", if keepAlive then "keep-alive" else "close");
      }
    }

    /** A content-length set by the handler turns compression off; compression turns chunks on. */
    method PrintEncoding(ghost f: Fields)
      requires Printing() && f.header == header && f.encodeAsGzip == encodeAsGzip
      modifies this
      ensures Printing() && pairs == old(pairs) + EncodingField(f)
      ensures encodeAsGzip == Gzip(f) && chunkedTransfer == (old(chunkedTransfer) || Gzip(f))
    {
      if GetHeader(header, "content-length") != None {
        encodeAsGzip := false;
      }
      if encodeAsGzip {
        PrintHeader("Content-Encoding", "gzip");
        chunkedTransfer := true;
      }
    }

    /** Prints the header; pending is the declared size. */
    method PrintHead(date: bytes) returns (pending: int)
      modifies this
      ensures printed == Head(old(View()), date)
      ensures !IsChunked(old(View())) && !Gzip(old(View())) ==> pending == Size(old(View()))
      ensures encodeAsGzip == Gzip(old(View())) && (!head && chunkedTransfer) == IsChunked(old(View()))
    {
      ghost var f := View();
      PrintLeading(date);
      pending := contentLength;
      if !head && chunkedTransfer {
        PrintHeader("Transfer-Encoding", "chunked");
      } else if !encodeAsGzip {
        var own := GetHeader(header, "content-length");
        if own.Some? && ParseLong(own.value).Some? {
          pending := ParseLong(own.value).value;
        }
        PrintHeader("Content-Length", PrintLong(pending));
      }
      assert pairs == LeadingFields(f, date) + FramingFields(f);
      printed := printed + CRLF;
    }

    /** Sends the response: its header, and the data with the framing the header announces. */
    method Send(date: bytes, compress: bytes -> bytes, pieceSize: nat -> nat)
        returns (wire: bytes, ghost writes: seq<bytes>)
      requires data.Valid()
      modifies this, data
      ensures var f := old(View());
              var sent := Sent(data.data[old(data.pos)..], Pending(f));
              && wire == Head(f, date) + BodyBytes(f, writes)
              && Concat(writes) == if Gzip(f) then compress(sent) else sent
    {
      ghost var f := View();
      var pending := PrintHead(date);
      var chunked := !head && chunkedTransfer;
      var stream := new BodyStream(chunked, encodeAsGzip, compress, pieceSize, printed);
      if chunked || encodeAsGzip {
        pending := -1;
      }
      SendBody(data, pending, stream);
      stream.FinishCompressor();
      writes := stream.writes;
      wire := stream.out;
      if chunked {
        var c := new ChunkedOutputStream(wire);
        c.Finish();
        wire := c.out;
        AppendAssociates(Head(f, date), Chunks(writes), LAST_CHUNK);
      }
    }
  }

  /** The body as it is framed. */
  function BodyBytes(f: Fields, writes: seq<bytes>): bytes {
    if IsChunked(f) then Chunks(writes) + LAST_CHUNK else Concat(writes)
  }
}

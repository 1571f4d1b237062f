/** What one pass of the session loop does with the bytes that are still to come: split off the header,
decode it, and take the body. Reads deliver the bytes in portions of any size. */
module Requests {
  import opened Octets
  import opened Lines
  import opened Numerals
  import opened Query
  import opened Streams

  const BUFSIZE := 8192
  const REQUEST_BUFFER_LEN := 512

  const METHODS: set<bytes> := {
    "GET", "PUT", "POST", "DELETE", "HEAD", "OPTIONS", "TRACE", "CONNECT", "PATCH", "PROPFIND", "PROPPATCH",
    "MKCOL", "MOVE", "COPY", "LOCK", "UNLOCK"
  }

  // ---- decoding a header

  /** The default delimiters of StringTokenizer: space, tab, LF, CR and form feed. */
  predicate IsDelimiter(c: byte) {
    c == ' ' || c == '\t' || c == '\n' || c == '\r' || c as int == 12
  }

  function SkipDelimiters(s: bytes, p: nat): (q: nat)
    requires p <= |s|
    ensures p <= q <= |s|
    decreases |s| - p
  {
    if p < |s| && IsDelimiter(s[p]) then SkipDelimiters(s, p + 1) else p
  }

  function TokenEnd(s: bytes, p: nat): (q: nat)
    requires p <= |s|
    ensures p <= q <= |s|
    decreases |s| - p
  {
    if p < |s| && !IsDelimiter(s[p]) then TokenEnd(s, p + 1) else p
  }

  /** hasMoreTokens and nextToken: the token and the index after it. */
  function NextToken(s: bytes, p: nat): (t: Option<(bytes, nat)>)
    requires p <= |s|
    ensures t.Some? ==> t.value.1 <= |s|
  {
    var q := SkipDelimiters(s, p);
    if q == |s| then None else Some((s[q..TokenEnd(s, q)], TokenEnd(s, q)))
  }

  datatype Decoded =
    | NoInput
    | BadRequest
    | Request(verb: bytes, target: bytes, version: bytes, headers: map<bytes, bytes>)

  function AddField(headers: map<bytes, bytes>, line: bytes): map<bytes, bytes> {
    var colon := IndexFrom(line, ':', 0);
    if colon == |line| then headers
    else headers[Lower(Trim(line[..colon])) := Trim(line[colon + 1..])]
  }

  function FieldsFrom(headers: map<bytes, bytes>, lines: seq<bytes>): map<bytes, bytes>
    decreases |lines|
  {
    if lines == [] then headers else FieldsFrom(AddField(headers, lines[0]), lines[1..])
  }

  /** The header map: a later field of the same name replaces an earlier one. */
  function Fields(lines: seq<bytes>): map<bytes, bytes> {
    FieldsFrom(map[], lines)
  }

  function RequestLine(line: bytes, headers: map<bytes, bytes>): Decoded {
    match NextToken(line, 0)
    case None => BadRequest
    case Some((verb, p)) =>
      match NextToken(line, p)
      case None => BadRequest
      case Some((target, q)) =>
        match NextToken(line, q)
        case None => Request(verb, target, "HTTP/1.1", headers)
        case Some((version, _)) => Request(verb, target, version, headers)
  }

  function DecodeHeader(s: bytes): Decoded {
    if s == [] then NoInput
    else
      var q := LineEnd(s, 0);
      RequestLine(s[..q], Fields(ReadBlock(s, NextLine(s, q)).lines))
  }

  /** "(?i).*close.*" on a header value. */
  function KeepAlive(version: bytes, headers: map<bytes, bytes>): bool {
    version == "HTTP/1.1" && !("connection" in headers && Contains(Lower(headers["connection"]), "close"))
  }

  // ---- the target

  /** The path and the query parameters of a target. */
  type Location = (bytes, map<bytes, bytes>)

  function Located(decode: Percent, path: bytes, parms: Option<map<bytes, bytes>>): Option<Location> {
    match parms
    case None => None
    case Some(p) => match decode(path) case None => None case Some(uri) => Some((uri, p))
  }

  /** The parameters come from behind the first question mark; None is the exception of malformed
  percent-coding. */
  function Locate(decode: Percent, target: bytes): Option<Location> {
    var q := IndexFrom(target, '?', 0);
    Located(decode, target[..q], ParmsBehind(decode, target, q))
  }

  function ParmsBehind(decode: Percent, target: bytes, q: nat): Option<map<bytes, bytes>> {
    if q < |target| then AllSingle(decode, map[], Tokens(target[q + 1..])) else Some(map[])
  }

  /** What a server knows: its verbs, and where a target leads. */
  datatype Server = Server(methods: set<bytes>, locate: bytes -> Option<Location>)

  function HttpServer(methods: set<bytes>, decode: Percent): Server {
    Server(methods, target => Locate(decode, target))
  }

  /** The server gets as far as calling the handler. */
  predicate Accepted(server: Server, d: Decoded) {
    d.Request? && server.locate(d.target).Some? && d.verb in server.methods
  }

  /** What the handler sees. */
  datatype View = View(request: Decoded, location: Option<Location>, body: bytes)

  function ViewOf(server: Server, d: Decoded, body: bytes): View {
    View(d, if d.Request? then server.locate(d.target) else None, body)
  }

  // ---- reading with an arbitrary schedule

  function Window(s: bytes): (cap: nat)
    ensures cap <= |s| && cap <= BUFSIZE
  {
    Min(BUFSIZE, |s|)
  }

  /** How many bytes are in the buffer when the accumulation loop ends: the header of the cap bytes that fit
  ends at e (0 if it does not), r bytes are there, and the k-th read comes next. */
  function Arrived(cap: nat, e: nat, schedule: nat -> nat, k: nat, r: nat): (rlen: nat)
    requires e <= cap && r <= cap
    ensures r <= rlen <= cap && (if e == 0 then rlen == cap else e <= rlen)
    decreases cap - r
  {
    if r == cap || 0 < e <= r then r
    else Arrived(cap, e, schedule, k + 1, r + Grant(schedule(k), cap - r))
  }

  lemma ArrivedStep(cap: nat, e: nat, schedule: nat -> nat, k: nat, r: nat, n: nat)
    requires e <= cap && r < cap && (e == 0 || r < e) && n == Grant(schedule(k), cap - r)
    ensures Arrived(cap, e, schedule, k, r) == Arrived(cap, e, schedule, k + 1, r + n)
    ensures ArrivedBy(cap, e, schedule, k, r) == ArrivedBy(cap, e, schedule, k + 1, r + n)
  {
  }

  /** The read that comes next when the accumulation loop ends. */
  function ArrivedBy(cap: nat, e: nat, schedule: nat -> nat, k: nat, r: nat): nat
    requires e <= cap && r <= cap
    decreases cap - r
  {
    if r == cap || 0 < e <= r then k
    else ArrivedBy(cap, e, schedule, k + 1, r + Grant(schedule(k), cap - r))
  }

  /** The read that comes next when size bytes of a body, or the avail bytes there are, have been read. */
  function BodyReadBy(avail: nat, size: int, schedule: nat -> nat, k: nat): nat
    decreases avail
  {
    if size <= 0 || avail == 0 then k
    else
      var n := Grant(schedule(k), Min(Min(size, REQUEST_BUFFER_LEN), avail));
      BodyReadBy(avail - n, size - n, schedule, k + 1)
  }

  lemma BodyReadStep(avail: nat, size: int, schedule: nat -> nat, k: nat, n: nat)
    requires size > 0 && avail > 0 && n == Grant(schedule(k), Min(Min(size, REQUEST_BUFFER_LEN), avail))
    ensures n <= avail && BodyReadBy(avail, size, schedule, k) == BodyReadBy(avail - n, size - n, schedule, k + 1)
  {
  }

  /** getBodySize; None is a content-length that is not a number. */
  function BodySize(headers: map<bytes, bytes>, splitbyte: nat, rlen: nat): Option<int> {
    if "content-length" in headers then ParseLong(headers["content-length"])
    else if splitbyte < rlen then Some(rlen - splitbyte)
    else Some(0)
  }

  /** parseBody: the declared number of bytes, or as many of them as come. */
  function Body(s: bytes, splitbyte: nat, size: int): bytes
    requires splitbyte <= |s|
  {
    s[splitbyte..splitbyte + (if size <= 0 then 0 else Min(size, |s| - splitbyte))]
  }

  datatype Outcome =
    | Shutdown
    | Rejected
    | Malformed
    | BadLength
    | Served(view: View, open: bool, consumed: nat)

  function ServeDecoded(server: Server, s: bytes, splitbyte: nat, rlen: nat, d: Decoded): Outcome
    requires splitbyte <= |s|
  {
    if !d.Request? then Rejected
    else if server.locate(d.target) == None then Malformed
    else if d.verb !in server.methods then Rejected
    else
      match BodySize(d.headers, splitbyte, rlen)
      case None => BadLength
      case Some(size) =>
        var body := Body(s, splitbyte, size);
        Served(ViewOf(server, d, body), KeepAlive(d.version, d.headers), splitbyte + |body|)
  }

  /** The pass once rlen bytes are buffered; the server is what it is to be served by. */
  function Serve(server: Server, s: bytes, rlen: nat): Outcome
    requires rlen <= |s|
  {
    HeaderEndMeaning(s[..rlen]);
    ServeDecoded(server, s, HeaderEnd(s[..rlen]), rlen, DecodeHeader(s[..rlen]))
  }

  /** One pass of execute() with a handler that calls parseBody and keeps the connection: s is all that the
  peer still sends, k the number of reads made so far. */
  function Exchange(server: Server, s: bytes, schedule: nat -> nat, k: nat): Outcome {
    if s == [] then Shutdown
    else
      HeaderEndMeaning(s[..Window(s)]);
      Serve(server, s, Arrived(Window(s), HeaderEnd(s[..Window(s)]), schedule, k, 0))
  }

  /** The read that comes next when parseBody has read the body that the headers announce. */
  function ParsedBy(headers: map<bytes, bytes>, splitbyte: nat, rlen: nat, avail: nat, schedule: nat -> nat, k: nat)
      : nat
  {
    match BodySize(headers, splitbyte, rlen) case None => k case Some(size) => BodyReadBy(avail, size, schedule, k)
  }

  /** The same for a decoded header. */
  function ServedBy(s: bytes, splitbyte: nat, rlen: nat, d: Decoded, schedule: nat -> nat, k: nat): nat
    requires splitbyte <= |s|
  {
    if d.Request? then ParsedBy(d.headers, splitbyte, rlen, |s| - splitbyte, schedule, k) else k
  }

  /** The read that comes next after a pass that serves a request. */
  function NextRead(s: bytes, schedule: nat -> nat, k: nat): nat {
    HeaderEndMeaning(s[..Window(s)]);
    var e := HeaderEnd(s[..Window(s)]);
    var rlen := Arrived(Window(s), e, schedule, k, 0);
    ServedBy(s, e, rlen, DecodeHeader(s[..rlen]), schedule, ArrivedBy(Window(s), e, schedule, k, 0))
  }
}

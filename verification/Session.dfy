/** The session object: the server that read requests from the input stream of a connection. */
module Session {
  import opened Octets
  import opened Lines
  import opened Requests
  import opened Framing
  import opened Numerals
  import opened Query
  import opened Streams

  lemma SliceExtends(data: bytes, start: nat, r: nat, n: nat)
    requires start + r + n <= |data|
    ensures data[start..][..r + n] == data[start..][..r] + data[start + r..start + r + n]
  {
  }

  lemma SliceJoins(data: bytes, i: nat, j: nat, k: nat)
    requires i <= j <= k <= |data|
    ensures data[i..j] + data[j..k] == data[i..k]
  {
  }

  lemma TailOfTail(data: bytes, start: nat, n: nat)
    requires start + n <= |data|
    ensures data[start..][n..] == data[start + n..]
  {
  }

  lemma BodyInStream(data: bytes, start: nat, s: bytes, splitbyte: nat, pos: nat, size: int)
    requires start <= |data| && s == data[start..] && pos == start + splitbyte <= |data|
    ensures Body(data, pos, size) == Body(s, splitbyte, size)
  {
  }

  /** The request is served with its body, unless its length is not a number. */
  predicate Handled(outcome: Outcome, s: bytes, splitbyte: nat, rlen: nat, d: Decoded, location: Option<Location>)
    requires d.Request? && splitbyte <= |s|
  {
    match BodySize(d.headers, splitbyte, rlen)
    case None => outcome == BadLength
    case Some(size) =>
      var body := Body(s, splitbyte, size);
      outcome == Served(View(d, location, body), KeepAlive(d.version, d.headers), splitbyte + |body|)
  }

  lemma ServeAccepted(server: Server, s: bytes, splitbyte: nat, rlen: nat, d: Decoded)
    requires splitbyte <= |s| && Accepted(server, d)
    ensures Handled(ServeDecoded(server, s, splitbyte, rlen, d), s, splitbyte, rlen, d, server.locate(d.target))
  {
  }

  lemma ServeRefused(server: Server, s: bytes, splitbyte: nat, rlen: nat, d: Decoded)
    requires splitbyte <= |s| && !Accepted(server, d)
    ensures ServeDecoded(server, s, splitbyte, rlen, d)
         == if d.Request? && server.locate(d.target) == None then Malformed else Rejected
  {
  }

  /** The accumulation loop: r bytes have been looked at without finding the header end e. If the k-th read brought
  n more bytes then the loop will end with goal bytes, before the read last, and otherwise it ends here. */
  predicate Coming(cap: nat, e: nat, f: nat -> nat, goal: nat, last: nat, k: nat, r: nat, n: int)
    requires e <= cap
  {
    if n > 0 then
      && r < cap && n == Grant(f(k), cap - r) && (e == 0 || r < e)
      && Arrived(cap, e, f, k, r) == goal && ArrivedBy(cap, e, f, k, r) == last
    else 0 < r == cap == goal && e == 0 && last == k
  }

  /** Another turn: if it does not find the header end then the next read brings what it must. */
  lemma ComingStep(cap: nat, e: nat, f: nat -> nat, goal: nat, last: nat, k: nat, r: nat, n: nat, m: int)
    requires e <= cap && n > 0 && Coming(cap, e, f, goal, last, k, r, n) && r + n <= cap && (e == 0 || r + n < e)
    requires if r + n < cap then m == Grant(f(k + 1), cap - (r + n)) else m <= 0
    ensures Coming(cap, e, f, goal, last, k + 1, r + n, m)
  {
    ArrivedStep(cap, e, f, k, r, n);
  }

  lemma ComingFound(cap: nat, e: nat, f: nat -> nat, goal: nat, last: nat, k: nat, r: nat, n: nat)
    requires e <= cap && n > 0 && Coming(cap, e, f, goal, last, k, r, n) && r + n <= cap && 0 < e <= r + n
    ensures r + n == goal && last == k + 1
  {
    ArrivedStep(cap, e, f, k, r, n);
  }

  class HttpSession {
    const input: BufferedInput
    const decode: Percent
    const methods: set<bytes>
    const server: Server := HttpServer(methods, decode)
    var splitbyte: nat
    var rlen: int
    var verb: bytes
    var target: bytes
    var protocolVersion: bytes
    var headers: map<bytes, bytes>
    var uri: bytes
    var parms: map<bytes, bytes>

    constructor (input: BufferedInput, decode: Percent)
      ensures this.input == input && this.decode == decode && methods == METHODS
    {
      this.input, this.decode, methods := input, decode, METHODS;
    }

    static method FindHeaderEnd(buf: array<byte>, rlen: nat) returns (e: nat)
      requires rlen <= buf.Length
      ensures e == HeaderEnd(buf[..rlen])
    {
      ghost var s := buf[..rlen];
      var i := 0;
      while i + 1 < rlen
        invariant HeaderEnd(s) == HeaderEndFrom(s, i)
      {
        if buf[i] == '\r' && buf[i + 1] == '\n' && i + 3 < rlen && buf[i + 2] == '\r' && buf[i + 3] == '\n' {
          return i + 4;
        }
        if buf[i] == '\n' && buf[i + 1] == '\n' {
          return i + 2;
        }
        i := i + 1;
      }
      return 0;
    }

    /** The request line; false is BAD REQUEST. */
    method ReadRequestLine(line: bytes) returns (ok: bool)
      modifies this`verb, this`target, this`protocolVersion
      ensures forall h :: RequestLine(line, h)
                       == if ok then Request(verb, target, protocolVersion, h) else BadRequest
    {
      var t := NextToken(line, 0);
      if t == None {
        return false;
      }
      verb := t.value.0;
      t := NextToken(line, t.value.1);
      if t == None {
        return false;
      }
      target := t.value.0;
      t := NextToken(line, t.value.1);
      protocolVersion := if t == None then "HTTP/1.1" else t.value.0;
      return true;
    }

    /** The header fields: one per line up to the first blank line or the end of the buffer. */
    method ReadFields(s: bytes, start: nat)
      requires start <= |s|
      modifies this`headers
      ensures headers == Fields(ReadBlock(s, start).lines)
    {
      headers := map[];
      var p := start;
      while p < |s| && !Blank(s[p..LineEnd(s, p)])
        invariant start <= p <= |s|
        invariant Fields(ReadBlock(s, start).lines) == FieldsFrom(headers, ReadBlock(s, p).lines)
        decreases |s| - p
      {
        ReadBlockLine(s, p);
        var q := LineEnd(s, p);
        var line := s[p..q];
        var colon := IndexFrom(line, ':', 0);
        if colon < |line| {
          headers := headers[Lower(Trim(line[..colon])) := Trim(line[colon + 1..])];
        }
        p := NextLine(s, q);
      }
    }

    lemma ServerLocates()
      ensures server.locate(target) == Locate(decode, target)
    {
    }

    /** The parameters behind the question mark, and the path before it; false is malformed percent-coding. */
    method DecodeTarget() returns (ok: bool)
      modifies this`uri, this`parms
      ensures server.locate(target) == if ok then Some((uri, parms)) else None
    {
      ServerLocates();
      var q := IndexFrom(target, '?', 0);
      var found := FindParms(q);
      ok := SetLocation(target[..q], found);
    }

    method FindParms(q: nat) returns (found: Option<map<bytes, bytes>>)
      modifies this`parms
      ensures found == ParmsBehind(decode, target, q)
    {
      parms := map[];
      found := Some(parms);
      if q < |target| {
        found := DecodeParms(decode, target[q + 1..], parms);
      }
    }

    method SetLocation(path: bytes, found: Option<map<bytes, bytes>>) returns (ok: bool)
      modifies this`uri, this`parms
      ensures Located(decode, path, found) == if ok then Some((uri, parms)) else None
    {
      if found == None {
        return false;
      }
      parms := found.value;
      var decoded := decode(path);
      if decoded == None {
        return false;
      }
      uri := decoded.value;
      return true;
    }

    /** Decodes what is buffered into the fields of the session: the request, and then its target. */
    method DecodeBuffer(s: bytes) returns (ok: bool, malformed: bool)
      requires s != []
      modifies this`verb, this`target, this`protocolVersion, this`headers, this`uri, this`parms
      ensures ok || malformed ==> DecodeHeader(s).Request? && DecodeHeader(s).target == target
      ensures ok ==> DecodeHeader(s) == Request(verb, target, protocolVersion, headers)
      ensures ok ==> server.locate(target) == Some((uri, parms))
      ensures malformed ==> server.locate(target) == None
      ensures !ok && !malformed ==> DecodeHeader(s) == BadRequest
    {
      headers, parms := map[], map[];
      var q := LineEnd(s, 0);
      malformed := false;
      ok := ReadRequestLine(s[..q]);
      if ok {
        ok := DecodeTarget();
        malformed := !ok;
        if ok {
          ReadFields(s, NextLine(s, q));
        }
      }
    }

    method GetBodySize() returns (size: Option<int>)
      requires 0 <= rlen
      ensures size == BodySize(headers, splitbyte, rlen)
    {
      if "content-length" in headers {
        return ParseLong(headers["content-length"]);
      } else if splitbyte < rlen {
        return Some(rlen - splitbyte);
      }
      return Some(0);
    }

    /** Reads the whole body, whatever the read sizes, and nothing after it; last is the read that then comes next. */
    method ParseBody(ghost last: nat) returns (body: Option<bytes>)
      requires input.Valid() && 0 <= rlen
      requires last == ParsedBy(headers, splitbyte, rlen, |input.data| - input.pos, input.schedule, input.readCount)
      modifies this`rlen, input`pos, input`readCount, input`buffered
      ensures input.Valid() && input.markPos == old(input.markPos)
      ensures body.Some? == BodySize(headers, splitbyte, old(rlen)).Some?
      ensures body.Some? ==>
                && body.value == Body(input.data, old(input.pos), BodySize(headers, splitbyte, old(rlen)).value)
                && input.pos == old(input.pos) + |body.value|
                && input.readCount == last
      ensures body == None ==> input.pos == old(input.pos)
    {
      var total := GetBodySize();
      if total == None {
        return None;
      }
      var out := ReadBody(total.value);
      return Some(out);
    }

    /** The loop that reads the body, size bytes or as many as come. */
    method ReadBody(total: int) returns (out: bytes)
      requires input.Valid() && 0 <= rlen
      modifies this`rlen, input`pos, input`readCount, input`buffered
      ensures input.Valid() && input.markPos == old(input.markPos)
      ensures out == Body(input.data, old(input.pos), total) && input.pos == old(input.pos) + |out|
      ensures input.readCount
           == BodyReadBy(|input.data| - old(input.pos), total, input.schedule, old(input.readCount))
    {
      var size := total;
      var buf := new byte[REQUEST_BUFFER_LEN];
      ghost var start := input.pos;
      ghost var last := BodyReadBy(|input.data| - start, size, input.schedule, input.readCount);
      out := [];
      while rlen >= 0 && size > 0
        invariant input.Valid() && input.markPos == old(input.markPos)
        invariant start <= input.pos && out == input.data[start..input.pos]
        invariant rlen >= 0 ==> size == total - |out| && (total > 0 ==> size >= 0)
        invariant total <= 0 ==> out == []
        invariant rlen < 0 ==> input.pos == |input.data| && |out| < total
        invariant BodyReadBy(|input.data| - input.pos, size, input.schedule, input.readCount) == last
        decreases rlen >= 0, |input.data| - input.pos
      {
        ghost var before := input.pos;
        var n := ReadPiece(buf, size);
        size := size - n;
        if n > 0 {
          SliceJoins(input.data, start, before, input.pos);
          out := out + buf[..n];
        }
        rlen := n;
      }
    }

    method ReadPiece(buf: array<byte>, size: int) returns (n: int)
      requires input.Valid() && buf.Length == REQUEST_BUFFER_LEN && size > 0
      modifies input`pos, input`readCount, input`buffered, buf
      ensures input.Valid() && input.markPos == old(input.markPos)
      ensures if old(input.pos) == |input.data| then n == -1 && input.pos == old(input.pos)
              else 0 < n <= size && n <= buf.Length && input.pos == old(input.pos) + n
                   && buf[..n] == input.data[old(input.pos)..input.pos]
      ensures BodyReadBy(|input.data| - input.pos, size - n, input.schedule, input.readCount)
           == BodyReadBy(|input.data| - old(input.pos), size, input.schedule, old(input.readCount))
    {
      ghost var before, k := input.pos, input.readCount;
      n := input.Read(buf, 0, Min(size, REQUEST_BUFFER_LEN));
      if n > 0 {
        assert buf[..n] == input.data[before..input.pos];
        BodyReadStep(|input.data| - before, size, input.schedule, k, n);
      }
    }

    /** The state of the accumulation loop: rlen bytes have been looked at, n more are in the buffer. */
    ghost predicate Accumulating(buf: array<byte>, s: bytes, n: int)
      reads this`rlen, input, buf
    {
      && input.Valid() && buf.Length == BUFSIZE && 0 <= input.markPos && s == input.data[input.markPos..]
      && 0 <= rlen && -1 <= n && rlen + Got(n) <= Window(s)
      && input.pos == input.markPos + rlen + Got(n)
      && forall i :: 0 <= i < rlen + Got(n) ==> buf[i] == s[i]
    }

    /** Accumulates bytes until a header end is in the buffer or the buffer is full or the stream is at its
    end; first is what the first read delivered, e the header end, and goal and last what the schedule determines:
    how many bytes there are then, and which read comes next. */
    method Accumulate(
        buf: array<byte>, first: nat, ghost s: bytes, ghost e: nat, ghost k0: nat, ghost goal: nat, ghost last: nat)
      requires rlen == 0 && splitbyte == 0 && Accumulating(buf, s, first) && s != []
      requires e == HeaderEnd(s[..Window(s)]) <= Window(s)
      requires Coming(Window(s), e, input.schedule, goal, last, k0, 0, first) && input.readCount == k0 + 1
      modifies this`splitbyte, this`rlen, input`pos, input`readCount, input`buffered, buf
      ensures Accumulating(buf, s, 0) && input.markPos == old(input.markPos)
      ensures 0 < rlen == goal && splitbyte == e && input.readCount == last
    {
      ghost var k := k0;
      var n: int := first;
      while n > 0
        invariant Accumulating(buf, s, n) && input.markPos == old(input.markPos) && splitbyte == 0
        invariant Coming(Window(s), e, input.schedule, goal, last, k, rlen, n)
        invariant input.readCount == if n > 0 then k + 1 else k
        decreases Window(s) - rlen, n
      {
        ghost var r, came := rlen, n;
        Look(buf, n, s, e, goal, last, k);
        if splitbyte > 0 {
          break;
        }
        n := ReadOn(buf, s, e, goal, last, k, r, came);
        k := k + 1;
      }
    }

    /** Looks for the header end among what was there and the n bytes that came. */
    method Look(buf: array<byte>, n: nat, ghost s: bytes, ghost e: nat, ghost goal: nat, ghost last: nat, ghost k: nat)
      requires Accumulating(buf, s, n) && n > 0 && e == HeaderEnd(s[..Window(s)]) <= Window(s)
      requires Coming(Window(s), e, input.schedule, goal, last, k, rlen, n)
      modifies this`rlen, this`splitbyte
      ensures Accumulating(buf, s, 0) && rlen == old(rlen) + n
      ensures splitbyte == (if e <= rlen then e else 0) && (splitbyte > 0 ==> rlen == goal && last == k + 1)
    {
      if 0 < e <= rlen + n {
        ComingFound(Window(s), e, input.schedule, goal, last, k, rlen, n);
      }
      rlen := rlen + n;
      HeaderEndOfPrefix(s[..Window(s)], rlen);
      assert s[..Window(s)][..rlen] == s[..rlen] == buf[..rlen];
      splitbyte := FindHeaderEnd(buf, rlen);
    }

    /** The next read, after r bytes and the ones that came were looked at. */
    method ReadOn(buf: array<byte>, ghost s: bytes, ghost e: nat, ghost goal: nat, ghost last: nat, ghost k: nat,
                  ghost r: nat, ghost came: nat) returns (n: int)
      requires Accumulating(buf, s, 0) && came > 0 && rlen == r + came && input.readCount == k + 1
      requires e <= Window(s) && Coming(Window(s), e, input.schedule, goal, last, k, r, came) && (e == 0 || rlen < e)
      modifies input`pos, input`readCount, input`buffered, buf
      ensures Accumulating(buf, s, n) && input.markPos == old(input.markPos)
      ensures Coming(Window(s), e, input.schedule, goal, last, k + 1, rlen, n)
      ensures input.readCount == if n > 0 then k + 2 else k + 1
    {
      n := ReadMore(buf, s);
      ComingStep(Window(s), e, input.schedule, goal, last, k, r, came, n);
    }

    method ReadMore(buf: array<byte>, ghost s: bytes) returns (n: int)
      requires Accumulating(buf, s, 0)
      modifies input`pos, input`readCount, input`buffered, buf
      ensures Accumulating(buf, s, n) && input.markPos == old(input.markPos)
      ensures if rlen < Window(s)
              then n == Grant(input.schedule(old(input.readCount)), Window(s) - rlen)
                   && input.readCount == old(input.readCount) + 1
              else n <= 0 && input.readCount == old(input.readCount)
    {
      n := input.Read(buf, rlen, BUFSIZE - rlen);
      SliceExtends(input.data, input.markPos, rlen, Got(n));
    }

    /** Goes back to the byte after the header, decodes the header and serves the request with a handler
    that calls ParseBody; last is the read that comes next if it is served. */
    method ServeBuffered(buf: array<byte>, ghost s: bytes, ghost last: nat) returns (r: Outcome)
      requires Accumulating(buf, s, 0) && 0 < rlen && input.markLimit == BUFSIZE
      requires splitbyte == HeaderEnd(s[..rlen]) <= rlen
      requires last == ServedBy(s, splitbyte, rlen, DecodeHeader(s[..rlen]), input.schedule, input.readCount)
      modifies this, input`pos, input`readCount, input`buffered
      ensures input.Valid()
      ensures r == Serve(server, s, old(rlen))
      ensures r.Served? ==> input.pos == input.markPos + r.consumed && input.readCount == last
    {
      ghost var d := DecodeHeader(s[..rlen]);
      assert buf[..rlen] == s[..rlen];
      Rewind(buf, s);
      var ok, malformed := DecodeBuffer(buf[..rlen]);
      r := ServeRequest(ok, malformed, s, d, last);
    }

    /** What becomes of a decoded header. */
    method ServeRequest(ok: bool, malformed: bool, ghost s: bytes, ghost d: Decoded, ghost last: nat)
      returns (r: Outcome)
      requires input.Valid() && 0 <= input.markPos && input.pos == input.markPos + splitbyte
      requires 0 <= rlen && s == input.data[input.markPos..]
      requires ok ==>
        d == Request(verb, target, protocolVersion, headers) && server.locate(target) == Some((uri, parms))
      requires malformed ==> !ok && d.Request? && server.locate(d.target) == None
      requires !ok && !malformed ==> d == BadRequest
      requires last == ServedBy(s, splitbyte, rlen, d, input.schedule, input.readCount)
      modifies this`rlen, input`pos, input`readCount, input`buffered
      ensures input.Valid() && input.markPos == old(input.markPos)
      ensures r == ServeDecoded(server, s, splitbyte, old(rlen), d)
      ensures r.Served? ==> input.pos == input.markPos + r.consumed && input.readCount == last
    {
      ghost var outcome := ServeDecoded(server, s, splitbyte, rlen, d);
      if Accepted(server, d) {
        ServeAccepted(server, s, splitbyte, rlen, d);
      } else {
        ServeRefused(server, s, splitbyte, rlen, d);
      }
      if malformed {
        return Malformed;
      }
      if !ok || verb !in server.methods {
        return Rejected;
      }
      r := Handle(s, d, outcome, last);
    }

    method Rewind(buf: array<byte>, ghost s: bytes)
      requires Accumulating(buf, s, 0) && splitbyte <= rlen && input.markLimit == BUFSIZE
      modifies input`pos
      ensures input.Valid() && input.pos == input.markPos + splitbyte
    {
      if splitbyte < rlen {
        input.Reset();
        var skipped := input.Skip(splitbyte);
      }
    }

    /** The handler: it parses the body and keeps the connection as the client asked. */
    method Handle(ghost s: bytes, ghost d: Decoded, ghost outcome: Outcome, ghost last: nat) returns (r: Outcome)
      requires input.Valid() && 0 <= input.markPos && input.pos == input.markPos + splitbyte
      requires 0 <= rlen && s == input.data[input.markPos..]
      requires d == Request(verb, target, protocolVersion, headers)
      requires Handled(outcome, s, splitbyte, rlen, d, Some((uri, parms)))
      requires last == ParsedBy(headers, splitbyte, rlen, |input.data| - input.pos, input.schedule, input.readCount)
      modifies this`rlen, input`pos, input`readCount, input`buffered
      ensures input.Valid() && input.markPos == old(input.markPos)
      ensures r == outcome
      ensures r.Served? ==> input.pos == input.markPos + r.consumed && input.readCount == last
    {
      ghost var size, pos := BodySize(headers, splitbyte, rlen), input.pos;
      var keepAlive := KeepAlive(protocolVersion, headers);
      var body := ParseBody(last);
      if body == None {
        return BadLength;
      }
      BodyInStream(input.data, input.markPos, s, splitbyte, pos, size.value);
      r := Served(View(Request(verb, target, protocolVersion, headers), Some((uri, parms)), body.value),
                  keepAlive, splitbyte + |body.value|);
    }

    /** Marks the start of the request; -1 when the peer has closed the connection. */
    method FirstRead(buf: array<byte>, ghost s: bytes) returns (n: int)
      requires input.Valid() && buf.Length == BUFSIZE && s == input.data[input.pos..] && rlen == 0
      modifies input, buf
      ensures input.Valid() && (n == -1 <==> s == []) && (s == [] ==> input.pos == old(input.pos))
      ensures s != [] ==>
                && Accumulating(buf, s, n) && input.markPos == old(input.pos) && input.markLimit == BUFSIZE
                && n == Grant(input.schedule(old(input.readCount)), Window(s))
                && input.readCount == old(input.readCount) + 1
    {
      input.Mark(BUFSIZE);
      n := input.Read(buf, 0, BUFSIZE);
      if n != -1 {
        SliceExtends(input.data, input.markPos, 0, n);
        assert buf[..n] == s[..n];
      }
    }

    /** Marks the start of the request and reads until a header end is in the buffer; false when the peer has
    closed the connection. */
    method ReadHeader(buf: array<byte>, ghost s: bytes) returns (open: bool)
      requires input.Valid() && buf.Length == BUFSIZE && s == input.data[input.pos..]
      modifies this`splitbyte, this`rlen, input, buf
      ensures input.Valid() && open == (s != [])
      ensures !open ==> input.pos == old(input.pos)
      ensures open ==>
                && Accumulating(buf, s, 0) && input.markPos == old(input.pos) && input.markLimit == BUFSIZE
                && HeaderEnd(s[..Window(s)]) <= Window(s)
                && rlen == Arrived(Window(s), HeaderEnd(s[..Window(s)]), input.schedule, old(input.readCount), 0)
                && 0 < rlen && splitbyte == HeaderEnd(s[..rlen]) == HeaderEnd(s[..Window(s)])
                && input.readCount
                   == ArrivedBy(Window(s), HeaderEnd(s[..Window(s)]), input.schedule, old(input.readCount), 0)
    {
      splitbyte, rlen := 0, 0;
      var n := FirstRead(buf, s);
      if n == -1 {
        return false;
      }
      ghost var e, k0 := HeaderEnd(s[..Window(s)]), input.readCount - 1;
      ArrivedFindsHeaderEnd(s, input.schedule, k0);
      Accumulate(buf, n, s, e, k0, Arrived(Window(s), e, input.schedule, k0, 0),
                 ArrivedBy(Window(s), e, input.schedule, k0, 0));
      return true;
    }

    /** One request: accumulate until a header end is in the buffer, then serve. */
    method Execute() returns (r: Outcome)
      requires input.Valid()
      modifies this, input
      ensures input.Valid()
      ensures r == Exchange(server, input.data[old(input.pos)..], input.schedule, old(input.readCount))
      ensures r.Served? ==> input.pos == old(input.pos) + r.consumed
      ensures r.Served? ==>
        input.readCount == NextRead(input.data[old(input.pos)..], input.schedule, old(input.readCount))
      ensures r.Shutdown? ==> input.pos == old(input.pos)
    {
      var buf := new byte[BUFSIZE];
      ghost var s, k := input.data[input.pos..], input.readCount;
      var open := ReadHeader(buf, s);
      if !open {
        return Shutdown;
      }
      r := ServeBuffered(buf, s, NextRead(s, input.schedule, k));
    }

    method ExecuteNext(ghost msgs: seq<Message>, ghost done: nat, ghost rest: bytes, ghost log: seq<View>)
      returns (r: Outcome)
      requires input.Valid() && Framed(msgs, rest)
      requires OnTrack(server, msgs, rest, done, true, log, input.data[input.pos..])
      requires Delivered(server, msgs[done..], rest, input.schedule, input.readCount)
      modifies this, input
      ensures input.Valid()
      ensures if done == |msgs| then r.Shutdown? && input.data[input.pos..] == []
              else r.Served? && OnTrack(server, msgs, rest, done + 1, r.open, log + [r.view], input.data[input.pos..])
                   && Delivered(server, msgs[done + 1..], rest, input.schedule, input.readCount)
    {
      ghost var pos, k := input.pos, input.readCount;
      r := Execute();
      NextServed(server, msgs, done, rest, log, input.data, pos, input.pos, input.schedule, k, r);
    }

    /** The keep-alive loop of the connection. On a stream of requests that the reads deliver one by one, of which
    only the last may ask to close, the handlers see exactly those requests, in order, and what follows is left in
    the stream; msgs is the stream's framing. */
    method Run(ghost msgs: seq<Message>, ghost rest: bytes) returns (log: seq<View>)
      requires input.Valid() && input.data[input.pos..] == Stream(msgs) + rest
      requires Framed(msgs, rest) && Delivered(server, msgs, rest, input.schedule, input.readCount)
      modifies this, input
      ensures log == Log(server, msgs) && input.pos <= |input.data| && input.data[input.pos..] == rest
    {
      log := [];
      var open := true;
      ghost var done := 0;
      assert msgs[0..] == msgs;
      while open
        invariant input.Valid() && done <= |msgs|
        invariant OnTrack(server, msgs, rest, done, open, log, input.data[input.pos..])
        invariant open ==> Delivered(server, msgs[done..], rest, input.schedule, input.readCount)
        decreases open, |msgs| - done
      {
        var r := ExecuteNext(msgs, done, rest, log);
        if r.Served? {
          log := log + [r.view];
          open := r.open;
          done := done + 1;
        } else {
          open := false;
        }
      }
      assert msgs[..done] == msgs;
    }
  }

  /** All requests but the last keep the connection open; bytes may follow only a request that closes. */
  predicate Framed(msgs: seq<Message>, rest: bytes) {
    && (forall i :: 0 <= i < |msgs| - 1 ==> KeepsOpen(msgs[i]))
    && (rest == [] || (msgs != [] && !KeepsOpen(msgs[|msgs| - 1])))
  }

  /** The handlers have seen the first requests, the others are left in the stream, and the connection is closed
  only behind the last one. */
  predicate OnTrack(
      server: Server, msgs: seq<Message>, rest: bytes, done: nat, open: bool, log: seq<View>, left: bytes)
  {
    && done <= |msgs| && log == Log(server, msgs[..done]) && left == Stream(msgs[done..]) + rest
    && (if open then done < |msgs| || rest == [] else done == |msgs|)
  }

  /** The next pass over a framed stream: it serves the next request and leaves the stream after it, or finds that
  the peer has closed the connection behind the last one. */
  lemma NextInStream(server: Server, msgs: seq<Message>, done: nat, rest: bytes, log: seq<View>, left: bytes,
                     schedule: nat -> nat, k: nat)
    requires Framed(msgs, rest) && OnTrack(server, msgs, rest, done, true, log, left)
    requires Delivered(server, msgs[done..], rest, schedule, k)
    ensures var r := Exchange(server, left, schedule, k);
            if done == |msgs| then r == Shutdown && left == []
            else r.Served? && r.consumed <= |left|
                 && OnTrack(server, msgs, rest, done + 1, r.open, log + [r.view], left[r.consumed..])
                 && Delivered(server, msgs[done + 1..], rest, schedule, NextRead(left, schedule, k))
  {
    if done < |msgs| {
      var m, after := msgs[done], Stream(msgs[done + 1..]) + rest;
      assert msgs[done..][0] == m && msgs[done..][1..] == msgs[done + 1..];
      StreamStep(server, msgs, done);
      Pieces(m.head + m.body, Stream(msgs[done + 1..]), rest);
      ExchangeDelimited(server, m, after, schedule, k);
    }
  }

  lemma NextServed(server: Server, msgs: seq<Message>, done: nat, rest: bytes, log: seq<View>, data: bytes, pos: nat,
                   next: nat, schedule: nat -> nat, k: nat, r: Outcome)
    requires pos <= |data| && r == Exchange(server, data[pos..], schedule, k)
    requires (r.Served? ==> next == pos + r.consumed) && (r.Shutdown? ==> next == pos) && next <= |data|
    requires Framed(msgs, rest) && OnTrack(server, msgs, rest, done, true, log, data[pos..])
    requires Delivered(server, msgs[done..], rest, schedule, k)
    ensures if done == |msgs| then r.Shutdown? && data[next..] == []
            else r.Served? && OnTrack(server, msgs, rest, done + 1, r.open, log + [r.view], data[next..])
                 && Delivered(server, msgs[done + 1..], rest, schedule, NextRead(data[pos..], schedule, k))
  {
    NextInStream(server, msgs, done, rest, log, data[pos..], schedule, k);
    if done < |msgs| {
      TailOfTail(data, pos, r.consumed);
    }
  }

  lemma StreamStep(server: Server, msgs: seq<Message>, done: nat)
    requires done < |msgs|
    ensures var m, s, after := msgs[done], Stream(msgs[done..]), Stream(msgs[done + 1..]);
            s == m.head + m.body + after && s[|m.head| + |m.body|..] == after
    ensures Log(server, msgs[..done + 1])
         == Log(server, msgs[..done]) + [ViewOf(server, DecodeHeader(msgs[done].head), msgs[done].body)]
  {
    assert msgs[done..][0] == msgs[done] && msgs[done..][1..] == msgs[done + 1..];
  }
}

/** Keep-alive framing: what a pass of the session loop takes from the stream does not depend on how the
bytes arrive, as long as the request says how long its body is. */
module Framing {
  import opened Octets
  import opened Lines
  import opened Numerals
  import opened Requests

  /** Whatever the read sizes, the loop ends with the header end of the whole window, and it reads the
  whole window if there is none. */
  lemma ArrivedFindsHeaderEnd(s: bytes, schedule: nat -> nat, k: nat)
    ensures HeaderEnd(s[..Window(s)]) <= Window(s)
    ensures var rlen := Arrived(Window(s), HeaderEnd(s[..Window(s)]), schedule, k, 0);
            && HeaderEnd(s[..rlen]) == HeaderEnd(s[..Window(s)])
            && (HeaderEnd(s[..Window(s)]) == 0 ==> rlen == Window(s))
  {
    var w := s[..Window(s)];
    HeaderEndMeaning(w);
    var rlen := Arrived(Window(s), HeaderEnd(w), schedule, k, 0);
    HeaderEndOfPrefix(w, rlen);
    assert w[..rlen] == s[..rlen];
  }

  lemma FirstLineInHeader(b: bytes, k: nat, e: nat)
    requires FirstTerminator(b, 0, k) && e == k + TerminatorAt(b, k)
    ensures var q := LineEnd(b[..e], 0);
            && q <= k && LineEnd(b, 0) == q && b[..e][..q] == b[..q]
            && NextLine(b, q) == NextLine(b[..e], q)
            && (NextLine(b, q) <= k || NextLine(b, q) == k + TerminatorAt(b, k) / 2)
  {
    var h := b[..e];
    var q := LineEnd(h, 0);
    assert h[k] == b[k];
    assert forall i :: 0 <= i < e ==> h[i] == b[i];
    LineEndUnique(b, 0, q);
    FirstLineLandsInHeader(b, k, q);
  }

  lemma DecodeSame(a: bytes, b: bytes)
    requires a != [] && b != []
    requires var q := LineEnd(a, 0);
             && LineEnd(b, 0) == q && a[..q] == b[..q] && NextLine(a, q) == NextLine(b, q)
             && SameBlock(ReadBlock(a, NextLine(a, q)), ReadBlock(b, NextLine(b, q)))
    ensures DecodeHeader(a) == DecodeHeader(b)
  {
  }

  lemma DecodeIgnoresRest(b: bytes)
    requires HeaderEnd(b) > 0
    ensures HeaderEnd(b) <= |b| && DecodeHeader(b) == DecodeHeader(b[..HeaderEnd(b)])
  {
    HeaderEndMeaning(b);
    var k: nat :| FirstTerminator(b, 0, k);
    FirstLineInHeader(b, k, HeaderEnd(b));
    var h := b[..HeaderEnd(b)];
    assert TerminatorAt(h, k) == TerminatorAt(b, k);
    BlockStaysInHeader(b, h, k, NextLine(b, LineEnd(b, 0)));
    DecodeSame(b, b[..HeaderEnd(b)]);
  }

  /** The decoded header is a function of the header block alone, not of the body bytes that happened to
  arrive with it. */
  lemma DecodeIgnoresBody(s: bytes, rlen: nat)
    requires rlen <= |s| && HeaderEnd(s[..rlen]) > 0
    ensures HeaderEnd(s[..rlen]) <= rlen
    ensures DecodeHeader(s[..rlen]) == DecodeHeader(s[..HeaderEnd(s[..rlen])])
  {
    DecodeIgnoresRest(s[..rlen]);
    assert s[..rlen][..HeaderEnd(s[..rlen])] == s[..HeaderEnd(s[..rlen])];
  }

  lemma FirstLineLandsInHeader(b: bytes, k: nat, q: nat)
    requires FirstTerminator(b, 0, k) && q <= k && IsBreak(b[q])
    ensures NextLine(b, q) <= k || NextLine(b, q) == k + TerminatorAt(b, k) / 2
  {
  }

  /** The outcome of a pass over s when all of its window has arrived before the header is looked at. */
  function WholeWindow(server: Server, s: bytes): Outcome {
    if s == [] then Shutdown else Serve(server, s, Window(s))
  }

  /** A request is self-delimiting when the body size does not come from what happened to be buffered. */
  predicate SelfDelimiting(server: Server, s: bytes) {
    var splitbyte, d := HeaderEnd(s[..Window(s)]), DecodeHeader(s[..Window(s)]);
    Accepted(server, d) && 0 < splitbyte < Window(s) ==> "content-length" in d.headers
  }

  /** Buffers that show the same header serve the same request if its length is declared. */
  lemma ServeSame(server: Server, s: bytes, rlen: nat, cap: nat, e: nat, d: Decoded)
    requires e <= rlen <= cap <= |s|
    requires Accepted(server, d) && e < cap ==> "content-length" in d.headers
    ensures ServeDecoded(server, s, e, rlen, d) == ServeDecoded(server, s, e, cap, d)
  {
  }

  lemma ScheduleIrrelevant(server: Server, s: bytes, schedule: nat -> nat, k: nat)
    requires SelfDelimiting(server, s)
    ensures Exchange(server, s, schedule, k) == WholeWindow(server, s)
  {
    if s != [] {
      var cap := Window(s);
      var e := HeaderEnd(s[..cap]);
      ArrivedFindsHeaderEnd(s, schedule, k);
      if e > 0 {
        var rlen := Arrived(cap, e, schedule, k, 0);
        DecodeIgnoresBody(s, rlen);
        DecodeIgnoresBody(s, cap);
        ServeSame(server, s, rlen, cap, e, DecodeHeader(s[..cap]));
      }
    }
  }

  /** The outcome is the same for every read schedule. */
  ghost predicate OneOutcome(server: Server, s: bytes) {
    forall f: nat -> nat, g: nat -> nat, j: nat, k: nat ::
      Exchange(server, s, f, j) == Exchange(server, s, g, k)
  }

  lemma DelimitedHasOne(server: Server, s: bytes)
    requires SelfDelimiting(server, s)
    ensures OneOutcome(server, s)
  {
    forall f: nat -> nat, g: nat -> nat, j: nat, k: nat
      ensures Exchange(server, s, f, j) == Exchange(server, s, g, k)
    {
      ScheduleIrrelevant(server, s, f, j);
      ScheduleIrrelevant(server, s, g, k);
    }
  }

  /** The outcome is the same for every read schedule exactly when the request is self-delimiting. A POST
  without content-length gets as its body whatever came along with its header. */
  lemma ScheduleIrrelevantIff(server: Server, s: bytes)
    ensures SelfDelimiting(server, s) <==> OneOutcome(server, s)
  {
    if SelfDelimiting(server, s) {
      DelimitedHasOne(server, s);
    } else {
      ArrivalDecidesBody(server, s);
      TwoOutcomes(server, s, HeaderEnd(s[..Window(s)]), Window(s));
    }
  }

  lemma TwoOutcomes(server: Server, s: bytes, m: nat, n: nat)
    requires ReadBy(server, s, m) != ReadBy(server, s, n)
    ensures !OneOutcome(server, s)
  {
    if OneOutcome(server, s) {
      SameOutcome(server, s, _ => m, _ => n);
    }
  }

  lemma SameOutcome(server: Server, s: bytes, f: nat -> nat, g: nat -> nat)
    requires OneOutcome(server, s)
    ensures Exchange(server, s, f, 0) == Exchange(server, s, g, 0)
  {
  }

  /** A pass whose reads deliver up to n bytes each. */
  function ReadBy(server: Server, s: bytes, n: nat): Outcome {
    Exchange(server, s, _ => n, 0)
  }

  /** Reading the header alone first gives an empty body; reading the whole window gives all of the rest. */
  lemma ArrivalDecidesBody(server: Server, s: bytes)
    requires !SelfDelimiting(server, s)
    ensures var cap := Window(s);
            var e := HeaderEnd(s[..cap]);
            && ReadBy(server, s, e).Served? && |ReadBy(server, s, e).view.body| == 0
            && ReadBy(server, s, cap).Served? && |ReadBy(server, s, cap).view.body| == cap - e > 0
  {
    var cap := Window(s);
    var e := HeaderEnd(s[..cap]);
    DecodeIgnoresBody(s, cap);
    ArrivedFindsHeaderEnd(s, _ => e, 0);
    ArrivedFindsHeaderEnd(s, _ => cap, 0);
    assert Arrived(cap, e, _ => e, 0, 0) == e && Arrived(cap, e, _ => cap, 0, 0) == cap;
    DecodeIgnoresBody(s, e);
  }

  /** No header end in the window, and a declared length that is not positive. */
  predicate NoProgress(server: Server, s: bytes) {
    var w := s[..Window(s)];
    var d := DecodeHeader(w);
    && s != [] && HeaderEnd(w) == 0 && Accepted(server, d)
    && "content-length" in d.headers
    && var size := ParseLong(d.headers["content-length"]); size.Some? && size.value <= 0
  }

  lemma ConsumedNothingIff(server: Server, s: bytes, e: nat, rlen: nat, d: Decoded)
    requires e <= rlen <= |s| && (e == 0 ==> rlen > 0)
    ensures var r := ServeDecoded(server, s, e, rlen, d);
      && (r.Served? && r.consumed == 0 <==>
            && e == 0 && Accepted(server, d) && "content-length" in d.headers
            && var size := ParseLong(d.headers["content-length"]); size.Some? && size.value <= 0)
      && (r.Served? ==> r.consumed <= |s|)
  {
  }

  /** A pass serves a request and consumes nothing exactly if the window shows no header end and declares no
  positive length; the session would then serve the same bytes again. */
  lemma NoProgressIff(server: Server, s: bytes, schedule: nat -> nat, k: nat)
    ensures var r := Exchange(server, s, schedule, k);
      && (r.Served? && r.consumed == 0 <==> NoProgress(server, s))
      && (r.Served? ==> r.consumed <= |s|)
  {
    if s != [] {
      ArrivedFindsHeaderEnd(s, schedule, k);
      var e := HeaderEnd(s[..Window(s)]);
      var rlen := Arrived(Window(s), e, schedule, k, 0);
      ConsumedNothingIff(server, s, e, rlen, DecodeHeader(s[..rlen]));
    }
  }

  // ---- a stream of requests

  datatype Message = Message(head: bytes, body: bytes)

  /** A header with its blank line, which declares the length of the body. */
  predicate Declared(server: Server, m: Message) {
    var d := DecodeHeader(m.head);
    && 0 < |m.head| && HeaderEnd(m.head) == |m.head|
    && Accepted(server, d)
    && "content-length" in d.headers && ParseLong(d.headers["content-length"]) == Some(|m.body|)
  }

  predicate WellFormed(server: Server, m: Message) {
    Declared(server, m) && |m.head| <= BUFSIZE
  }

  /** The connection stays open after the request. */
  predicate KeepsOpen(m: Message) {
    var d := DecodeHeader(m.head);
    d.Request? && KeepAlive(d.version, d.headers)
  }

  function Stream(msgs: seq<Message>): bytes {
    if msgs == [] then [] else msgs[0].head + msgs[0].body + Stream(msgs[1..])
  }

  /** What the handlers saw, request by request. */
  function Log(server: Server, msgs: seq<Message>): seq<View> {
    seq(|msgs|, i requires 0 <= i < |msgs| => ViewOf(server, DecodeHeader(msgs[i].head), msgs[i].body))
  }

  /** The window of a stream that starts with a header shows that header, whatever follows it. */
  lemma WindowShowsHeader(head: bytes, rest: bytes)
    requires 0 < |head| <= BUFSIZE && HeaderEnd(head) == |head|
    ensures var s := head + rest;
            && |head| <= Window(s) && HeaderEnd(s[..Window(s)]) == |head|
            && DecodeHeader(s[..Window(s)]) == DecodeHeader(head)
  {
    var s, h := head + rest, |head|;
    var cap := Window(s);
    assert s[..cap] == head + s[h..cap];
    assert s[..h] == head;
    HeaderEndStable(head, s[h..cap]);
    DecodeIgnoresBody(s, cap);
  }

  /** A declared length that the stream can meet delimits the body exactly. */
  lemma ServedWhole(server: Server, s: bytes, h: nat, d: Decoded, body: bytes)
    requires 0 < h && h + |body| <= |s| && s[h..h + |body|] == body
    requires HeaderEnd(s[..Window(s)]) == h && DecodeHeader(s[..Window(s)]) == d
    requires Accepted(server, d)
    requires "content-length" in d.headers && ParseLong(d.headers["content-length"]) == Some(|body|)
    ensures WholeWindow(server, s) == Served(ViewOf(server, d, body), KeepAlive(d.version, d.headers), h + |body|)
    ensures SelfDelimiting(server, s)
  {
  }

  lemma Pieces(a: bytes, b: bytes, c: bytes)
    ensures a + b + c == a + (b + c) && (a + b + c)[|a|..|a| + |b|] == b
  {
  }

  /** Whatever follows and however the bytes arrive, a well-formed request is served with exactly its
  header and body, and the stream is left at the first byte after it. */
  lemma ExchangeFramed(server: Server, m: Message, after: bytes, schedule: nat -> nat, k: nat)
    requires WellFormed(server, m)
    ensures Exchange(server, m.head + m.body + after, schedule, k)
         == Served(ViewOf(server, DecodeHeader(m.head), m.body), KeepsOpen(m), |m.head| + |m.body|)
  {
    var s := m.head + m.body + after;
    Pieces(m.head, m.body, after);
    WindowShowsHeader(m.head, m.body + after);
    ServedWhole(server, s, |m.head|, DecodeHeader(m.head), m.body);
    ScheduleIrrelevant(server, s, schedule, k);
  }

  lemma ServedFromStart(server: Server, s: bytes, rlen: nat, d: Decoded)
    requires rlen <= |s|
    ensures var r := ServeDecoded(server, s, 0, rlen, d);
      r.Served? ==> r.consumed == |r.view.body| <= |s| && r.view.body == s[..r.consumed]
  {
  }

  /** A header that is longer than the buffer is taken for the body. */
  lemma LongHeaderIsBody(server: Server, m: Message, after: bytes, schedule: nat -> nat, k: nat)
    requires Declared(server, m) && |m.head| > BUFSIZE
    ensures var s := m.head + m.body + after;
      var r := Exchange(server, s, schedule, k);
      r.Served? ==> r.consumed == |r.view.body| <= |s| && r.view.body == s[..r.consumed]
  {
    var s := m.head + m.body + after;
    HeaderEndOfPrefix(m.head, BUFSIZE);
    assert s[..Window(s)] == m.head[..BUFSIZE];
    ArrivedFindsHeaderEnd(s, schedule, k);
    ServedFromStart(server, s, Window(s), DecodeHeader(s[..Window(s)]));
  }

  /** However a request with a declared length arrives, it is framed exactly if its header fits the buffer. */
  lemma ExchangeFramedIff(server: Server, m: Message, after: bytes, schedule: nat -> nat, k: nat)
    requires Declared(server, m)
    ensures var whole := Served(ViewOf(server, DecodeHeader(m.head), m.body), KeepsOpen(m), |m.head| + |m.body|);
      Exchange(server, m.head + m.body + after, schedule, k) == whole <==> |m.head| <= 8192
  {
    if |m.head| <= BUFSIZE {
      ExchangeFramed(server, m, after, schedule, k);
    } else {
      LongHeaderIsBody(server, m, after, schedule, k);
    }
  }

  /** A request without a content-length. */
  predicate Plain(server: Server, head: bytes) {
    var d := DecodeHeader(head);
    && 0 < |head| <= BUFSIZE && HeaderEnd(head) == |head|
    && Accepted(server, d) && "content-length" !in d.headers
  }

  lemma ServedPlain(server: Server, s: bytes, h: nat, rlen: nat, d: Decoded)
    requires h <= rlen <= |s|
    requires Accepted(server, d) && "content-length" !in d.headers
    ensures ServeDecoded(server, s, h, rlen, d)
         == Served(ViewOf(server, d, s[h..rlen]), KeepAlive(d.version, d.headers), rlen)
  {
  }

  /** Such a request gets as its body whatever arrived with it, and takes that from the stream. So it is framed
  exactly if the reads stop at its header end, as they do when the client waits for each response. */
  lemma PlainFramedIff(server: Server, head: bytes, after: bytes, schedule: nat -> nat, k: nat)
    requires Plain(server, head)
    ensures |head| <= Window(head + after) && HeaderEnd((head + after)[..Window(head + after)]) == |head|
    ensures var s, d := head + after, DecodeHeader(head);
      var rlen := Arrived(Window(s), |head|, schedule, k, 0);
      var r := Exchange(server, s, schedule, k);
      && |head| <= rlen <= |s|
      && r == Served(ViewOf(server, d, s[|head|..rlen]), KeepAlive(d.version, d.headers), rlen)
      && (r == Served(ViewOf(server, d, []), KeepAlive(d.version, d.headers), |head|) <==> rlen == |head|)
  {
    var s, h := head + after, |head|;
    WindowShowsHeader(head, after);
    ArrivedFindsHeaderEnd(s, schedule, k);
    var rlen := Arrived(Window(s), h, schedule, k, 0);
    DecodeIgnoresBody(s, rlen);
    assert s[..h] == head;
    ServedPlain(server, s, h, rlen, DecodeHeader(head));
  }

  // ---- requests of both kinds

  /** The pass over s, which starts with the request, sees where it ends: it declares a length, or it is plain and
  the reads stop at its header end. */
  predicate Delimited(server: Server, m: Message, s: bytes, schedule: nat -> nat, k: nat) {
    || WellFormed(server, m)
    || (&& Plain(server, m.head) && m.body == [] && |m.head| <= Window(s)
        && Arrived(Window(s), |m.head|, schedule, k, 0) == |m.head|)
  }

  /** The reads from the k-th on deliver the requests one by one. */
  ghost predicate Delivered(server: Server, msgs: seq<Message>, rest: bytes, schedule: nat -> nat, k: nat)
    decreases |msgs|
  {
    var s := Stream(msgs) + rest;
    msgs == []
    || (Delimited(server, msgs[0], s, schedule, k)
        && Delivered(server, msgs[1..], rest, schedule, NextRead(s, schedule, k)))
  }

  /** Requests that declare their lengths are delivered one by one by any reads. */
  lemma {:induction false} LengthsDeliver(
      server: Server, msgs: seq<Message>, rest: bytes, schedule: nat -> nat, k: nat)
    requires forall m :: m in msgs ==> WellFormed(server, m)
    ensures Delivered(server, msgs, rest, schedule, k)
    decreases |msgs|
  {
    if msgs != [] {
      assert msgs[0] in msgs;
      LengthsDeliver(server, msgs[1..], rest, schedule, NextRead(Stream(msgs) + rest, schedule, k));
    }
  }

  lemma {:induction false} ByteByByte(cap: nat, e: nat, k: nat, r: nat)
    requires 0 < e <= cap && r <= e
    ensures Arrived(cap, e, _ => 1, k, r) == e
    decreases e - r
  {
    var f: nat -> nat := _ => 1;
    if r < e {
      ByteByByte(cap, e, k + 1, r + 1);
      ArrivedStep(cap, e, f, k, r, 1);
    }
  }

  /** Reads of one byte deliver requests of both kinds. */
  lemma {:induction false} BytesDeliver(server: Server, msgs: seq<Message>, rest: bytes, k: nat)
    requires forall m :: m in msgs ==> WellFormed(server, m) || (Plain(server, m.head) && m.body == [])
    ensures Delivered(server, msgs, rest, _ => 1, k)
    decreases |msgs|
  {
    var f: nat -> nat := _ => 1;
    if msgs != [] {
      var m, s := msgs[0], Stream(msgs) + rest;
      assert m in msgs;
      if Plain(server, m.head) {
        ByteByByte(Window(s), |m.head|, k, 0);
      }
      BytesDeliver(server, msgs[1..], rest, NextRead(s, f, k));
    }
  }

  lemma ExchangeDelimited(server: Server, m: Message, after: bytes, schedule: nat -> nat, k: nat)
    requires Delimited(server, m, m.head + m.body + after, schedule, k)
    ensures Exchange(server, m.head + m.body + after, schedule, k)
         == Served(ViewOf(server, DecodeHeader(m.head), m.body), KeepsOpen(m), |m.head| + |m.body|)
  {
    if WellFormed(server, m) {
      ExchangeFramed(server, m, after, schedule, k);
    } else {
      assert m.head + m.body + after == m.head + after;
      PlainFramedIff(server, m.head, after, schedule, k);
    }
  }

  lemma CutUnique(s: bytes, x: Message, y: Message, xs: bytes, ys: bytes)
    requires s == x.head + x.body + xs && s == y.head + y.body + ys
    requires x.body == y.body && |x.head| == |y.head|
    ensures x == y && xs == ys
  {
    var h := |x.head|;
    var n := h + |x.body|;
    assert x.head == s[..h] && xs == s[n..];
    assert y.head == s[..h] && ys == s[n..];
  }

  lemma FirstRequestUnique(server: Server, x: Message, y: Message, xs: bytes, ys: bytes)
    requires WellFormed(server, x) && WellFormed(server, y)
    requires x.head + x.body + xs == y.head + y.body + ys
    ensures x == y && xs == ys
  {
    var s := x.head + x.body + xs;
    var f: nat -> nat := _ => 1;
    ExchangeFramed(server, x, xs, f, 0);
    ExchangeFramed(server, y, ys, f, 0);
    CutUnique(s, x, y, xs, ys);
  }

  /** A stream can be cut into well-formed requests in one way only. */
  lemma {:induction false} FramingUnique(server: Server, a: seq<Message>, b: seq<Message>)
    requires forall m :: m in a ==> WellFormed(server, m)
    requires forall m :: m in b ==> WellFormed(server, m)
    requires Stream(a) == Stream(b)
    ensures a == b
    decreases |a|
  {
    assert a != [] ==> a[0] in a && a[0].head != [];
    assert b != [] ==> b[0] in b && b[0].head != [];
    if a != [] {
      FirstRequestUnique(server, a[0], b[0], Stream(a[1..]), Stream(b[1..]));
      FramingUnique(server, a[1..], b[1..]);
      assert a == [a[0]] + a[1..] && b == [b[0]] + b[1..];
    }
  }

  // ---- printed requests are well formed

  /** A word that StringTokenizer takes as one token. */
  predicate Word(s: bytes) {
    s != [] && forall i :: 0 <= i < |s| ==> !IsDelimiter(s[i])
  }

  lemma TokenEndUnique(s: bytes, p: nat, q: nat)
    requires p <= q <= |s| && forall i :: p <= i < q ==> !IsDelimiter(s[i])
    requires q == |s| || IsDelimiter(s[q])
    ensures TokenEnd(s, p) == q
    decreases q - p
  {
  }

  lemma TokenFound(s: bytes, word: bytes, p: nat)
    requires Word(word) && OccursAt(s, word, p)
    requires p + |word| == |s| || IsDelimiter(s[p + |word|])
    ensures NextToken(s, p) == Some((word, p + |word|))
  {
    OccursIndex(s, word, p);
    assert word[0] == s[p];
    TokenEndUnique(s, p, p + |word|);
  }

  /** The word behind one delimiter, up to q. */
  lemma TokenBehind(s: bytes, word: bytes, p: nat, q: nat)
    requires p < |s| && IsDelimiter(s[p]) && Word(word) && OccursAt(s, word, p + 1) && q == p + 1 + |word|
    requires q == |s| || IsDelimiter(s[q])
    ensures NextToken(s, p) == Some((word, q))
  {
    TokenFound(s, word, p + 1);
    OccursIndex(s, word, p + 1);
    assert word[0] == s[p + 1];
  }

  lemma ThreeTokens(s: bytes, a: bytes, b: bytes, c: bytes)
    requires Word(a) && Word(b) && Word(c) && s == a + [' '] + b + [' '] + c
    ensures NextToken(s, 0) == Some((a, |a|))
    ensures NextToken(s, |a|) == Some((b, |a| + 1 + |b|))
    ensures NextToken(s, |a| + 1 + |b|) == Some((c, |s|))
  {
    ThreeWords(s, a, b, c);
    TokenFound(s, a, 0);
    TokenBehind(s, b, |a|, |a| + 1 + |b|);
    TokenBehind(s, c, |a| + 1 + |b|, |s|);
  }

  lemma ThreeWords(s: bytes, a: bytes, b: bytes, c: bytes)
    requires s == a + [' '] + b + [' '] + c
    ensures OccursAt(s, a, 0) && OccursAt(s, b, |a| + 1) && OccursAt(s, c, |a| + |b| + 2)
    ensures |s| == |a| + |b| + |c| + 2 && s[|a|] == ' ' && s[|a| + 1 + |b|] == ' '
  {
  }

  lemma RequestLineDecodes(verb: bytes, target: bytes, version: bytes, headers: map<bytes, bytes>)
    requires Word(verb) && Word(target) && Word(version) && version[0] > ' '
    ensures !Blank(verb + [' '] + target + [' '] + version)
    ensures RequestLine(verb + [' '] + target + [' '] + version, headers) == Request(verb, target, version, headers)
    ensures OneLine(verb + [' '] + target + [' '] + version)
  {
    var s := verb + [' '] + target + [' '] + version;
    ThreeTokens(s, verb, target, version);
    assert s[|verb| + |target| + 2] == version[0];
    forall i | 0 <= i < |s| ensures !IsBreak(s[i]) {
      var p, q := |verb|, |verb| + 1 + |target|;
      assert i < p ==> s[i] == verb[i];
      assert p < i < q ==> s[i] == target[i - p - 1];
      assert q < i ==> s[i] == version[i - q - 1];
    }
  }

  /** A field name that comes back unchanged from a printed field. */
  predicate FieldName(name: bytes) {
    Trimmed(name) && IndexFrom(name, ':', 0) == |name|
  }

  function Field(name: bytes, value: bytes): bytes {
    name + [':'] + [' '] + value
  }

  lemma FieldDecodes(headers: map<bytes, bytes>, name: bytes, value: bytes)
    requires FieldName(name) && Trimmed(value)
    ensures AddField(headers, Field(name, value)) == headers[Lower(name) := value]
  {
    var line, n := Field(name, value), |name|;
    assert line[..n] == name && line[n + 1..] == [' '] + value;
    assert forall i :: 0 <= i < n ==> line[i] == name[i];
    IndexFromUnique(line, ':', 0, n);
    TrimPadded(name);
    TrimPadded(value);
  }

  lemma {:induction false} LastField(headers: map<bytes, bytes>, fields: seq<bytes>, line: bytes)
    ensures FieldsFrom(headers, fields + [line]) == AddField(FieldsFrom(headers, fields), line)
    decreases |fields|
  {
    var all := fields + [line];
    if fields == [] {
      assert all[1..] == [];
    } else {
      assert all[0] == fields[0] && all[1..] == fields[1..] + [line];
      LastField(AddField(headers, fields[0]), fields[1..], line);
    }
  }

  lemma FieldPrintable(name: bytes, value: bytes)
    requires OneLine(name) && OneLine(value)
    ensures OneLine(Field(name, value)) && !Blank(Field(name, value))
  {
    var line, n := Field(name, value), |name|;
    forall i | 0 <= i < |line| ensures !IsBreak(line[i]) {
      assert i < n ==> line[i] == name[i];
      assert i > n + 1 ==> line[i] == value[i - n - 2];
    }
    assert line[n] == ':' > ' ';
  }

  lemma PrintedNumber(n: nat)
    requires n <= LONG_MAX
    ensures OneLine(Print(n, 10)) && Trimmed(Print(n, 10)) && ParseLong(Print(n, 10)) == Some(n)
  {
    PrintParseLong(n);
    PrintedDigits(n, 10);
    var s := Print(n, 10);
    forall i | 0 <= i < |s| ensures !IsBreak(s[i]) {
      assert DigitValue(s[i], 10).Some?;
    }
  }

  lemma PrintedHeaderDecodes(first: bytes, rest: seq<bytes>)
    requires OneLine(first) && !Blank(first) && Printable(rest)
    ensures var h := PrintLines([first] + rest) + CRLF;
            && HeaderEnd(h) == |h| > 0
            && DecodeHeader(h) == RequestLine(first, Fields(rest))
  {
    var lines := [first] + rest;
    var h := PrintLines(lines) + CRLF;
    assert lines[0] == first && lines[1..] == rest && Printable(lines);
    assert OccursAt(h, PrintLines(lines) + CRLF, 0);
    PrintedHeaderEnd(h, lines, 0);
    SplitFirstLine(h, lines, 0);
    PrintedLinesDecode(h, first, rest);
  }

  lemma PrintedLinesDecode(h: bytes, first: bytes, rest: seq<bytes>)
    requires OneLine(first) && Printable(rest)
    requires OccursAt(h, first + CRLF, 0) && OccursAt(h, PrintLines(rest) + CRLF, |first| + 2)
    ensures h != [] && DecodeHeader(h) == RequestLine(first, Fields(rest))
  {
    PrintedLineEnd(h, first, 0);
    assert h[..|first|] == first;
    ReadPrintedBlock(h, rest, |first| + 2);
  }

  function PrintRequest(verb: bytes, target: bytes, version: bytes, fields: seq<bytes>, body: bytes): Message {
    Message(PrintLines([verb + [' '] + target + [' '] + version]
                       + (fields + [Field("Content-Length", Print(|body|, 10))])) + CRLF, body)
  }

  lemma ContentLengthName()
    ensures var name: bytes := "Content-Length";
            FieldName(name) && OneLine(name) && Lower(name) == "content-length"
  {
    var name: bytes, lower: bytes := "Content-Length", "content-length";
    assert forall i :: 0 <= i < 14 ==> name[i] != ':';
    assert LowerChar('C') == 'c' && LowerChar('L') == 'l';
    assert forall i :: 0 <= i < 14 ==> Lower(name)[i] == lower[i];
    assert Lower(name) == lower;
  }

  lemma LengthField(fields: seq<bytes>, n: nat)
    requires Printable(fields) && n <= LONG_MAX
    ensures var rest, size := fields + [Field("Content-Length", Print(n, 10))], Print(n, 10);
      && Printable(rest) && Fields(rest) == Fields(fields)["content-length" := size]
      && ParseLong(size) == Some(n)
  {
    var name: bytes, size := "Content-Length", Print(n, 10);
    ContentLengthName();
    PrintedNumber(n);
    FieldDecodes(Fields(fields), name, size);
    FieldPrintable(name, size);
    LastField(map[], fields, Field(name, size));
  }

  /** The parts of a request line that can be told apart again. */
  predicate Words(verb: bytes, target: bytes, version: bytes) {
    Word(verb) && Word(target) && Word(version) && version[0] > ' '
  }

  lemma PrintedRequestDecodes(verb: bytes, target: bytes, version: bytes, fields: seq<bytes>, body: bytes)
    requires Words(verb, target, version) && Printable(fields) && |body| <= LONG_MAX
    ensures var m := PrintRequest(verb, target, version, fields, body);
      && HeaderEnd(m.head) == |m.head| > 0
      && DecodeHeader(m.head)
         == Request(verb, target, version, Fields(fields)["content-length" := Print(|body|, 10)])
      && ParseLong(Print(|body|, 10)) == Some(|body|)
  {
    var line := Field("Content-Length", Print(|body|, 10));
    LengthField(fields, |body|);
    RequestHead(verb, target, version, fields + [line]);
  }

  lemma PrintedRequestDeclared(
      server: Server, verb: bytes, target: bytes, version: bytes, fields: seq<bytes>, body: bytes)
    requires verb in server.methods && server.locate(target).Some? && Words(verb, target, version)
    requires Printable(fields) && |body| <= LONG_MAX
    ensures Declared(server, PrintRequest(verb, target, version, fields, body))
    ensures DecodeHeader(PrintRequest(verb, target, version, fields, body).head)
         == Request(verb, target, version, Fields(fields)["content-length" := Print(|body|, 10)])
  {
    PrintedRequestDecodes(verb, target, version, fields, body);
  }

  lemma VersionWord()
    ensures var version: bytes := "HTTP/1.1"; Word(version) && version[0] > ' '
  {
  }

  lemma RequestHead(verb: bytes, target: bytes, version: bytes, fields: seq<bytes>)
    requires Words(verb, target, version) && Printable(fields)
    ensures var h := PrintLines([verb + [' '] + target + [' '] + version] + fields) + CRLF;
      HeaderEnd(h) == |h| > 0 && DecodeHeader(h) == Request(verb, target, version, Fields(fields))
  {
    RequestLineDecodes(verb, target, version, Fields(fields));
    PrintedHeaderDecodes(verb + [' '] + target + [' '] + version, fields);
  }

  /** Printing a request and reading it back: a printed request is a well-formed message, with the printed
  verb, target, version and fields and the length of its body. */
  lemma PrintedRequestWellFormed(
      server: Server, verb: bytes, target: bytes, version: bytes, fields: seq<bytes>, body: bytes)
    requires verb in server.methods && server.locate(target).Some? && Words(verb, target, version)
    requires Printable(fields) && |body| <= LONG_MAX
    requires |PrintRequest(verb, target, version, fields, body).head| <= BUFSIZE
    ensures WellFormed(server, PrintRequest(verb, target, version, fields, body))
    ensures DecodeHeader(PrintRequest(verb, target, version, fields, body).head)
         == Request(verb, target, version, Fields(fields)["content-length" := Print(|body|, 10)])
  {
    PrintedRequestDeclared(server, verb, target, version, fields, body);
  }

  /** The head of a request without a body. */
  function PlainHead(verb: bytes, target: bytes, fields: seq<bytes>): bytes {
    PrintLines([verb + [' '] + target + [' '] + "HTTP/1.1"] + fields) + CRLF
  }

  lemma PlainHeadDecodes(server: Server, verb: bytes, target: bytes, fields: seq<bytes>)
    requires verb in server.methods && server.locate(target).Some? && Word(verb) && Word(target)
    requires Printable(fields) && "content-length" !in Fields(fields)
    requires |PlainHead(verb, target, fields)| <= BUFSIZE
    ensures Plain(server, PlainHead(verb, target, fields))
    ensures DecodeHeader(PlainHead(verb, target, fields)) == Request(verb, target, "HTTP/1.1", Fields(fields))
  {
    VersionWord();
    RequestHead(verb, target, "HTTP/1.1", fields);
  }

  lemma PlainHeadLength(verb: bytes, target: bytes)
    ensures |PlainHead(verb, target, [])| == |verb| + |target| + 14
  {
    var first, none: seq<bytes> := verb + [' '] + target + [' '] + "HTTP/1.1", [];
    assert [first] + none == [first] && [first][1..] == none;
    PrintedLength([first]);
    assert PrintLines(none) + CRLF == CRLF;
  }

  // ---- inputs on which the code falls short

  lemma ReadByServes(server: Server, head: bytes, after: bytes, n: nat)
    requires Plain(server, head) && |head| <= n <= |head + after| <= BUFSIZE
    ensures var r := ReadBy(server, head + after, n); r.Served? && r.view.body == (head + after)[|head|..n]
  {
    WindowShowsHeader(head, after);
    PlainFramedIff(server, head, after, _ => n, 0);
  }

  lemma ReadByAll(server: Server, head: bytes, after: bytes)
    requires Plain(server, head) && after != [] && |head + after| <= BUFSIZE
    ensures var s := head + after;
      && !SelfDelimiting(server, s)
      && ReadBy(server, s, |head|).Served? && ReadBy(server, s, |head|).view.body == []
      && ReadBy(server, s, |s|).Served? && ReadBy(server, s, |s|).view.body == after
  {
    WindowShowsHeader(head, after);
    ReadByServes(server, head, after, |head|);
    ReadByServes(server, head, after, |head + after|);
    assert (head + after)[|head|..|head + after|] == after;
  }

  /** A POST without content-length and one byte behind its header: read with the header the byte is the body,
  and read later it is not. */
  lemma UndeclaredBody(server: Server)
    requires "POST" in server.methods && server.locate("/").Some?
    ensures var h := PlainHead("POST", "/", []); var s := h + "x";
      && !SelfDelimiting(server, s)
      && ReadBy(server, s, |h|).Served? && ReadBy(server, s, |h|).view.body == []
      && ReadBy(server, s, |s|).Served? && ReadBy(server, s, |s|).view.body == "x"
  {
    PlainHeadLength("POST", "/");
    PlainHeadDecodes(server, "POST", "/", []);
    ReadByAll(server, PlainHead("POST", "/", []), "x");
  }

  /** A request with a header field as long as the buffer. */
  function Oversized(): Message {
    PrintRequest("POST", "/", "HTTP/1.1", [Field("X", seq(BUFSIZE, _ => 'a'))], "")
  }

  /** No reads frame m with whatever follows. */
  ghost predicate NeverFramed(server: Server, m: Message) {
    forall after: bytes, schedule: nat -> nat, k: nat ::
      Exchange(server, m.head + m.body + after, schedule, k)
      != Served(ViewOf(server, DecodeHeader(m.head), m.body), KeepsOpen(m), |m.head| + |m.body|)
  }

  lemma LongNeverFramed(server: Server, m: Message)
    requires Declared(server, m) && |m.head| > BUFSIZE
    ensures NeverFramed(server, m)
  {
    forall after: bytes, schedule: nat -> nat, k: nat
      ensures Exchange(server, m.head + m.body + after, schedule, k)
           != Served(ViewOf(server, DecodeHeader(m.head), m.body), KeepsOpen(m), |m.head| + |m.body|)
    {
      ExchangeFramedIff(server, m, after, schedule, k);
    }
  }

  /** It declares its length, and no reads frame it. */
  lemma OversizedLost(server: Server)
    requires "POST" in server.methods && server.locate("/").Some?
    ensures Declared(server, Oversized()) && NeverFramed(server, Oversized())
  {
    var filler: bytes, none: bytes := seq(BUFSIZE, _ => 'a'), "";
    FieldPrintable("X", filler);
    var fields := [Field("X", filler)];
    VersionWord();
    PrintedRequestDeclared(server, "POST", "/", "HTTP/1.1", fields, none);
    PrintedSpan("POST" + [' '] + "/" + [' '] + "HTTP/1.1", fields[0], Field("Content-Length", Print(|none|, 10)));
    LongNeverFramed(server, Oversized());
  }

  lemma PrintedSpan(first: bytes, second: bytes, third: bytes)
    ensures |PrintLines([first] + ([second] + [third])) + CRLF| > |second|
  {
    var rest := [second] + [third];
    assert ([first] + rest)[1..] == rest && rest[1..] == [third];
    PrintedLength([first] + rest);
    PrintedLength(rest);
  }

  /** A header that never ends, with a declared length of zero. */
  const ENDLESS: bytes := ("GET" + [' '] + "/") + ['\n'] + Field("Content-Length", "0")

  /** It is served, the connection is kept open, and it is still there: the session repeats it forever. */
  lemma ServedForever(server: Server, schedule: nat -> nat, k: nat)
    requires "GET" in server.methods && server.locate("/").Some?
    ensures NoProgress(server, ENDLESS)
    ensures var r := Exchange(server, ENDLESS, schedule, k); r.Served? && r.open && r.consumed == 0
  {
    var s := ENDLESS;
    EndlessDecodes();
    NoCloseAsked();
    assert s[..|s|] == s;
    NoProgressIff(server, s, schedule, k);
    ArrivedFindsHeaderEnd(s, schedule, k);
  }

  lemma EndlessDecodes()
    ensures HeaderEnd(ENDLESS) == 0 && 0 < |ENDLESS| <= BUFSIZE && ParseLong("0") == Some(0)
    ensures DecodeHeader(ENDLESS) == Request("GET", "/", "HTTP/1.1", map["content-length" := "0"])
  {
    var line := Field("Content-Length", "0");
    ZeroLength();
    GetWords();
    EndlessSize(line);
    EndlessHeader(ENDLESS, "GET", "/", line);
  }

  lemma GetWords()
    ensures Word("GET") && Word("/")
  {
  }

  lemma EndlessSize(line: bytes)
    requires line == Field("Content-Length", "0")
    ensures ENDLESS == ("GET" + [' '] + "/") + ['\n'] + line && 0 < |ENDLESS| <= BUFSIZE
  {
  }

  lemma EndlessHeader(s: bytes, verb: bytes, target: bytes, line: bytes)
    requires s == (verb + [' '] + target) + ['\n'] + line
    requires Word(verb) && Word(target) && OneLine(line) && !Blank(line)
    ensures HeaderEnd(s) == 0 && DecodeHeader(s) == Request(verb, target, "HTTP/1.1", AddField(map[], line))
  {
    var first := verb + [' '] + target;
    forall i | 0 <= i < |first| ensures !IsBreak(first[i]) {
      assert i < |verb| ==> first[i] == verb[i];
      assert i > |verb| ==> first[i] == target[i - |verb| - 1];
    }
    TwoLines(first, line);
    TwoTokens(verb, target, AddField(map[], line));
  }

  lemma NoCloseAsked()
    ensures KeepAlive("HTTP/1.1", map["content-length" := "0"])
  {
    assert |"connection"| != |"content-length"|;
  }

  /** A request line and a field without a blank line behind them. */
  lemma TwoLines(first: bytes, line: bytes)
    requires OneLine(first) && OneLine(line) && first != [] && !Blank(line)
    ensures var s := first + ['\n'] + line;
      HeaderEnd(s) == 0 && DecodeHeader(s) == RequestLine(first, AddField(map[], line))
  {
    var s, n := first + ['\n'] + line, |first|;
    assert forall i :: 0 <= i < n ==> s[i] == first[i];
    assert forall i :: n < i < |s| ==> s[i] == line[i - n - 1];
    HeaderEndMeaning(s);
    assert forall i: nat :: TerminatorAt(s, i) == 0;
    LineEndUnique(s, 0, n);
    LineEndUnique(s, n + 1, |s|);
    assert s[..n] == first && s[n + 1..|s|] == line;
    LastLine(s, n + 1, line);
  }

  lemma LastLine(s: bytes, p: nat, line: bytes)
    requires p < |s| && LineEnd(s, p) == |s| && s[p..|s|] == line && !Blank(line)
    ensures Fields(ReadBlock(s, p).lines) == AddField(map[], line)
  {
    var none: seq<bytes> := [];
    assert NextLine(s, |s|) == |s| && ReadBlock(s, |s|) == Block(none, false, |s|);
    assert ReadBlock(s, p).lines == [line] + none == [line];
    assert [line][1..] == none;
    assert FieldsFrom(map[], [line]) == FieldsFrom(AddField(map[], line), none);
  }

  lemma TwoTokens(verb: bytes, target: bytes, headers: map<bytes, bytes>)
    requires Word(verb) && Word(target)
    ensures RequestLine(verb + [' '] + target, headers) == Request(verb, target, "HTTP/1.1", headers)
  {
    var s, p := verb + [' '] + target, |verb|;
    assert OccursAt(s, verb, 0) && s[p] == ' ';
    TokenFound(s, verb, 0);
    assert OccursAt(s, target, p + 1);
    TokenBehind(s, target, p, |s|);
  }

  lemma ZeroLength()
    ensures var line := Field("Content-Length", "0");
      OneLine(line) && !Blank(line) && AddField(map[], line) == map["content-length" := "0"]
    ensures ParseLong("0") == Some(0)
  {
    var value: bytes := "0";
    ContentLengthName();
    ZeroParses();
    assert OneLine(value) && Trimmed(value);
    FieldPrintable("Content-Length", value);
    FieldDecodes(map[], "Content-Length", value);
  }

  lemma ZeroParses()
    ensures ParseLong("0") == Some(0)
  {
    assert DigitValue('0', 10) == Some(0);
  }
}

/** What a handler sees of a printed request, and whether the connection stays open behind it. */
module RequestMeaning {
  import opened Octets
  import opened Lines
  import opened Numerals
  import opened Query
  import opened QueryMeaning
  import opened Requests
  import opened Framing
  import opened HeaderFields
  import opened Session
  import opened Streams

  // ---- the target

  /** A path and a query in a target: the path is decoded by itself, and the parameters are those of the query. */
  lemma LocateQuery(decode: Percent, path: bytes, pieces: seq<Piece>)
    requires Without(path, '?') && AllPlain(pieces)
    ensures var r := Locate(decode, path + ['?'] + Joined(pieces));
      && (r == None <==> decode(path) == None || AnyMalformed(decode, pieces))
      && (r.Some? ==> r.value.0 == decode(path).value && LastValues(decode, pieces, r.value.1))
  {
    var target, q := path + ['?'] + Joined(pieces), |path|;
    assert forall i :: 0 <= i < q ==> target[i] == path[i];
    IndexFromUnique(target, '?', 0, q);
    assert target[..q] == path && target[q + 1..] == Joined(pieces);
    SingleOfPieces(decode, pieces);
  }

  /** A target without a question mark is all path. */
  lemma LocatePath(decode: Percent, path: bytes)
    requires Without(path, '?')
    ensures Locate(decode, path) == match decode(path) case None => None case Some(uri) => Some((uri, map[]))
  {
    assert IndexFrom(path, '?', 0) == |path| && path[..|path|] == path;
  }

  // ---- staying open

  predicate Letter(c: byte, small: byte, capital: byte) {
    c == small || c == capital
  }

  /** The letters c-l-o-s-e one after the other, each in either case. */
  predicate CloseAt(v: bytes, p: nat) {
    && p + 5 <= |v|
    && Letter(v[p], 'c', 'C') && Letter(v[p + 1], 'l', 'L') && Letter(v[p + 2], 'o', 'O')
    && Letter(v[p + 3], 's', 'S') && Letter(v[p + 4], 'e', 'E')
  }

  predicate SaysClose(v: bytes) {
    exists p :: 0 <= p <= |v| - 5 && CloseAt(v, p)
  }

  lemma LowerLetter(c: byte, small: byte)
    requires 'a' <= small <= 'z'
    ensures LowerChar(c) == small <==> Letter(c, small, (small as int - 32) as char)
  {
  }

  lemma FiveLetters(low: bytes, p: nat, a: byte, b: byte, c: byte, d: byte, e: byte)
    requires p + 5 <= |low|
    ensures OccursAt(low, [a, b, c, d, e], p) <==>
              low[p] == a && low[p + 1] == b && low[p + 2] == c && low[p + 3] == d && low[p + 4] == e
  {
    if OccursAt(low, [a, b, c, d, e], p) {
      OccursIndex(low, [a, b, c, d, e], p);
    } else {
      assert |low[p..p + 5]| == 5;
    }
  }

  lemma LowerCloseAt(v: bytes, p: nat)
    requires p + 5 <= |v|
    ensures OccursAt(Lower(v), "close", p) <==> CloseAt(v, p)
  {
    FiveLetters(Lower(v), p, 'c', 'l', 'o', 's', 'e');
    assert "close" == ['c', 'l', 'o', 's', 'e'];
    LowerLetter(v[p], 'c');
    LowerLetter(v[p + 1], 'l');
    LowerLetter(v[p + 2], 'o');
    LowerLetter(v[p + 3], 's');
    LowerLetter(v[p + 4], 'e');
  }

  lemma ContainsClose(v: bytes)
    ensures Contains(Lower(v), "close") <==> SaysClose(v)
  {
    forall p | 0 <= p <= |v| - 5 ensures OccursAt(Lower(v), "close", p) <==> CloseAt(v, p) {
      LowerCloseAt(v, p);
    }
  }

  /** The last field of that name, if any, asks to close. */
  predicate AsksToClose(pairs: Pairs) {
    exists i :: 0 <= i < |pairs| && LastNamed(pairs, i, "connection") && SaysClose(pairs[i].1)
  }

  lemma KeepAliveIff(version: bytes, pairs: Pairs)
    ensures KeepAlive(version, PairMap(pairs)) <==> version == "HTTP/1.1" && !AsksToClose(pairs)
  {
    var name: bytes, headers := "connection", PairMap(pairs);
    if Named(pairs, name) {
      var i := FindLast(pairs, name);
      LastOfName(pairs, i, name);
      ContainsClose(headers[name]);
      forall j | 0 <= j < |pairs| && LastNamed(pairs, j, name) ensures j == i {
      }
    } else {
      NotNamed(pairs, name);
    }
  }

  // ---- the whole request

  /** The request with these fields, and behind them the length of its body. */
  function Printed(verb: bytes, target: bytes, version: bytes, pairs: Pairs, body: bytes): Message {
    PrintRequest(verb, target, version, HeaderLines(pairs), body)
  }

  predicate CanPrint(verb: bytes, target: bytes, version: bytes, pairs: Pairs, body: bytes) {
    Words(verb, target, version) && PlainPairs(pairs) && |body| <= LONG_MAX
  }

  /** Every field has the value it was given last, and there are no others but the length. */
  ghost predicate FieldsAsGiven(pairs: Pairs, length: bytes, headers: map<bytes, bytes>) {
    && "content-length" in headers && headers["content-length"] == length
    && (forall name, i: nat :: LastNamed(pairs, i, name) && name != "content-length" ==>
          name in headers && headers[name] == pairs[i].1)
    && (forall name :: name in headers ==> name == "content-length" || Named(pairs, name))
  }

  lemma PairsAsGiven(pairs: Pairs, length: bytes)
    ensures FieldsAsGiven(pairs, length, PairMap(pairs)["content-length" := length])
  {
    var headers := PairMap(pairs)["content-length" := length];
    forall name, i: nat | LastNamed(pairs, i, name) && name != "content-length"
      ensures name in headers && headers[name] == pairs[i].1
    {
      LastOfName(pairs, i, name);
    }
    forall name | name in headers && name != "content-length" ensures Named(pairs, name) {
      if !Named(pairs, name) {
        NotNamed(pairs, name);
      }
    }
  }

  lemma PrintedDecodes(verb: bytes, target: bytes, version: bytes, pairs: Pairs, body: bytes)
    requires CanPrint(verb, target, version, pairs, body)
    ensures var m, length := Printed(verb, target, version, pairs, body), Print(|body|, 10);
      && HeaderEnd(m.head) == |m.head| > 0
      && DecodeHeader(m.head) == Request(verb, target, version, PairMap(pairs)["content-length" := length])
      && ParseLong(length) == Some(|body|)
  {
    PrintedPairs(pairs);
    PrintedRequestDecodes(verb, target, version, HeaderLines(pairs), body);
  }

  lemma LengthNoMatter(version: bytes, headers: map<bytes, bytes>, length: bytes)
    ensures KeepAlive(version, headers["content-length" := length]) == KeepAlive(version, headers)
  {
    assert |"connection"| != |"content-length"|;
  }

  /** The connection stays open behind a printed request exactly if it has version HTTP/1.1 and its last connection
  field, if any, does not say close in any case. */
  lemma KeepsOpenIff(verb: bytes, target: bytes, version: bytes, pairs: Pairs, body: bytes)
    requires CanPrint(verb, target, version, pairs, body)
    ensures KeepsOpen(Printed(verb, target, version, pairs, body))
       <==> version == "HTTP/1.1" && !AsksToClose(pairs)
  {
    PrintedDecodes(verb, target, version, pairs, body);
    LengthNoMatter(version, PairMap(pairs), Print(|body|, 10));
    KeepAliveIff(version, pairs);
  }

  /** What the handler gets of a request, and where the session is behind it. */
  ghost predicate ServedAs(
      r: Outcome, verb: bytes, target: bytes, version: bytes, pairs: Pairs, body: bytes, location: Location)
  {
    && r.Served? && r.view.request.Request?
    && r.view.request.verb == verb && r.view.request.target == target && r.view.request.version == version
    && FieldsAsGiven(pairs, Print(|body|, 10), r.view.request.headers)
    && r.view.location == Some(location) && r.view.body == body
    && (r.open <==> version == "HTTP/1.1" && !AsksToClose(pairs))
    && r.consumed == |Printed(verb, target, version, pairs, body).head| + |body|
  }

  lemma NotAccepted(server: Server, head: bytes, rest: bytes, schedule: nat -> nat, k: nat)
    requires 0 < |head| <= BUFSIZE && HeaderEnd(head) == |head| && DecodeHeader(head).Request?
    requires !Accepted(server, DecodeHeader(head))
    ensures Exchange(server, head + rest, schedule, k)
         == if server.locate(DecodeHeader(head).target) == None then Malformed else Rejected
  {
    WindowShowsHeader(head, rest);
    ScheduleIrrelevant(server, head + rest, schedule, k);
  }

  /** Whatever follows a printed request and however it arrives: the handler gets the printed verb, target, version,
  fields and body, unless the target is malformed or the verb unknown. */
  lemma PrintedRequestServed(
      methods: set<bytes>, decode: Percent, verb: bytes, target: bytes, version: bytes, pairs: Pairs, body: bytes,
      after: bytes, schedule: nat -> nat, k: nat)
    requires CanPrint(verb, target, version, pairs, body)
    requires |Printed(verb, target, version, pairs, body).head| <= 8192
    ensures var m := Printed(verb, target, version, pairs, body);
      var r := Exchange(HttpServer(methods, decode), m.head + m.body + after, schedule, k);
      if Locate(decode, target) == None then r == Malformed
      else if verb !in methods then r == Rejected
      else ServedAs(r, verb, target, version, pairs, body, Locate(decode, target).value)
  {
    var m, server := Printed(verb, target, version, pairs, body), HttpServer(methods, decode);
    PrintedDecodes(verb, target, version, pairs, body);
    assert server.locate(target) == Locate(decode, target);
    if Accepted(server, DecodeHeader(m.head)) {
      ExchangeFramed(server, m, after, schedule, k);
      KeepsOpenIff(verb, target, version, pairs, body);
      PairsAsGiven(pairs, Print(|body|, 10));
    } else {
      AppendAssociates(m.head, m.body, after);
      NotAccepted(server, m.head, m.body + after, schedule, k);
    }
  }

  /** The same for a target that is a path and a query. */
  lemma PathAndQueryServed(
      methods: set<bytes>, decode: Percent, verb: bytes, path: bytes, pieces: seq<Piece>, version: bytes,
      pairs: Pairs, body: bytes, after: bytes, schedule: nat -> nat, k: nat)
    requires Without(path, '?') && AllPlain(pieces)
    requires CanPrint(verb, path + ['?'] + Joined(pieces), version, pairs, body)
    requires |Printed(verb, path + ['?'] + Joined(pieces), version, pairs, body).head| <= 8192
    ensures var m := Printed(verb, path + ['?'] + Joined(pieces), version, pairs, body);
      var r := Exchange(HttpServer(methods, decode), m.head + m.body + after, schedule, k);
      if decode(path) == None || AnyMalformed(decode, pieces) then r == Malformed
      else if verb !in methods then r == Rejected
      else r.Served? && r.view.location.Some? && r.view.location.value.0 == decode(path).value
           && LastValues(decode, pieces, r.view.location.value.1)
  {
    LocateQuery(decode, path, pieces);
    PrintedRequestServed(
      methods, decode, verb, path + ['?'] + Joined(pieces), version, pairs, body, after, schedule, k);
  }

  /** A length that is not a number is an error, for every schedule. */
  lemma UnreadableLength(
      methods: set<bytes>, decode: Percent, head: bytes, rest: bytes, schedule: nat -> nat, k: nat)
    requires 0 < |head| <= 8192 && HeaderEnd(head) == |head|
    requires Accepted(HttpServer(methods, decode), DecodeHeader(head))
    requires var headers := DecodeHeader(head).headers;
             "content-length" in headers && ParseLong(headers["content-length"]) == None
    ensures Exchange(HttpServer(methods, decode), head + rest, schedule, k) == BadLength
  {
    WindowShowsHeader(head, rest);
    ScheduleIrrelevant(HttpServer(methods, decode), head + rest, schedule, k);
  }

  /** If the stream lets through as much as is asked for, a body is read in pieces of 512 bytes. */
  lemma {:induction false} FullReads(avail: nat, size: nat, schedule: nat -> nat, k: nat)
    requires size <= avail && forall j :: schedule(j) >= 512
    ensures BodyReadBy(avail, size, schedule, k) == k + (size + 511) / 512
    decreases avail
  {
    if size > 0 {
      var n := if size < 512 then size else 512;
      assert n == Grant(schedule(k), Min(Min(size, REQUEST_BUFFER_LEN), avail));
      FullReads(avail - n, size - n, schedule, k + 1);
    }
  }

  // ---- the end of a connection

  /** A request that closes ends the stream, whatever is behind it. */
  lemma ClosingEnds(before: seq<Message>, m: Message, behind: bytes)
    requires forall x :: x in before ==> KeepsOpen(x)
    requires !KeepsOpen(m)
    ensures Framed(before + [m], behind)
  {
    var msgs := before + [m];
    assert forall i :: 0 <= i < |msgs| - 1 ==> msgs[i] == before[i];
    assert msgs[|msgs| - 1] == m;
  }

  /** The session serves nothing behind a request of another version or one that asks to close. */
  method RunStopsBehind(
      session: HttpSession, ghost before: seq<Message>, ghost verb: bytes, ghost target: bytes, ghost version: bytes,
      ghost pairs: Pairs, ghost body: bytes, ghost behind: bytes) returns (log: seq<View>)
    requires CanPrint(verb, target, version, pairs, body) && (version != "HTTP/1.1" || AsksToClose(pairs))
    requires forall x :: x in before ==> KeepsOpen(x)
    requires var msgs := before + [Printed(verb, target, version, pairs, body)];
      && session.input.Valid() && session.input.data[session.input.pos..] == Stream(msgs) + behind
      && Delivered(session.server, msgs, behind, session.input.schedule, session.input.readCount)
    modifies session, session.input
    ensures log == Log(session.server, before + [Printed(verb, target, version, pairs, body)])
    ensures session.input.pos <= |session.input.data| && session.input.data[session.input.pos..] == behind
  {
    ghost var m := Printed(verb, target, version, pairs, body);
    KeepsOpenIff(verb, target, version, pairs, body);
    ClosingEnds(before, m, behind);
    log := session.Run(before + [m], behind);
  }

  // ---- verbs

  /** The verbs of the server, and no others. */
  lemma Verbs(verb: bytes)
    ensures verb in METHODS <==>
      || verb == "GET" || verb == "PUT" || verb == "POST" || verb == "DELETE" || verb == "HEAD" || verb == "OPTIONS"
      || verb == "TRACE" || verb == "CONNECT" || verb == "PATCH" || verb == "PROPFIND" || verb == "PROPPATCH"
      || verb == "MKCOL" || verb == "MOVE" || verb == "COPY" || verb == "LOCK" || verb == "UNLOCK"
  {
  }
}

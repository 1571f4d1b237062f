/** What the query decoders make of a query that was put together from names and values. */
module QueryMeaning {
  import opened Octets
  import opened Query

  /** A piece between ampersands; without a value there is no equals sign. */
  datatype Piece = Piece(name: bytes, value: Option<bytes>)

  predicate Without(s: bytes, c: byte) {
    forall i :: 0 <= i < |s| ==> s[i] != c
  }

  predicate Plain(e: Piece) {
    && Without(e.name, '&') && Without(e.name, '=')
    && (e.value.Some? ==> Without(e.value.value, '&'))
    && (e.value == None ==> e.name != [])
  }

  predicate AllPlain(pieces: seq<Piece>) {
    forall i :: 0 <= i < |pieces| ==> Plain(pieces[i])
  }

  function Text(e: Piece): bytes {
    match e.value case None => e.name case Some(v) => e.name + ['='] + v
  }

  function Joined(pieces: seq<Piece>): bytes
    decreases |pieces|
  {
    if pieces == [] then []
    else if |pieces| == 1 then Text(pieces[0])
    else Text(pieces[0]) + ['&'] + Joined(pieces[1..])
  }

  // ---- what should come out

  predicate Malformed(decode: Percent, e: Piece) {
    decode(e.name) == None || (e.value.Some? && decode(e.value.value) == None)
  }

  ghost predicate AnyMalformed(decode: Percent, pieces: seq<Piece>) {
    exists i :: 0 <= i < |pieces| && Malformed(decode, pieces[i])
  }

  /** The piece gives something to the name k. */
  predicate Gives(decode: Percent, e: Piece, k: bytes) {
    decode(e.name).Some? && Trim(decode(e.name).value) == k
  }

  /** Some piece does. */
  ghost predicate Any(decode: Percent, pieces: seq<Piece>, k: bytes) {
    exists i :: 0 <= i < |pieces| && Gives(decode, pieces[i], k)
  }

  /** The decoded value of a piece, empty if it has none. */
  function Given(decode: Percent, e: Piece): bytes
    requires !Malformed(decode, e)
  {
    match e.value case None => "" case Some(v) => decode(v).value
  }

  predicate IsLast(decode: Percent, pieces: seq<Piece>, i: nat, k: bytes) {
    && i < |pieces| && Gives(decode, pieces[i], k)
    && forall j :: i < j < |pieces| ==> !Gives(decode, pieces[j], k)
  }

  /** The names of the pieces, each with the decoded value of its last piece. */
  ghost predicate LastValues(decode: Percent, pieces: seq<Piece>, m: map<bytes, bytes>)
    requires !AnyMalformed(decode, pieces)
  {
    && (forall k :: k in m <==> Any(decode, pieces, k))
    && (forall k, i: nat :: IsLast(decode, pieces, i, k) ==> k in m && m[k] == Given(decode, pieces[i]))
  }

  /** All decoded values that the pieces give to the name k, in order. */
  function AllGiven(decode: Percent, pieces: seq<Piece>, k: bytes): seq<bytes>
    requires !AnyMalformed(decode, pieces)
  {
    if pieces == [] then []
    else
      var last, front := pieces[|pieces| - 1], pieces[..|pieces| - 1];
      MalformedFront(decode, pieces);
      AllGiven(decode, front, k) + (if Gives(decode, last, k) && last.value.Some? then [Given(decode, last)] else [])
  }

  lemma MalformedFront(decode: Percent, pieces: seq<Piece>)
    requires pieces != [] && !AnyMalformed(decode, pieces)
    ensures !AnyMalformed(decode, pieces[..|pieces| - 1]) && !Malformed(decode, pieces[|pieces| - 1])
  {
    assert forall i :: 0 <= i < |pieces| - 1 ==> pieces[..|pieces| - 1][i] == pieces[i];
  }

  ghost predicate AllValues(decode: Percent, pieces: seq<Piece>, m: map<bytes, seq<bytes>>)
    requires !AnyMalformed(decode, pieces)
  {
    && (forall k :: k in m <==> Any(decode, pieces, k))
    && forall k :: k in m ==> m[k] == AllGiven(decode, pieces, k)
  }

  // ---- the tokens of a joined query

  lemma TextOf(e: Piece)
    requires Plain(e)
    ensures Text(e) != [] && Without(Text(e), '&')
    ensures IndexFrom(Text(e), '=', 0) == |e.name| && HasValue(Text(e)) == e.value.Some?
    ensures Text(e)[..|e.name|] == e.name
    ensures e.value.Some? ==> Text(e)[|e.name| + 1..] == e.value.value
  {
    var t, n := Text(e), |e.name|;
    assert forall i :: 0 <= i < n ==> t[i] == e.name[i];
    assert forall i :: n < i < |t| ==> t[i] == e.value.value[i - n - 1];
    if e.value.Some? {
      IndexFromUnique(t, '=', 0, n);
    } else {
      assert t[IndexFrom(t, '=', 0)..] == [];
    }
  }

  lemma FirstPiece(t: bytes, rest: bytes)
    requires t != [] && Without(t, '&')
    ensures Tokens(t) == [t] && Tokens(t + ['&'] + rest) == [t] + Tokens(rest)
  {
    var s := t + ['&'] + rest;
    assert forall i :: 0 <= i < |t| ==> s[i] == t[i];
    IndexFromUnique(s, '&', 0, |t|);
    assert s[..|t|] == t && s[|t| + 1..] == rest && t[..|t|] == t;
  }

  function Texts(pieces: seq<Piece>): seq<bytes> {
    seq(|pieces|, i requires 0 <= i < |pieces| => Text(pieces[i]))
  }

  lemma {:induction false} JoinedTokens(pieces: seq<Piece>)
    requires AllPlain(pieces)
    ensures Tokens(Joined(pieces)) == Texts(pieces)
    decreases |pieces|
  {
    if pieces != [] {
      TextOf(pieces[0]);
      TextsCons(pieces);
      FirstPiece(Text(pieces[0]), Joined(pieces[1..]));
      if |pieces| > 1 {
        JoinedTokens(pieces[1..]);
      }
    }
  }

  lemma TextsCons(pieces: seq<Piece>)
    requires pieces != []
    ensures Texts(pieces) == [Text(pieces[0])] + Texts(pieces[1..])
    ensures |pieces| == 1 ==> Texts(pieces) == [Text(pieces[0])]
  {
  }

  lemma ConsPlain(e: Piece, rest: seq<Piece>)
    requires Plain(e) && AllPlain(rest)
    ensures AllPlain([e] + rest) && Tokens(Joined([e] + rest)) == [Text(e)] + Tokens(Joined(rest))
  {
    var pieces := [e] + rest;
    assert pieces[1..] == rest && AllPlain(pieces);
    JoinedTokens(pieces);
    JoinedTokens(rest);
    TextsCons(pieces);
  }

  /** Further ampersands change nothing. */
  lemma EmptyPieces(t: bytes, rest: bytes)
    requires t != [] && Without(t, '&')
    ensures Tokens("&" + rest) == Tokens(rest)
    ensures Tokens(t + ['&'] + ("&" + rest)) == Tokens(t + ['&'] + rest)
  {
    var s := "&" + rest;
    IndexFromUnique(s, '&', 0, 0);
    assert s[1..] == rest;
    FirstPiece(t, rest);
    FirstPiece(t, s);
  }

  // ---- the decoders

  lemma NameGives(decode: Percent, e: Piece, k: bytes)
    requires Plain(e)
    ensures NameOf(decode, Text(e)) == Some(k) <==> Gives(decode, e, k)
    ensures Decodes(decode, Text(e)) <==> !Malformed(decode, e)
    ensures HasValue(Text(e)) == e.value.Some?
    ensures HasValue(Text(e)) ==> ValueOf(decode, Text(e)) == decode(e.value.value)
  {
    TextOf(e);
  }

  lemma TextsFront(pieces: seq<Piece>)
    requires pieces != []
    ensures Texts(pieces)[..|pieces| - 1] == Texts(pieces[..|pieces| - 1])
    ensures Texts(pieces)[|pieces| - 1] == Text(pieces[|pieces| - 1]) && |Texts(pieces)| == |pieces|
  {
  }

  lemma {:induction false} NamesOf(decode: Percent, pieces: seq<Piece>, k: bytes)
    requires AllPlain(pieces)
    ensures LastToken(decode, Texts(pieces), k).Some? <==> Any(decode, pieces, k)
    decreases |pieces|
  {
    if pieces != [] {
      var front, last := pieces[..|pieces| - 1], pieces[|pieces| - 1];
      TextsFront(pieces);
      NamesOf(decode, front, k);
      NameGives(decode, last, k);
      AnyFront(decode, pieces, k);
    }
  }

  lemma AnyFront(decode: Percent, pieces: seq<Piece>, k: bytes)
    requires pieces != []
    ensures Any(decode, pieces, k)
       <==> Any(decode, pieces[..|pieces| - 1], k) || Gives(decode, pieces[|pieces| - 1], k)
  {
    var front := pieces[..|pieces| - 1];
    if Any(decode, pieces, k) && !Gives(decode, pieces[|pieces| - 1], k) {
      var i :| 0 <= i < |pieces| && Gives(decode, pieces[i], k);
      assert front[i] == pieces[i];
    }
    if Any(decode, front, k) {
      var i :| 0 <= i < |front| && Gives(decode, front[i], k);
      assert front[i] == pieces[i];
    }
  }

  lemma {:induction false} LastOf(decode: Percent, pieces: seq<Piece>, i: nat, k: bytes)
    requires AllPlain(pieces) && IsLast(decode, pieces, i, k)
    ensures LastToken(decode, Texts(pieces), k) == Some(Text(pieces[i]))
    decreases |pieces|
  {
    var front, last := pieces[..|pieces| - 1], pieces[|pieces| - 1];
    TextsFront(pieces);
    NameGives(decode, last, k);
    if i < |front| {
      assert front[i] == pieces[i] && forall j :: 0 <= j < |front| ==> front[j] == pieces[j];
      LastOf(decode, front, i, k);
    }
  }

  lemma {:induction false} ValuesOf(decode: Percent, pieces: seq<Piece>, k: bytes)
    requires AllPlain(pieces) && !AnyMalformed(decode, pieces)
    ensures Values(decode, Texts(pieces), k) == AllGiven(decode, pieces, k)
    decreases |pieces|
  {
    if pieces != [] {
      MalformedFront(decode, pieces);
      TextsFront(pieces);
      ValuesOf(decode, pieces[..|pieces| - 1], k);
      NameGives(decode, pieces[|pieces| - 1], k);
    }
  }

  lemma RejectedIff(decode: Percent, pieces: seq<Piece>)
    requires AllPlain(pieces)
    ensures (forall t :: t in Texts(pieces) ==> Decodes(decode, t)) <==> !AnyMalformed(decode, pieces)
  {
    forall i | 0 <= i < |pieces| ensures Decodes(decode, Texts(pieces)[i]) <==> !Malformed(decode, pieces[i]) {
      NameGives(decode, pieces[i], []);
    }
    if AnyMalformed(decode, pieces) {
      var i :| 0 <= i < |pieces| && Malformed(decode, pieces[i]);
      assert Texts(pieces)[i] in Texts(pieces);
    }
  }

  /** decodeParms on a query put together from names and values: it is rejected exactly if one of them does not
  decode; otherwise every decoded and trimmed name has the decoded value of its last piece. */
  lemma SingleOfPieces(decode: Percent, pieces: seq<Piece>)
    requires AllPlain(pieces)
    ensures var r := AllSingle(decode, map[], Tokens(Joined(pieces)));
      && (r == None <==> AnyMalformed(decode, pieces))
      && (r.Some? ==> LastValues(decode, pieces, r.value))
  {
    var tokens := Texts(pieces);
    JoinedTokens(pieces);
    SingleMeaning(decode, [], map[], tokens);
    assert [] + tokens == tokens;
    RejectedIff(decode, pieces);
    var r := AllSingle(decode, map[], tokens);
    if r.Some? {
      forall k ensures k in r.value <==> Any(decode, pieces, k) {
        NamesOf(decode, pieces, k);
      }
      forall k, i: nat | IsLast(decode, pieces, i, k)
        ensures k in r.value && r.value[k] == Given(decode, pieces[i])
      {
        LastOf(decode, pieces, i, k);
        NameGives(decode, pieces[i], k);
      }
    }
  }

  /** decodeParameters on the same query: every name has all its decoded values, in order. */
  lemma MultiOfPieces(decode: Percent, pieces: seq<Piece>)
    requires AllPlain(pieces)
    ensures var r := AllMulti(decode, map[], Tokens(Joined(pieces)));
      && (r == None <==> AnyMalformed(decode, pieces))
      && (r.Some? ==> AllValues(decode, pieces, r.value))
  {
    var tokens := Texts(pieces);
    JoinedTokens(pieces);
    MultiMeaning(decode, [], map[], tokens);
    assert [] + tokens == tokens;
    RejectedIff(decode, pieces);
    var r := AllMulti(decode, map[], tokens);
    if r.Some? {
      forall k
        ensures k in r.value <==> Any(decode, pieces, k)
        ensures k in r.value ==> r.value[k] == AllGiven(decode, pieces, k)
      {
        NamesOf(decode, pieces, k);
        ValuesOf(decode, pieces, k);
      }
    }
  }

  /** Every query has the tokens of a query put together from pieces. */
  lemma {:induction false} EveryQuery(query: bytes) returns (pieces: seq<Piece>)
    ensures AllPlain(pieces) && Tokens(query) == Tokens(Joined(pieces))
    decreases |query|
  {
    if query == [] {
      pieces := [];
    } else {
      var q := IndexFrom(query, '&', 0);
      TokensStep(query);
      var rest := EveryQuery(Behind(query, q));
      if q == 0 {
        pieces := rest;
      } else {
        var e := PieceOf(query[..q]);
        ConsPlain(e, rest);
        pieces := [e] + rest;
      }
    }
  }

  lemma PieceOf(token: bytes) returns (e: Piece)
    requires token != [] && Without(token, '&')
    ensures Plain(e) && Text(e) == token
  {
    var n := IndexFrom(token, '=', 0);
    if n < |token| {
      e := Piece(token[..n], Some(token[n + 1..]));
      assert token == token[..n] + ['='] + token[n + 1..];
    } else {
      e := Piece(token, None);
    }
  }
}

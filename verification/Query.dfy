/** The two decoders of a query string: one value per name, or all values per name. */
module Query {
  import opened Octets

  /** URLDecoder.decode; None is its IllegalArgumentException. */
  type Percent = bytes -> Option<bytes>

  /** The tokens of StringTokenizer(s, "&"): the non-empty pieces between ampersands. */
  function Tokens(s: bytes): seq<bytes>
    decreases |s|
  {
    if s == [] then []
    else
      var q := IndexFrom(s, '&', 0);
      (if q == 0 then [] else [s[..q]]) + (if q == |s| then [] else Tokens(s[q + 1..]))
  }

  predicate HasValue(token: bytes) {
    IndexFrom(token, '=', 0) < |token|
  }

  function NameOf(decode: Percent, token: bytes): Option<bytes> {
    match decode(token[..IndexFrom(token, '=', 0)])
    case None => None
    case Some(n) => Some(Trim(n))
  }

  function ValueOf(decode: Percent, token: bytes): Option<bytes>
    requires HasValue(token)
  {
    decode(token[IndexFrom(token, '=', 0) + 1..])
  }

  predicate Decodes(decode: Percent, token: bytes) {
    NameOf(decode, token).Some? && (HasValue(token) ==> ValueOf(decode, token).Some?)
  }

  /** The last token of a name: the one that decides its single value. */
  function LastToken(decode: Percent, tokens: seq<bytes>, name: bytes): (t: Option<bytes>)
    ensures t.Some? ==> NameOf(decode, t.value) == Some(name)
  {
    if tokens == [] then None
    else if NameOf(decode, tokens[|tokens| - 1]) == Some(name) then Some(tokens[|tokens| - 1])
    else LastToken(decode, tokens[..|tokens| - 1], name)
  }

  /** All values given to a name, in order. */
  function Values(decode: Percent, tokens: seq<bytes>, name: bytes): seq<bytes> {
    if tokens == [] then []
    else
      var last, before := tokens[|tokens| - 1], Values(decode, tokens[..|tokens| - 1], name);
      if NameOf(decode, last) == Some(name) && HasValue(last) && ValueOf(decode, last).Some?
      then before + [ValueOf(decode, last).value]
      else before
  }

  /** What both maps must hold after the tokens: the same names, each with its last value or "", or with all
  its values. */
  ghost predicate SingleHolds(decode: Percent, tokens: seq<bytes>, m: map<bytes, bytes>) {
    && (forall k :: k in m <==> LastToken(decode, tokens, k).Some?)
    && forall k :: k in m ==>
         var t := LastToken(decode, tokens, k).value;
         m[k] == if HasValue(t) && ValueOf(decode, t).Some? then ValueOf(decode, t).value else ""
  }

  ghost predicate MultiHolds(decode: Percent, tokens: seq<bytes>, m: map<bytes, seq<bytes>>) {
    && (forall k :: k in m <==> LastToken(decode, tokens, k).Some?)
    && forall k :: k in m ==> m[k] == Values(decode, tokens, k)
  }

  lemma LastTokenSnoc(decode: Percent, tokens: seq<bytes>, token: bytes, name: bytes)
    ensures LastToken(decode, tokens + [token], name)
         == if NameOf(decode, token) == Some(name) then Some(token) else LastToken(decode, tokens, name)
    ensures Values(decode, tokens + [token], name)
         == Values(decode, tokens, name)
            + (if NameOf(decode, token) == Some(name) && HasValue(token) && ValueOf(decode, token).Some?
               then [ValueOf(decode, token).value] else [])
  {
    assert (tokens + [token])[..|tokens|] == tokens;
  }

  /** What a token does to the map of single values; None is the exception of a malformed token. */
  function PutSingle(decode: Percent, p: map<bytes, bytes>, e: bytes): Option<map<bytes, bytes>> {
    match NameOf(decode, e)
    case None => None
    case Some(name) =>
      if !HasValue(e) then Some(p[name := ""])
      else
        match ValueOf(decode, e)
        case None => None
        case Some(v) => Some(p[name := v])
  }

  function PutMulti(decode: Percent, p: map<bytes, seq<bytes>>, e: bytes): Option<map<bytes, seq<bytes>>> {
    match NameOf(decode, e)
    case None => None
    case Some(name) =>
      var known := if name in p then p else p[name := []];
      if !HasValue(e) then Some(known)
      else
        match ValueOf(decode, e)
        case None => None
        case Some(v) => Some(known[name := known[name] + [v]])
  }

  function AllSingle(decode: Percent, p: map<bytes, bytes>, tokens: seq<bytes>): Option<map<bytes, bytes>>
    decreases |tokens|
  {
    if tokens == [] then Some(p)
    else
      match PutSingle(decode, p, tokens[0])
      case None => None
      case Some(p') => AllSingle(decode, p', tokens[1..])
  }

  function AllMulti(decode: Percent, p: map<bytes, seq<bytes>>, tokens: seq<bytes>): Option<map<bytes, seq<bytes>>>
    decreases |tokens|
  {
    if tokens == [] then Some(p)
    else
      match PutMulti(decode, p, tokens[0])
      case None => None
      case Some(p') => AllMulti(decode, p', tokens[1..])
  }

  /** What is left behind the first ampersand. */
  function Behind(s: bytes, q: nat): bytes {
    if q >= |s| then [] else s[q + 1..]
  }

  lemma TokensStep(rest: bytes)
    requires rest != []
    ensures var q := IndexFrom(rest, '&', 0);
      Tokens(rest) == if q == 0 then Tokens(Behind(rest, q)) else [rest[..q]] + Tokens(Behind(rest, q))
  {
  }

  lemma SingleNext(decode: Percent, p: map<bytes, bytes>, rest: bytes)
    requires rest != []
    ensures var q := IndexFrom(rest, '&', 0);
      AllSingle(decode, p, Tokens(rest))
      == if q == 0 then AllSingle(decode, p, Tokens(Behind(rest, q)))
         else match PutSingle(decode, p, rest[..q])
              case None => None
              case Some(p') => AllSingle(decode, p', Tokens(Behind(rest, q)))
  {
    TokensStep(rest);
    SingleCons(decode, p, rest[..IndexFrom(rest, '&', 0)], Tokens(Behind(rest, IndexFrom(rest, '&', 0))));
  }

  lemma SingleCons(decode: Percent, p: map<bytes, bytes>, e: bytes, tokens: seq<bytes>)
    ensures AllSingle(decode, p, [e] + tokens)
         == match PutSingle(decode, p, e) case None => None case Some(p') => AllSingle(decode, p', tokens)
  {
    assert ([e] + tokens)[1..] == tokens;
  }

  lemma MultiNext(decode: Percent, p: map<bytes, seq<bytes>>, rest: bytes)
    requires rest != []
    ensures var q := IndexFrom(rest, '&', 0);
      AllMulti(decode, p, Tokens(rest))
      == if q == 0 then AllMulti(decode, p, Tokens(Behind(rest, q)))
         else match PutMulti(decode, p, rest[..q])
              case None => None
              case Some(p') => AllMulti(decode, p', Tokens(Behind(rest, q)))
  {
    TokensStep(rest);
    MultiCons(decode, p, rest[..IndexFrom(rest, '&', 0)], Tokens(Behind(rest, IndexFrom(rest, '&', 0))));
  }

  lemma MultiCons(decode: Percent, p: map<bytes, seq<bytes>>, e: bytes, tokens: seq<bytes>)
    ensures AllMulti(decode, p, [e] + tokens)
         == match PutMulti(decode, p, e) case None => None case Some(p') => AllMulti(decode, p', tokens)
  {
    assert ([e] + tokens)[1..] == tokens;
  }

  /** One token of decodeParms. */
  method PutParm(decode: Percent, e: bytes, before: map<bytes, bytes>) returns (p: Option<map<bytes, bytes>>)
    ensures p == PutSingle(decode, before, e)
  {
    var sep := IndexFrom(e, '=', 0);
    var key := decode(e[..sep]);
    if key == None {
      return None;
    }
    if sep == |e| {
      return Some(before[Trim(key.value) := ""]);
    }
    var value := decode(e[sep + 1..]);
    if value == None {
      return None;
    }
    return Some(before[Trim(key.value) := value.value]);
  }

  /** decodeParms, adding to a map. */
  method DecodeParms(decode: Percent, parms: bytes, before: map<bytes, bytes>)
      returns (r: Option<map<bytes, bytes>>)
    ensures r == AllSingle(decode, before, Tokens(parms))
  {
    var p, rest := before, parms;
    while rest != []
      invariant AllSingle(decode, before, Tokens(parms)) == AllSingle(decode, p, Tokens(rest))
      decreases |rest|
    {
      SingleNext(decode, p, rest);
      var q := IndexFrom(rest, '&', 0);
      if q > 0 {
        var next := PutParm(decode, rest[..q], p);
        if next == None {
          return None;
        }
        p := next.value;
      }
      rest := Behind(rest, q);
    }
    return Some(p);
  }

  /** One token of decodeParameters. */
  method PutParameter(decode: Percent, e: bytes, before: map<bytes, seq<bytes>>)
      returns (r: Option<map<bytes, seq<bytes>>>)
    ensures r == PutMulti(decode, before, e)
  {
    var p, sep := before, IndexFrom(e, '=', 0);
    var key := decode(e[..sep]);
    if key == None {
      return None;
    }
    var name := Trim(key.value);
    if name !in p {
      p := p[name := []];
    }
    if sep < |e| {
      var value := decode(e[sep + 1..]);
      if value == None {
        return None;
      }
      p := p[name := p[name] + [value.value]];
    }
    return Some(p);
  }

  /** decodeParameters. */
  method DecodeParameters(decode: Percent, queryString: bytes) returns (r: Option<map<bytes, seq<bytes>>>)
    ensures r == AllMulti(decode, map[], Tokens(queryString))
  {
    var p: map<bytes, seq<bytes>>, rest := map[], queryString;
    while rest != []
      invariant AllMulti(decode, map[], Tokens(queryString)) == AllMulti(decode, p, Tokens(rest))
      decreases |rest|
    {
      MultiNext(decode, p, rest);
      var q := IndexFrom(rest, '&', 0);
      if q > 0 {
        var next := PutParameter(decode, rest[..q], p);
        if next == None {
          return None;
        }
        p := next.value;
      }
      rest := Behind(rest, q);
    }
    return Some(p);
  }

  // ---- what the maps hold

  lemma SingleStep(decode: Percent, done: seq<bytes>, p: map<bytes, bytes>, e: bytes)
    requires SingleHolds(decode, done, p)
    ensures PutSingle(decode, p, e).Some? <==> Decodes(decode, e)
    ensures PutSingle(decode, p, e).Some? ==> SingleHolds(decode, done + [e], PutSingle(decode, p, e).value)
  {
    forall k ensures LastToken(decode, done + [e], k)
                  == if NameOf(decode, e) == Some(k) then Some(e) else LastToken(decode, done, k) {
      LastTokenSnoc(decode, done, e, k);
    }
  }

  lemma MultiStep(decode: Percent, done: seq<bytes>, p: map<bytes, seq<bytes>>, e: bytes)
    requires MultiHolds(decode, done, p)
    ensures PutMulti(decode, p, e).Some? <==> Decodes(decode, e)
    ensures PutMulti(decode, p, e).Some? ==> MultiHolds(decode, done + [e], PutMulti(decode, p, e).value)
  {
    if PutMulti(decode, p, e).Some? {
      var name, r := NameOf(decode, e).value, PutMulti(decode, p, e).value;
      forall k ensures k in r <==> LastToken(decode, done + [e], k).Some? {
        LastTokenSnoc(decode, done, e, k);
      }
      forall k | k in r ensures r[k] == Values(decode, done + [e], k) {
        LastTokenSnoc(decode, done, e, k);
        if k == name && name !in p {
          NoTokenNoValue(decode, done, name);
        }
      }
    }
  }

  lemma {:induction false} SingleMeaning(decode: Percent, done: seq<bytes>, p: map<bytes, bytes>, tokens: seq<bytes>)
    requires SingleHolds(decode, done, p)
    ensures AllSingle(decode, p, tokens).Some? <==> forall t :: t in tokens ==> Decodes(decode, t)
    ensures AllSingle(decode, p, tokens).Some? ==>
              SingleHolds(decode, done + tokens, AllSingle(decode, p, tokens).value)
    decreases |tokens|
  {
    if tokens == [] {
      assert done + tokens == done;
    } else {
      SingleStep(decode, done, p, tokens[0]);
      assert forall t :: t in tokens <==> t == tokens[0] || t in tokens[1..];
      if Decodes(decode, tokens[0]) {
        SingleMeaning(decode, done + [tokens[0]], PutSingle(decode, p, tokens[0]).value, tokens[1..]);
        assert done + [tokens[0]] + tokens[1..] == done + tokens;
      }
    }
  }

  lemma {:induction false} MultiMeaning(
      decode: Percent, done: seq<bytes>, p: map<bytes, seq<bytes>>, tokens: seq<bytes>)
    requires MultiHolds(decode, done, p)
    ensures AllMulti(decode, p, tokens).Some? <==> forall t :: t in tokens ==> Decodes(decode, t)
    ensures AllMulti(decode, p, tokens).Some? ==>
              MultiHolds(decode, done + tokens, AllMulti(decode, p, tokens).value)
    decreases |tokens|
  {
    if tokens == [] {
      assert done + tokens == done;
    } else {
      MultiStep(decode, done, p, tokens[0]);
      assert forall t :: t in tokens <==> t == tokens[0] || t in tokens[1..];
      if Decodes(decode, tokens[0]) {
        MultiMeaning(decode, done + [tokens[0]], PutMulti(decode, p, tokens[0]).value, tokens[1..]);
        assert done + [tokens[0]] + tokens[1..] == done + tokens;
      }
    }
  }

  lemma {:induction false} NoTokenNoValue(decode: Percent, tokens: seq<bytes>, name: bytes)
    requires LastToken(decode, tokens, name) == None
    ensures Values(decode, tokens, name) == []
    decreases |tokens|
  {
    if tokens != [] {
      NoTokenNoValue(decode, tokens[..|tokens| - 1], name);
    }
  }

  lemma {:induction false} LastValue(decode: Percent, tokens: seq<bytes>, name: bytes)
    requires LastToken(decode, tokens, name).Some? && HasValue(LastToken(decode, tokens, name).value)
    requires ValueOf(decode, LastToken(decode, tokens, name).value).Some?
    ensures var vs := Values(decode, tokens, name);
            vs != [] && vs[|vs| - 1] == ValueOf(decode, LastToken(decode, tokens, name).value).value
    decreases |tokens|
  {
    if NameOf(decode, tokens[|tokens| - 1]) != Some(name) {
      LastValue(decode, tokens[..|tokens| - 1], name);
    }
  }

  lemma {:induction false} LastTokenIn(decode: Percent, tokens: seq<bytes>, name: bytes)
    requires LastToken(decode, tokens, name).Some?
    ensures LastToken(decode, tokens, name).value in tokens
    decreases |tokens|
  {
    if NameOf(decode, tokens[|tokens| - 1]) != Some(name) {
      LastTokenIn(decode, tokens[..|tokens| - 1], name);
    }
  }

  /** The name's last token has a value, or it has none and the last value given to the name is empty anyway. */
  predicate LastCounts(decode: Percent, tokens: seq<bytes>, name: bytes)
    requires LastToken(decode, tokens, name).Some?
  {
    var vs := Values(decode, tokens, name);
    HasValue(LastToken(decode, tokens, name).value) || (vs != [] && vs[|vs| - 1] == "")
  }

  /** The decoders agree on every query string: they reject the same strings and know the same names, and
  for a name the single value is the last of the list exactly when the last token of the name has a value,
  or has none and the last value is empty anyway. */
  lemma DecodersAgree(decode: Percent, query: bytes)
    ensures var tokens := Tokens(query);
            var single, multi := AllSingle(decode, map[], tokens), AllMulti(decode, map[], tokens);
            && (single.Some? <==> multi.Some?)
            && (single.Some? ==>
                  && single.value.Keys == multi.value.Keys
                  && forall k :: k in single.value ==>
                       var vs := multi.value[k];
                       LastToken(decode, tokens, k).Some?
                       && ((vs != [] && single.value[k] == vs[|vs| - 1]) <==> LastCounts(decode, tokens, k)))
  {
    var tokens := Tokens(query);
    SingleMeaning(decode, [], map[], tokens);
    MultiMeaning(decode, [], map[], tokens);
    assert [] + tokens == tokens;
    var single, multi := AllSingle(decode, map[], tokens), AllMulti(decode, map[], tokens);
    if single.Some? {
      forall k | k in single.value
        ensures var vs := multi.value[k];
                (vs != [] && single.value[k] == vs[|vs| - 1]) <==> LastCounts(decode, tokens, k)
      {
        LastTokenIn(decode, tokens, k);
        if HasValue(LastToken(decode, tokens, k).value) {
          LastValue(decode, tokens, k);
        }
      }
    }
  }

  /** A query on which they differ: the name's last token has no value, and the single value is empty. */
  lemma DecodersDiffer()
    ensures var decode: Percent := s => Some(s);
            var tokens := Tokens("a=1&a");
            && AllSingle(decode, map[], tokens) == Some(map["a" := ""])
            && AllMulti(decode, map[], tokens) == Some(map["a" := ["1"]])
  {
    var decode: Percent := s => Some(s);
    var query: bytes, first: bytes, second: bytes, none: seq<bytes> := "a=1&a", "a=1", "a", [];
    IndexFromUnique(query, '&', 0, 3);
    assert query[..3] == first && query[4..] == second;
    assert IndexFrom(second, '&', 0) == 1;
    assert second[..1] == second;
    assert Tokens(query) == [first] + ([second] + none) == [first, second];
    IndexFromUnique(first, '=', 0, 1);
    assert IndexFrom(second, '=', 0) == 1;
    assert first[..1] == second && first[2..] == "1";
    assert [first, second][1..] == [second] && [second][1..] == none;
    TakeTwo(decode, first, second);
  }

  lemma PutAgain<V>(name: bytes, a: V, b: V)
    ensures map[name := a][name := b] == map[name := b]
  {
  }

  lemma TakeTwo(decode: Percent, first: bytes, second: bytes)
    requires NameOf(decode, first) == Some(second) && HasValue(first) && ValueOf(decode, first).Some?
    requires NameOf(decode, second) == Some(second) && !HasValue(second)
    ensures AllSingle(decode, map[], [first, second]) == Some(map[second := ""])
    ensures AllMulti(decode, map[], [first, second]) == Some(map[second := [ValueOf(decode, first).value]])
  {
    var none: seq<bytes>, v := [], ValueOf(decode, first).value;
    assert [first, second][1..] == [second] && [second][1..] == none;
    PutAgain(second, v, "");
    PutAgain(second, none, [v]);
    assert none + [v] == [v];
    assert PutSingle(decode, map[], first) == Some(map[second := v]);
    assert PutSingle(decode, map[second := v], second) == Some(map[second := ""]);
    assert AllSingle(decode, map[second := v], [second]) == AllSingle(decode, map[second := ""], none);
    assert PutMulti(decode, map[], first) == Some(map[second := [v]]);
    assert PutMulti(decode, map[second := [v]], second) == Some(map[second := [v]]);
    assert AllMulti(decode, map[second := [v]], [second]) == AllMulti(decode, map[second := [v]], none);
  }
}

/** How the text of a header is read: white space, letters, line ends, request lines, fields and numbers. */
module HeaderMeaning {
  import opened Octets
  import opened Lines
  import opened Numerals
  import opened Requests
  import opened QueryMeaning

  const CAPITALS: bytes := "ABCDEFGHIJKLMNOPQRSTUVWXYZ"
  const SMALL: bytes := "abcdefghijklmnopqrstuvwxyz"

  // ---- characters

  /** Capital letters become small, and nothing else changes. */
  lemma LowerMeaning(s: bytes, i: nat)
    requires i < |s|
    ensures forall k :: 0 <= k < 26 && s[i] == CAPITALS[k] ==> Lower(s)[i] == SMALL[k]
    ensures (forall k :: 0 <= k < 26 ==> s[i] != CAPITALS[k]) ==> Lower(s)[i] == s[i]
  {
    CapitalCodes();
    if 'A' <= s[i] <= 'Z' {
      assert s[i] == CAPITALS[s[i] as int - 65];
    }
  }

  lemma CapitalCodes()
    ensures forall k :: 0 <= k < 26 ==> CAPITALS[k] as int == 65 + k && SMALL[k] as int == 97 + k
  {
  }

  predicate Space(s: bytes) {
    forall i :: 0 <= i < |s| ==> s[i] as int <= 32
  }

  lemma {:induction false} LeftOf(s: bytes) returns (pre: bytes)
    ensures Space(pre) && s == pre + TrimLeft(s) && (TrimLeft(s) != [] ==> TrimLeft(s)[0] as int > 32)
    decreases |s|
  {
    pre := [];
    if s != [] && s[0] <= ' ' {
      var more := LeftOf(s[1..]);
      pre := [s[0]] + more;
      assert s == [s[0]] + s[1..];
    }
  }

  lemma {:induction false} RightOf(s: bytes) returns (post: bytes)
    ensures Space(post) && s == TrimRight(s) + post
    ensures TrimRight(s) != [] ==> TrimRight(s)[|TrimRight(s)| - 1] as int > 32
    decreases |s|
  {
    post := [];
    if s != [] && s[|s| - 1] <= ' ' {
      var more := RightOf(s[..|s| - 1]);
      post := more + [s[|s| - 1]];
      assert s == s[..|s| - 1] + [s[|s| - 1]];
    }
  }

  /** Trimming takes away the white space at both ends, and all of it. */
  lemma TrimMeaning(s: bytes) returns (pre: bytes, post: bytes)
    ensures Space(pre) && Space(post) && s == pre + Trim(s) + post
    ensures Trim(s) != [] ==> Trim(s)[0] as int > 32 && Trim(s)[|Trim(s)| - 1] as int > 32
  {
    pre := LeftOf(s);
    post := RightOf(TrimLeft(s));
    assert s == pre + (Trim(s) + post);
    if Trim(s) != [] {
      assert TrimLeft(s)[0] == Trim(s)[0];
    }
  }

  // ---- lines

  /** A carriage return, a line feed, and both together end a line. */
  lemma LineEnds(line: bytes, after: bytes)
    requires forall i :: 0 <= i < |line| ==> line[i] != '\r' && line[i] != '\n'
    ensures var s := line + "\r\n" + after; LineEnd(s, 0) == |line| && NextLine(s, |line|) == |line| + 2
    ensures var s := line + "\n" + after; LineEnd(s, 0) == |line| && NextLine(s, |line|) == |line| + 1
    ensures after == [] || after[0] != '\n' ==>
              var s := line + "\r" + after; LineEnd(s, 0) == |line| && NextLine(s, |line|) == |line| + 1
  {
    EndsAt(line, "\r\n", after);
    EndsAt(line, "\n", after);
    EndsAt(line, "\r", after);
    if after != [] {
      assert (line + "\r" + after)[|line| + 1] == after[0];
    }
  }

  lemma EndsAt(line: bytes, end: bytes, after: bytes)
    requires forall i :: 0 <= i < |line| ==> line[i] != '\r' && line[i] != '\n'
    requires end != [] && (end[0] == '\r' || end[0] == '\n')
    ensures LineEnd(line + end + after, 0) == |line|
    ensures forall i :: 0 <= i < |end| ==> (line + end + after)[|line| + i] == end[i]
  {
    var s := line + end + after;
    assert forall i :: 0 <= i < |line| ==> s[i] == line[i];
    assert s[|line|] == end[0];
    LineEndUnique(s, 0, |line|);
  }

  /** A line of white space ends a block, and a line with anything else does not. */
  lemma BlankEndsBlock(s: bytes, p: nat)
    requires p < |s|
    ensures Space(s[p..LineEnd(s, p)]) ==> ReadBlock(s, p) == Block([], true, NextLine(s, LineEnd(s, p)))
    ensures !Space(s[p..LineEnd(s, p)]) ==>
              ReadBlock(s, p).lines != [] && ReadBlock(s, p).lines[0] == s[p..LineEnd(s, p)]
  {
  }

  // ---- the end of a header

  lemma FourAt(s: bytes, k: nat)
    ensures OccursAt(s, "\r\n\r\n", k) <==>
              k + 4 <= |s| && s[k] == '\r' && s[k + 1] == '\n' && s[k + 2] == '\r' && s[k + 3] == '\n'
  {
    if OccursAt(s, "\r\n\r\n", k) {
      OccursIndex(s, "\r\n\r\n", k);
    } else if k + 4 <= |s| {
      assert |s[k..k + 4]| == 4;
    }
  }

  lemma TwoAt(s: bytes, k: nat)
    ensures OccursAt(s, "\n\n", k) <==> k + 2 <= |s| && s[k] == '\n' && s[k + 1] == '\n'
  {
    if OccursAt(s, "\n\n", k) {
      OccursIndex(s, "\n\n", k);
    } else if k + 2 <= |s| {
      assert |s[k..k + 2]| == 2;
    }
  }

  lemma TerminatorText(s: bytes, k: nat)
    ensures TerminatorAt(s, k) == if OccursAt(s, "\r\n\r\n", k) then 4 else if OccursAt(s, "\n\n", k) then 2 else 0
  {
    FourAt(s, k);
    TwoAt(s, k);
  }

  /** The text that ends a header starts at k, and at no place before. */
  predicate FirstEnd(s: bytes, k: nat, text: bytes) {
    && OccursAt(s, text, k)
    && forall j :: 0 <= j < k ==> !OccursAt(s, "\r\n\r\n", j) && !OccursAt(s, "\n\n", j)
  }

  /** A header ends behind its first CRLFCRLF or LFLF, whichever starts earlier, and has no end without one. */
  lemma HeaderEndText(s: bytes, k: nat)
    ensures FirstEnd(s, k, "\r\n\r\n") ==> HeaderEnd(s) == k + 4
    ensures FirstEnd(s, k, "\n\n") ==> HeaderEnd(s) == k + 2
    ensures HeaderEnd(s) == 0 <==>
              forall j: nat :: !OccursAt(s, "\r\n\r\n", j) && !OccursAt(s, "\n\n", j)
  {
    forall j: nat ensures TerminatorAt(s, j)
        == if OccursAt(s, "\r\n\r\n", j) then 4 else if OccursAt(s, "\n\n", j) then 2 else 0 {
      TerminatorText(s, j);
    }
    HeaderEndMeaning(s);
    if FirstEnd(s, k, "\r\n\r\n") || FirstEnd(s, k, "\n\n") {
      assert FirstTerminator(s, 0, k);
    }
    if FirstEnd(s, k, "\n\n") && OccursAt(s, "\r\n\r\n", k) {
      FourAt(s, k);
      TwoAt(s, k);
    }
  }

  // ---- the request line

  /** What can stand between the words of a request line. */
  predicate Gap(s: bytes) {
    forall i :: 0 <= i < |s| ==> s[i] == ' ' || s[i] == '\t' || s[i] == '\n' || s[i] == '\r' || s[i] as int == 12
  }

  predicate Solid(s: bytes) {
    s != [] && forall i :: 0 <= i < |s| ==>
      s[i] != ' ' && s[i] != '\t' && s[i] != '\n' && s[i] != '\r' && s[i] as int != 12
  }

  lemma {:induction false} SkipGap(s: bytes, p: nat, q: nat)
    requires p <= q <= |s| && Gap(s[p..q]) && (q < |s| ==> !IsDelimiter(s[q]))
    ensures SkipDelimiters(s, p) == q
    decreases q - p
  {
    if p < q {
      assert s[p..q][0] == s[p] && s[p..q][1..] == s[p + 1..q];
      SkipGap(s, p + 1, q);
    }
  }

  lemma {:induction false} TakeWord(s: bytes, p: nat, q: nat)
    requires p <= q <= |s| && (p < q ==> Solid(s[p..q])) && (q < |s| ==> IsDelimiter(s[q]))
    ensures TokenEnd(s, p) == q
    decreases q - p
  {
    if p < q {
      assert s[p..q][0] == s[p];
      if p + 1 < q {
        assert s[p..q][1..] == s[p + 1..q];
      }
      TakeWord(s, p + 1, q);
    }
  }

  /** The next word behind p: a gap, the word, and the end or another gap. */
  lemma NextWord(s: bytes, p: nat, gap: bytes, word: bytes, tail: bytes)
    requires p <= |s| && s[p..] == gap + word + tail && Gap(gap) && Solid(word) && Gap(tail[..Min(1, |tail|)])
    ensures var q := p + |gap| + |word|; NextToken(s, p) == Some((word, q)) && q <= |s| && s[q..] == tail
  {
    var m := p + |gap|;
    var q := m + |word|;
    AppendAssociates(gap, word, tail);
    SliceOfSuffix(s, p, gap, word + tail);
    SliceOfSuffix(s, m, word, tail);
    assert s[m] == s[m..q][0] == word[0];
    SkipGap(s, p, m);
    if q < |s| {
      assert s[q] == s[q..][0] == tail[..Min(1, |tail|)][0];
    }
    TakeWord(s, m, q);
  }

  lemma NoWord(s: bytes, p: nat)
    requires p <= |s| && Gap(s[p..])
    ensures NextToken(s, p) == None
  {
    assert s[p..] == s[p..|s|];
    SkipGap(s, p, |s|);
  }

  /** Three words with any gaps are verb, target and version; what follows them does not matter. */
  lemma ThreeWordLine(
      g0: bytes, verb: bytes, g1: bytes, target: bytes, g2: bytes, version: bytes, tail: bytes,
      headers: map<bytes, bytes>)
    requires Gap(g0) && Solid(verb) && Gap(g1) && g1 != [] && Solid(target) && Gap(g2) && g2 != [] && Solid(version)
    requires Gap(tail[..Min(1, |tail|)])
    ensures RequestLine(g0 + verb + (g1 + target + (g2 + version + tail)), headers)
         == Request(verb, target, version, headers)
  {
    var last := g2 + version + tail;
    var more := g1 + target + last;
    var s := g0 + verb + more;
    StartsGap(g1, target, last);
    StartsGap(g2, version, tail);
    assert s[0..] == s;
    NextWord(s, 0, g0, verb, more);
    TwoWords(s, verb, |g0| + |verb|, g1, target, g2, version, tail, headers);
  }

  lemma TwoWords(s: bytes, verb: bytes, p: nat, g1: bytes, target: bytes, g2: bytes, version: bytes, tail: bytes,
                 headers: map<bytes, bytes>)
    requires p <= |s| && NextToken(s, 0) == Some((verb, p)) && s[p..] == g1 + target + (g2 + version + tail)
    requires Gap(g1) && Solid(target) && Gap(g2) && Solid(version) && Gap(tail[..Min(1, |tail|)])
    requires var last := g2 + version + tail; Gap(last[..Min(1, |last|)])
    ensures RequestLine(s, headers) == Request(verb, target, version, headers)
  {
    var q := p + |g1| + |target|;
    NextWord(s, p, g1, target, g2 + version + tail);
    LastWord(s, q, g2, version, tail);
    WordsMake(s, verb, p, target, q, version, headers);
  }

  lemma LastWord(s: bytes, p: nat, gap: bytes, word: bytes, tail: bytes)
    requires p <= |s| && s[p..] == gap + word + tail && Gap(gap) && Solid(word) && Gap(tail[..Min(1, |tail|)])
    ensures NextToken(s, p).Some? && NextToken(s, p).value.0 == word
  {
    NextWord(s, p, gap, word, tail);
  }

  lemma WordsMake(
      s: bytes, verb: bytes, p: nat, target: bytes, q: nat, version: bytes, headers: map<bytes, bytes>)
    requires p <= |s| && q <= |s| && NextToken(s, 0) == Some((verb, p)) && NextToken(s, p) == Some((target, q))
    requires NextToken(s, q).Some? && NextToken(s, q).value.0 == version
    ensures RequestLine(s, headers) == Request(verb, target, version, headers)
  {
  }

  lemma StartsGap(gap: bytes, word: bytes, rest: bytes)
    requires Gap(gap) && gap != []
    ensures var t := gap + word + rest; Gap(t[..Min(1, |t|)])
  {
    assert (gap + word + rest)[0] == gap[0];
  }

  /** Two words are verb and target of version HTTP/1.1. */
  lemma TwoWordLine(
      g0: bytes, verb: bytes, g1: bytes, target: bytes, g2: bytes, headers: map<bytes, bytes>)
    requires Gap(g0) && Solid(verb) && Gap(g1) && g1 != [] && Solid(target) && Gap(g2)
    ensures RequestLine(g0 + verb + (g1 + target + g2), headers) == Request(verb, target, "HTTP/1.1", headers)
  {
    var more := g1 + target + g2;
    var s, p, q := g0 + verb + more, |g0| + |verb|, |g0| + |verb| + |g1| + |target|;
    StartsGap(g1, target, g2);
    assert s[0..] == s;
    NextWord(s, 0, g0, verb, more);
    LastTwo(s, p, g1, target, g2);
    TwoWordsMake(s, verb, p, target, q, headers);
  }

  lemma LastTwo(s: bytes, p: nat, g1: bytes, target: bytes, g2: bytes)
    requires p <= |s| && s[p..] == g1 + target + g2 && Gap(g1) && Solid(target) && Gap(g2)
    ensures var q := p + |g1| + |target|; q <= |s| && NextToken(s, p) == Some((target, q)) && NextToken(s, q) == None
  {
    var first := g2[..Min(1, |g2|)];
    assert forall i :: 0 <= i < |first| ==> first[i] == g2[i];
    NextWord(s, p, g1, target, g2);
    NoWord(s, p + |g1| + |target|);
  }

  lemma TwoWordsMake(s: bytes, verb: bytes, p: nat, target: bytes, q: nat, headers: map<bytes, bytes>)
    requires p <= |s| && q <= |s| && NextToken(s, 0) == Some((verb, p)) && NextToken(s, p) == Some((target, q))
    requires NextToken(s, q) == None
    ensures RequestLine(s, headers) == Request(verb, target, "HTTP/1.1", headers)
  {
  }

  /** One word or none is a bad request. */
  lemma OneWordLine(g0: bytes, verb: bytes, g1: bytes, headers: map<bytes, bytes>)
    requires Gap(g0) && Solid(verb) && Gap(g1)
    ensures RequestLine(g0 + verb + g1, headers) == BadRequest && RequestLine(g0, headers) == BadRequest
  {
    var s := g0 + verb + g1;
    assert s[0..] == s && g0[0..] == g0;
    NextWord(s, 0, g0, verb, g1);
    NoWord(s, |g0| + |verb|);
    NoWord(g0, 0);
  }

  // ---- fields

  /** A line with a colon is a field, of what is before the first one in small letters; one without is nothing. */
  lemma FieldLine(headers: map<bytes, bytes>, name: bytes, value: bytes, line: bytes)
    requires Without(name, ':') && Without(line, ':')
    ensures AddField(headers, name + ":" + value) == headers[Lower(Trim(name)) := Trim(value)]
    ensures AddField(headers, line) == headers
  {
    var s, n := name + ":" + value, |name|;
    assert forall i :: 0 <= i < n ==> s[i] == name[i];
    IndexFromUnique(s, ':', 0, n);
    assert s[..n] == name && s[n + 1..] == value;
  }

  // ---- numbers

  const DIGITS: bytes := "0123456789abcdef"

  /** The digits are the usual ones. */
  lemma DigitMeaning(d: nat)
    requires d < 16
    ensures DigitChar(d) == DIGITS[d]
    ensures d < 10 ==> DigitValue(DIGITS[d], 10) == Some(d)
  {
  }

  predicate Numeral(s: bytes) {
    s != [] && forall i :: 0 <= i < |s| ==> '0' <= s[i] <= '9'
  }

  lemma {:induction false} ParseNumeral(s: bytes)
    ensures Parse(s, 10).Some? <==> Numeral(s)
    decreases |s|
  {
    if |s| > 1 {
      var front := s[..|s| - 1];
      ParseNumeral(front);
      assert s == front + [s[|s| - 1]];
    }
  }

  /** A length is digits, maybe behind a sign, and in the range of a long; anything else is not a number. */
  lemma LongMeaning(digits: bytes, other: bytes)
    requires Numeral(digits)
    requires !Numeral(other) && (other != [] && (other[0] == '-' || other[0] == '+') ==> !Numeral(other[1..]))
    ensures Parse(digits, 10).Some? && ParseLong(other) == None
    ensures var n: int := Parse(digits, 10).value;
      && (ParseLong(digits) == if n <= 9223372036854775807 then Some(n) else None)
      && (ParseLong("+" + digits) == if n <= 9223372036854775807 then Some(n) else None)
      && (ParseLong("-" + digits) == if n <= 9223372036854775808 then Some(-n) else None)
  {
    ParseNumeral(digits);
    ParseNumeral(other);
    if other != [] {
      ParseNumeral(other[1..]);
    }
    Unsigned(digits);
    assert ("+" + digits)[1..] == digits && ("-" + digits)[1..] == digits;
  }

  lemma Unsigned(digits: bytes)
    requires Numeral(digits)
    ensures digits[0] != '-' && digits[0] != '+'
  {
  }
}

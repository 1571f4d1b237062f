/** BufferedReader.readLine over a byte buffer, blocks of lines that a blank line ends, and the byte
that separates a header from a body. */
module Lines {
  import opened Octets

  predicate IsBreak(c: byte) {
    c == '\r' || c == '\n'
  }

  /** Text that fits on one line. */
  predicate OneLine(s: bytes) {
    forall i :: 0 <= i < |s| ==> !IsBreak(s[i])
  }

  function LineEnd(s: bytes, p: nat): (q: nat)
    requires p <= |s|
    ensures p <= q <= |s| && forall i :: p <= i < q ==> !IsBreak(s[i])
    ensures q < |s| ==> IsBreak(s[q])
    decreases |s| - p
  {
    if p == |s| || IsBreak(s[p]) then p else LineEnd(s, p + 1)
  }

  /** Where the line after the one that ends at q starts: CR, LF and CRLF all break a line. */
  function NextLine(s: bytes, q: nat): (n: nat)
    requires q <= |s|
    ensures q <= n <= |s| && (q < |s| ==> q < n)
  {
    if q == |s| then q
    else if s[q] == '\r' && q + 1 < |s| && s[q + 1] == '\n' then q + 2
    else q + 1
  }

  lemma LineEndUnique(s: bytes, p: nat, q: nat)
    requires p <= q <= |s| && forall i :: p <= i < q ==> !IsBreak(s[i])
    requires q < |s| ==> IsBreak(s[q])
    ensures LineEnd(s, p) == q
  {
  }

  /** The lines before the first blank one, whether a blank one came (or the buffer ran out), and where
  reading stopped. */
  datatype Block = Block(lines: seq<bytes>, blank: bool, next: nat)

  function ReadBlock(s: bytes, p: nat): Block
    requires p <= |s|
    decreases |s| - p
  {
    if p == |s| then Block([], false, p)
    else
      var q := LineEnd(s, p);
      var n := NextLine(s, q);
      if Blank(s[p..q]) then Block([], true, n)
      else
        var rest := ReadBlock(s, n);
        Block([s[p..q]] + rest.lines, rest.blank, rest.next)
  }

  lemma ReadBlockLine(s: bytes, p: nat)
    requires p < |s| && !Blank(s[p..LineEnd(s, p)])
    ensures var q := LineEnd(s, p);
            var lines := ReadBlock(s, p).lines;
            lines != [] && lines[0] == s[p..q] && lines[1..] == ReadBlock(s, NextLine(s, q)).lines
  {
  }

  /** The length of the empty line that separates header from body, if one starts at i. */
  function TerminatorAt(s: bytes, i: nat): nat {
    if i + 3 < |s| && s[i] == '\r' && s[i + 1] == '\n' && s[i + 2] == '\r' && s[i + 3] == '\n' then 4
    else if i + 1 < |s| && s[i] == '\n' && s[i + 1] == '\n' then 2
    else 0
  }

  function HeaderEndFrom(s: bytes, i: nat): nat
    decreases |s| - i
  {
    if i + 1 >= |s| then 0
    else if TerminatorAt(s, i) > 0 then i + TerminatorAt(s, i)
    else HeaderEndFrom(s, i + 1)
  }

  function HeaderEnd(s: bytes): nat {
    HeaderEndFrom(s, 0)
  }

  ghost predicate FirstTerminator(s: bytes, i: nat, k: nat) {
    i <= k && TerminatorAt(s, k) > 0 && forall j :: i <= j < k ==> TerminatorAt(s, j) == 0
  }

  lemma {:induction false} HeaderEndFromMeaning(s: bytes, i: nat)
    ensures HeaderEndFrom(s, i) == 0 <==> forall k :: i <= k ==> TerminatorAt(s, k) == 0
    ensures HeaderEndFrom(s, i) > 0 ==>
              exists k: nat :: FirstTerminator(s, i, k) && HeaderEndFrom(s, i) == k + TerminatorAt(s, k)
    decreases |s| - i
  {
    if i + 1 < |s| {
      if TerminatorAt(s, i) == 0 {
        HeaderEndFromMeaning(s, i + 1);
        if HeaderEndFrom(s, i) > 0 {
          var k: nat :| FirstTerminator(s, i + 1, k) && HeaderEndFrom(s, i) == k + TerminatorAt(s, k);
          assert FirstTerminator(s, i, k);
        }
      } else {
        assert FirstTerminator(s, i, i);
      }
    }
  }

  lemma HeaderEndFromUnique(s: bytes, i: nat, k: nat)
    requires FirstTerminator(s, i, k)
    ensures HeaderEndFrom(s, i) == k + TerminatorAt(s, k)
    decreases k - i
  {
  }

  /** The header ends after the earliest-starting CRLFCRLF or LFLF, and is unended when there is none. */
  lemma HeaderEndMeaning(s: bytes)
    ensures HeaderEnd(s) == 0 <==> forall k: nat :: TerminatorAt(s, k) == 0
    ensures HeaderEnd(s) > 0 ==> exists k: nat :: FirstTerminator(s, 0, k)
    ensures forall k: nat :: FirstTerminator(s, 0, k) ==> HeaderEnd(s) == k + TerminatorAt(s, k) <= |s|
  {
    HeaderEndFromMeaning(s, 0);
    forall k: nat | FirstTerminator(s, 0, k) ensures HeaderEnd(s) == k + TerminatorAt(s, k) {
      HeaderEndFromUnique(s, 0, k);
    }
  }

  /** Once found, the header end does not move when more bytes arrive. */
  lemma HeaderEndStable(s: bytes, more: bytes)
    requires HeaderEnd(s) > 0
    ensures HeaderEnd(s + more) == HeaderEnd(s)
  {
    HeaderEndMeaning(s);
    var k: nat :| FirstTerminator(s, 0, k);
    var t := s + more;
    assert TerminatorAt(t, k) == TerminatorAt(s, k);
    forall j | 0 <= j < k ensures TerminatorAt(t, j) == 0 {
      assert TerminatorAt(s, j) == 0 && t[j] == s[j] && t[j + 1] == s[j + 1];
      assert t[k] == s[k] && t[k + 1] == s[k + 1];
    }
    HeaderEndFromUnique(t, 0, k);
  }

  lemma PrefixTerminator(s: bytes, t: bytes, k: nat)
    requires FirstTerminator(s, 0, k) && t <= s && k + TerminatorAt(s, k) <= |t|
    ensures FirstTerminator(t, 0, k) && TerminatorAt(t, k) == TerminatorAt(s, k)
  {
    forall j | 0 <= j < k ensures TerminatorAt(t, j) == 0 {
      assert TerminatorAt(s, j) == 0;
    }
  }

  /** A prefix shows the header end exactly when it reaches it. */
  lemma HeaderEndOfPrefix(s: bytes, r: nat)
    requires r <= |s|
    ensures HeaderEnd(s[..r]) == if HeaderEnd(s) <= r then HeaderEnd(s) else 0
  {
    HeaderEndMeaning(s);
    HeaderEndMeaning(s[..r]);
    if 0 < HeaderEnd(s) <= r {
      var k: nat :| FirstTerminator(s, 0, k);
      PrefixTerminator(s, s[..r], k);
    } else if HeaderEnd(s[..r]) > 0 {
      assert s[..r] + s[r..] == s;
      HeaderEndStable(s[..r], s[r..]);
    }
  }

  predicate SameBlock(a: Block, b: Block) {
    a.lines == b.lines && a.blank == b.blank && a.next == b.next
  }

  /** Both blocks are the same, and a blank line ends them no later than at e. */
  predicate SameWithin(a: Block, b: Block, e: nat) {
    SameBlock(a, b) && a.blank && a.next <= e
  }

  /** A buffer and a prefix of it have the same line at p if the prefix shows the line's end. */
  lemma SameLine(a: bytes, b: bytes, p: nat, q: nat)
    requires b <= a && p <= q < |b| && q == LineEnd(b, p) && (b[q] == '\r' ==> q + 1 < |b|)
    ensures LineEnd(a, p) == q && a[p..q] == b[p..q] && NextLine(a, q) == NextLine(b, q)
  {
    assert forall i :: p <= i <= q ==> a[i] == b[i];
    LineEndUnique(a, p, q);
  }

  /** If the line at p is the same and what follows reads the same, then the block reads the same. */
  lemma SameBlockFrom(a: bytes, b: bytes, p: nat, q: nat, n: nat, e: nat)
    requires p < |a| && p < |b| && q == LineEnd(a, p) == LineEnd(b, p) && a[p..q] == b[p..q]
    requires n == NextLine(a, q) == NextLine(b, q) <= e
    requires Blank(b[p..q]) || SameWithin(ReadBlock(a, n), ReadBlock(b, n), e)
    ensures SameWithin(ReadBlock(a, p), ReadBlock(b, p), e)
  {
  }

  /** In a header b, whose terminator starts at k, a line ends inside the header. The next line starts before the
  terminator or at its second half, and from there it is blank. */
  lemma LineInHeader(b: bytes, k: nat, p: nat)
    requires TerminatorAt(b, k) > 0 && |b| == k + TerminatorAt(b, k)
    requires p <= k || p == k + TerminatorAt(b, k) / 2
    ensures var q := LineEnd(b, p);
      && p <= q < |b| && (b[q] == '\r' ==> q + 1 < |b|)
      && (p <= k ==> NextLine(b, q) <= k || NextLine(b, q) == k + TerminatorAt(b, k) / 2)
      && (p > k ==> q == p && NextLine(b, q) == |b|)
  {
    var q := LineEnd(b, p);
    assert p <= k ==> q <= k;
  }

  /** Reading lines from p cannot leave the header b that the buffer a starts with: every line read, and the
  blank line that stops the reading, lies in it. So what follows the header does not matter. */
  lemma {:induction false} BlockStaysInHeader(a: bytes, b: bytes, k: nat, p: nat)
    requires b <= a && TerminatorAt(b, k) > 0 && |b| == k + TerminatorAt(b, k)
    requires p <= k || p == k + TerminatorAt(b, k) / 2
    ensures SameWithin(ReadBlock(a, p), ReadBlock(b, p), |b|)
    decreases |b| - p
  {
    var q := LineEnd(b, p);
    LineInHeader(b, k, p);
    SameLine(a, b, p, q);
    var n := NextLine(b, q);
    if !Blank(b[p..q]) {
      BlockStaysInHeader(a, b, k, n);
    }
    SameBlockFrom(a, b, p, q, n, |b|);
  }

  // ---- printing

  function PrintLines(lines: seq<bytes>): bytes {
    if lines == [] then [] else lines[0] + CRLF + PrintLines(lines[1..])
  }

  /** Lines that reading can tell apart from the blank line that ends them. */
  predicate Printable(lines: seq<bytes>) {
    forall i :: 0 <= i < |lines| ==> OneLine(lines[i]) && !Blank(lines[i])
  }

  lemma PrintedLength(lines: seq<bytes>)
    requires lines != []
    ensures |PrintLines(lines) + CRLF| == |lines[0]| + 2 + |PrintLines(lines[1..]) + CRLF|
  {
  }

  predicate IsBlock(b: Block, lines: seq<bytes>, next: nat) {
    b.lines == lines && b.blank && b.next == next
  }

  lemma {:induction false} ReadPrintedBlock(s: bytes, lines: seq<bytes>, p: nat)
    requires Printable(lines) && OccursAt(s, PrintLines(lines) + CRLF, p)
    ensures IsBlock(ReadBlock(s, p), lines, p + |PrintLines(lines) + CRLF|)
    decreases |lines|
  {
    if lines == [] {
      assert PrintLines(lines) + CRLF == CRLF;
      ReadEmptyLine(s, p);
    } else {
      var line, rest := lines[0], lines[1..];
      var n := p + |line| + 2;
      SplitFirstLine(s, lines, p);
      ReadPrintedBlock(s, rest, n);
      PrintedLength(lines);
      ReadPrintedCons(s, line, rest, p, n, p + |PrintLines(lines) + CRLF|);
      assert lines == [line] + rest;
    }
  }

  lemma ReadPrintedCons(s: bytes, line: bytes, rest: seq<bytes>, p: nat, n: nat, end: nat)
    requires OneLine(line) && !Blank(line) && OccursAt(s, line + CRLF, p)
    requires n == p + |line| + 2 <= |s| && IsBlock(ReadBlock(s, n), rest, end)
    ensures IsBlock(ReadBlock(s, p), [line] + rest, end)
  {
    ReadPrintedLine(s, p, line, ReadBlock(s, n));
  }

  lemma PrintedLineEnd(s: bytes, line: bytes, p: nat)
    requires OneLine(line) && OccursAt(s, line + CRLF, p)
    ensures LineEnd(s, p) == p + |line| && NextLine(s, p + |line|) == p + |line| + 2 && s[p..p + |line|] == line
  {
    OccursIndex(s, line + CRLF, p);
    assert forall i :: p <= i < p + |line| ==> s[i] == line[i - p];
    LineEndUnique(s, p, p + |line|);
  }

  lemma ReadEmptyLine(s: bytes, p: nat)
    requires OccursAt(s, CRLF, p)
    ensures ReadBlock(s, p) == Block([], true, p + 2)
  {
    OccursIndex(s, CRLF, p);
    LineEndUnique(s, p, p);
    assert Blank(s[p..p]);
  }

  lemma SplitFirstLine(s: bytes, lines: seq<bytes>, p: nat)
    requires lines != [] && OccursAt(s, PrintLines(lines) + CRLF, p)
    ensures OccursAt(s, lines[0] + CRLF, p)
    ensures OccursAt(s, PrintLines(lines[1..]) + CRLF, p + |lines[0]| + 2)
  {
    var first, rest := lines[0] + CRLF, PrintLines(lines[1..]) + CRLF;
    assert PrintLines(lines) + CRLF == first + rest;
    OccursSplit(s, first, rest, p);
  }

  lemma ReadPrintedLine(s: bytes, p: nat, line: bytes, rest: Block)
    requires OneLine(line) && !Blank(line)
    requires OccursAt(s, line + CRLF, p) && ReadBlock(s, p + |line| + 2) == rest
    ensures ReadBlock(s, p) == Block([line] + rest.lines, rest.blank, rest.next)
  {
    var q := p + |line|;
    OccursIndex(s, line + CRLF, p);
    assert s[p..q] == line;
    LineEndUnique(s, p, q);
  }

  /** A printed header ends with its blank line, whatever body follows. */
  lemma {:induction false} PrintedHeaderEnd(s: bytes, lines: seq<bytes>, p: nat)
    requires lines != [] && Printable(lines) && OccursAt(s, PrintLines(lines) + CRLF, p)
    ensures HeaderEndFrom(s, p) == p + |PrintLines(lines)| + 2
    decreases |lines|
  {
    var rest, n := lines[1..], p + |lines[0]| + 2;
    PrintableRest(lines);
    PrintedSize(lines);
    PrintedHeaderStep(s, lines, p);
    if rest != [] {
      PrintedHeaderEnd(s, rest, n);
    }
  }

  lemma PrintableRest(lines: seq<bytes>)
    requires lines != [] && Printable(lines)
    ensures Printable(lines[1..]) && OneLine(lines[0]) && !Blank(lines[0])
  {
  }

  lemma PrintedSize(lines: seq<bytes>)
    requires lines != []
    ensures |PrintLines(lines)| == |lines[0]| + 2 + |PrintLines(lines[1..])|
    ensures lines[1..] == [] ==> |PrintLines(lines[1..])| == 0
  {
  }

  /** Behind a line the header ends, or goes on with the next one. */
  lemma PrintedHeaderStep(s: bytes, lines: seq<bytes>, p: nat)
    requires lines != [] && Printable(lines) && OccursAt(s, PrintLines(lines) + CRLF, p)
    ensures var rest, n := lines[1..], p + |lines[0]| + 2;
      && OccursAt(s, PrintLines(rest) + CRLF, n)
      && HeaderEndFrom(s, p) == if rest == [] then n + 2 else HeaderEndFrom(s, n)
  {
    var rest, n := lines[1..], p + |lines[0]| + 2;
    SplitFirstLine(s, lines, p);
    if rest == [] {
      EndAtBlank(s, p, lines[0]);
    } else {
      SplitFirstLine(s, rest, n);
      assert rest[0] == lines[1];
      SkipLine(s, p, lines[0], rest[0]);
    }
  }

  lemma NoEndInLine(s: bytes, p: nat, line: bytes)
    requires OneLine(line) && OccursAt(s, line + CRLF, p)
    ensures var q := p + |line|; q + 2 <= |s| && s[q] == '\r' && s[q + 1] == '\n'
    ensures forall j :: p <= j < p + |line| ==> TerminatorAt(s, j) == 0
  {
    PrintedLineEnd(s, line, p);
    OccursSplit(s, line, CRLF, p);
    OccursIndex(s, CRLF, p + |line|);
    forall j | p <= j < p + |line| ensures TerminatorAt(s, j) == 0 {
      assert s[j] == line[j - p];
    }
  }

  /** No header ends in a line or its line break if a non-blank line follows. */
  lemma SkipLine(s: bytes, p: nat, line: bytes, next: bytes)
    requires OneLine(line) && OccursAt(s, line + CRLF, p)
    requires OneLine(next) && !Blank(next) && OccursAt(s, next + CRLF, p + |line| + 2)
    ensures HeaderEndFrom(s, p) == HeaderEndFrom(s, p + |line| + 2)
  {
    var q := p + |line|;
    NoEndInLine(s, p, line);
    OccursIndex(s, next + CRLF, q + 2);
    assert s[q + 2] == next[0];
    SkipTo(s, p, q);
    assert TerminatorAt(s, q) == 0 && TerminatorAt(s, q + 1) == 0;
  }

  lemma EndAtBlank(s: bytes, p: nat, line: bytes)
    requires OneLine(line) && OccursAt(s, line + CRLF, p) && OccursAt(s, [] + CRLF, p + |line| + 2)
    ensures HeaderEndFrom(s, p) == p + |line| + 4
  {
    var q := p + |line|;
    NoEndInLine(s, p, line);
    assert [] + CRLF == CRLF;
    OccursIndex(s, CRLF, q + 2);
    HeaderEndFromUnique(s, p, q);
  }

  lemma SkipTo(s: bytes, i: nat, k: nat)
    requires i <= k < |s| && forall j :: i <= j < k ==> TerminatorAt(s, j) == 0
    ensures HeaderEndFrom(s, i) == HeaderEndFrom(s, k)
    decreases k - i
  {
  }
}

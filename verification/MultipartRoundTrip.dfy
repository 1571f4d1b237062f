/** A printed multipart body decodes to the parts it was printed from, whatever bytes the payloads hold. */
module MultipartRoundTrip {
  import opened Octets
  import opened Lines
  import opened Boundary
  import opened Uploads
  import opened Multipart

  /** A part: what pads its delimiter line, its header lines and its data. */
  datatype Part = Part(pad: bytes, lines: seq<bytes>, payload: bytes)

  predicate PrintablePart(part: Part) {
    OneLine(part.pad) && Printable(part.lines)
  }

  const DASHES: bytes := "--"

  function PartHead(boundary: bytes, part: Part): bytes {
    ((boundary + part.pad) + CRLF) + (PrintLines(part.lines) + CRLF)
  }

  function PrintPart(boundary: bytes, part: Part): bytes {
    DASHES + PartHead(boundary, part) + part.payload + CRLF
  }

  function PrintParts(boundary: bytes, parts: seq<Part>): bytes
    decreases |parts|
  {
    if parts == [] then [] else PrintPart(boundary, parts[0]) + PrintParts(boundary, parts[1..])
  }

  function Closing(boundary: bytes, epilogue: bytes): bytes {
    DASHES + boundary + DASHES + epilogue
  }

  /** A multipart body: RFC 2046, section 5.1.1. */
  function PrintBody(preamble: bytes, boundary: bytes, parts: seq<Part>, epilogue: bytes): bytes {
    preamble + (PrintParts(boundary, parts) + Closing(boundary, epilogue))
  }

  /** Where the boundaries of the delimiters start when the first delimiter starts at `from`. */
  function Starts(boundary: bytes, parts: seq<Part>, from: nat): seq<nat>
    decreases |parts|
  {
    if parts == [] then [from + 2]
    else [from + 2] + Starts(boundary, parts[1..], from + |PrintPart(boundary, parts[0])|)
  }

  /** What the handler should get: the parts stored one after the other. */
  function StoreAll(p: Patterns, forms: Forms, parts: seq<Part>): Forms
    decreases |parts|
  {
    if parts == [] then forms
    else StoreAll(p, Store(forms, PartInfo(p, forms.pcount, parts[0].lines), parts[0].payload), parts[1..])
  }

  predicate FitsHeader(boundary: bytes, part: Part) {
    |PartHead(boundary, part)| < 1020
  }

  /** The parts before the first one whose head does not fit. */
  function Fitting(boundary: bytes, parts: seq<Part>): seq<Part>
    decreases |parts|
  {
    if parts == [] || !FitsHeader(boundary, parts[0]) then [] else [parts[0]] + Fitting(boundary, parts[1..])
  }

  /** How the decoder rejects a head that does not fit: it does not even find the boundary if that is longer than
  the buffer. */
  function LongHead(boundary: bytes): Error {
    if |boundary| > 1024 then NoBoundaryLine else HeaderTooLong
  }

  ghost predicate AllPrintable(parts: seq<Part>) {
    forall x :: x in parts ==> PrintablePart(x)
  }

  ghost predicate AllFit(boundary: bytes, parts: seq<Part>) {
    forall x :: x in parts ==> FitsHeader(boundary, x)
  }

  // ---- positions

  lemma NextDelimiter(body: bytes, boundary: bytes, parts: seq<Part>, epilogue: bytes, from: nat)
    requires from <= |body| && parts != []
    requires body[from..] == PrintParts(boundary, parts) + Closing(boundary, epilogue)
    ensures var n := |PrintPart(boundary, parts[0])|;
            && from + n <= |body| && OccursAt(body, PrintPart(boundary, parts[0]), from)
            && body[from + n..] == PrintParts(boundary, parts[1..]) + Closing(boundary, epilogue)
  {
    var first := PrintPart(boundary, parts[0]);
    FirstOfThree(body, from, first, PrintParts(boundary, parts[1..]), Closing(boundary, epilogue));
  }

  lemma FirstOfThree(body: bytes, from: nat, a: bytes, b: bytes, c: bytes)
    requires from <= |body| && body[from..] == (a + b) + c
    ensures from + |a| <= |body| && OccursAt(body, a, from) && body[from + |a|..] == b + c
  {
    assert (a + b) + c == a + (b + c);
    SliceOfSuffix(body, from, a, b + c);
  }

  lemma ClosingBoundary(body: bytes, boundary: bytes, epilogue: bytes, from: nat)
    requires from <= |body| && body[from..] == Closing(boundary, epilogue)
    ensures OccursAt(body, boundary, from + 2) && from + 2 + |boundary| + 2 <= |body|
  {
    var tail := DASHES + epilogue;
    AppendAssociates(DASHES + boundary, DASHES, epilogue);
    AppendAssociates(DASHES, boundary, tail);
    assert body[from..from + |DASHES + (boundary + tail)|] == body[from..];
    OccursSplit(body, DASHES, boundary + tail, from);
    OccursSplit(body, boundary, tail, from + 2);
  }

  lemma PartPieces(boundary: bytes, part: Part)
    ensures PrintPart(boundary, part) == DASHES + (PartHead(boundary, part) + (part.payload + CRLF))
  {
    var head := PartHead(boundary, part);
    AppendAssociates(DASHES, head, part.payload);
    AppendAssociates(DASHES, head + part.payload, CRLF);
    AppendAssociates(head, part.payload, CRLF);
  }

  lemma BoundaryInHead(body: bytes, boundary: bytes, part: Part, at: nat)
    requires OccursAt(body, PartHead(boundary, part), at)
    ensures OccursAt(body, boundary, at)
  {
    var more := PrintLines(part.lines) + CRLF;
    AppendAssociates(boundary, part.pad, CRLF);
    AppendAssociates(boundary, part.pad + CRLF, more);
    OccursSplit(body, boundary, (part.pad + CRLF) + more, at);
  }

  lemma PartBoundary(body: bytes, boundary: bytes, part: Part, from: nat)
    requires OccursAt(body, PrintPart(boundary, part), from)
    ensures OccursAt(body, PartHead(boundary, part), from + 2) && OccursAt(body, boundary, from + 2)
    ensures OccursAt(body, part.payload, from + 2 + |PartHead(boundary, part)|)
  {
    var head, payload := PartHead(boundary, part), part.payload;
    PartPieces(boundary, part);
    OccursSplit(body, DASHES, head + (payload + CRLF), from);
    OccursSplit(body, head, payload + CRLF, from + 2);
    OccursSplit(body, payload, CRLF, from + 2 + |head|);
    BoundaryInHead(body, boundary, part, from + 2);
  }

  /** Every listed start is one of a boundary in the body, after from and before the body's last bytes. */
  predicate StartsIn(ps: seq<nat>, body: bytes, boundary: bytes, from: nat) {
    && Ascending(ps)
    && forall i :: 0 <= i < |ps| ==> from < ps[i] < |body| - |boundary| && Matches(body, boundary, ps[i])
  }

  lemma StartsInCons(p: nat, ps: seq<nat>, body: bytes, boundary: bytes, from: nat, next: nat)
    requires StartsIn(ps, body, boundary, next) && from < p <= next
    requires p < |body| - |boundary| && Matches(body, boundary, p)
    ensures StartsIn([p] + ps, body, boundary, from)
  {
  }

  lemma {:induction false} StartsFacts(body: bytes, boundary: bytes, parts: seq<Part>, epilogue: bytes, from: nat)
    requires from <= |body| && boundary != []
    requires body[from..] == PrintParts(boundary, parts) + Closing(boundary, epilogue)
    ensures var ps := Starts(boundary, parts, from);
            |ps| == |parts| + 1 && ps[0] == from + 2 && StartsIn(ps, body, boundary, from)
    decreases |parts|
  {
    if parts == [] {
      assert body[from..] == Closing(boundary, epilogue);
      ClosingBoundary(body, boundary, epilogue, from);
    } else {
      NextDelimiter(body, boundary, parts, epilogue, from);
      PartBoundary(body, boundary, parts[0], from);
      var next := from + |PrintPart(boundary, parts[0])|;
      StartsFacts(body, boundary, parts[1..], epilogue, next);
      PartSpan(boundary, parts[0]);
      StartsInCons(from + 2, Starts(boundary, parts[1..], next), body, boundary, from, next);
    }
  }

  lemma PartSpan(boundary: bytes, part: Part)
    ensures |PrintPart(boundary, part)| >= |boundary| + 6
  {
  }

  // ---- one part

  /** Skipping n lines from index leads to end. */
  predicate Reaches(buf: bytes, index: nat, n: nat, end: nat)
    requires index <= |buf|
  {
    var r := SkipLines(buf, index, n);
    r.Some? && r.value == end
  }

  lemma {:induction false} SkipPrintedLines(buf: bytes, lines: seq<bytes>, i: nat)
    requires Printable(lines) && OccursAt(buf, PrintLines(lines) + CRLF, i)
    ensures Reaches(buf, i, |lines| + 1, i + |PrintLines(lines) + CRLF|)
    decreases |lines|
  {
    if lines == [] {
      assert PrintLines(lines) + CRLF == CRLF;
      SkipOneLine(buf, [], i, 0);
    } else {
      var next := i + |lines[0]| + 2;
      SplitFirstLine(buf, lines, i);
      SkipPrintedLines(buf, lines[1..], next);
      PrintedLength(lines);
      SkipPrintedCons(buf, lines[0], i, next, |lines|, i + |PrintLines(lines) + CRLF|);
    }
  }

  lemma SkipPrintedCons(buf: bytes, line: bytes, i: nat, next: nat, n: nat, end: nat)
    requires OneLine(line) && OccursAt(buf, line + CRLF, i) && next == i + |line| + 2 <= |buf|
    requires Reaches(buf, next, n, end)
    ensures Reaches(buf, i, n + 1, end)
  {
    SkipOneLine(buf, line, i, n);
  }

  lemma SkipOneLine(buf: bytes, line: bytes, i: nat, more: nat)
    requires OneLine(line) && OccursAt(buf, line + CRLF, i)
    ensures SkipLines(buf, i, more + 1) == SkipLines(buf, i + |line| + 2, more)
  {
    OccursIndex(buf, line + CRLF, i);
    assert forall k :: i <= k < i + |line| ==> buf[k] == line[k - i];
    IndexFromUnique(buf, '\n', i, i + |line| + 1);
  }

  lemma SkipPrintedHeader(buf: bytes, first: bytes, lines: seq<bytes>)
    requires OneLine(first) && Printable(lines)
    requires OccursAt(buf, (first + CRLF) + (PrintLines(lines) + CRLF), 0)
    ensures Reaches(buf, 0, |lines| + 2, |first| + 2 + |PrintLines(lines) + CRLF|)
  {
    var next := |first| + 2;
    assert |first + CRLF| == next;
    OccursSplit(buf, first + CRLF, PrintLines(lines) + CRLF, 0);
    SkipPrintedLines(buf, lines, next);
    SkipPrintedCons(buf, first, 0, next, |lines| + 1, next + |PrintLines(lines) + CRLF|);
  }

  lemma ReadPrintedHeader(s: bytes, first: bytes, lines: seq<bytes>)
    requires OneLine(first) && Printable(lines)
    requires OccursAt(s, (first + CRLF) + (PrintLines(lines) + CRLF), 0)
    ensures var q := LineEnd(s, 0);
            s[..q] == first && ReadBlock(s, NextLine(s, q)).lines == lines
  {
    OccursSplit(s, first + CRLF, PrintLines(lines) + CRLF, 0);
    OccursIndex(s, first + CRLF, 0);
    assert forall i :: 0 <= i < |first| ==> s[i] == first[i];
    LineEndUnique(s, 0, |first|);
    ReadPrintedBlock(s, lines, |first| + 2);
  }

  lemma DelimiterLine(boundary: bytes, pad: bytes)
    requires OneLine(boundary) && OneLine(pad)
    ensures OneLine(boundary + pad) && Contains(boundary + pad, boundary)
  {
    assert OccursAt(boundary + pad, boundary, 0);
  }

  /** A buffer that starts with a printed part header gives the header lines and their exact extent. */
  lemma CutPrintedHeader(buf: bytes, len: nat, boundary: bytes, part: Part, at: nat, next: nat)
    requires boundary != [] && OneLine(boundary) && PrintablePart(part) && FitsHeader(boundary, part)
    requires len <= |buf| == MAX_HEADER_SIZE && |PartHead(boundary, part)| < len - 4
    requires OccursAt(buf, PartHead(boundary, part), 0)
    ensures CutPart(buf, len, boundary, at, next)
         == Cut(part.lines, at + |PartHead(boundary, part)|, next - 4)
  {
    var head, s := PartHead(boundary, part), buf[..len];
    DelimiterLine(boundary, part.pad);
    SkipPrintedHeader(buf, boundary + part.pad, part.lines);
    assert s[0..|head|] == buf[0..|head|] == head;
    ReadPrintedHeader(s, boundary + part.pad, part.lines);
  }

  /** The cut holds exactly the part's header lines and payload. */
  predicate Holds(body: bytes, cut: Cut, part: Part) {
    cut.Cut? && cut.lines == part.lines && cut.start <= cut.end <= |body| && Content(body, cut) == part.payload
  }

  /** A part whose head and payload stand at `at` in the body, with enough of the body behind them, is cut
  exactly. */
  lemma CutPartAt(body: bytes, buf: bytes, boundary: bytes, part: Part, at: nat, next: nat)
    requires boundary != [] && OneLine(boundary) && PrintablePart(part) && FitsHeader(boundary, part)
    requires at <= |body| && |buf| == MAX_HEADER_SIZE && OccursAt(body, PartHead(boundary, part), at)
    requires OccursAt(body, part.payload, at + |PartHead(boundary, part)|)
    requires next == at + |PartHead(boundary, part)| + |part.payload| + 4 && next < |body|
    ensures Holds(body, CutPart(Refill(buf, body, at), HeaderLength(body, at), boundary, at, next), part)
  {
    var n := |PartHead(boundary, part)|;
    HeadInBuffer(body, buf, PartHead(boundary, part), at);
    CutPrintedHeader(Refill(buf, body, at), HeaderLength(body, at), boundary, part, at, next);
    CutHolds(body, part, at + n, next - 4);
  }

  lemma CutHolds(body: bytes, part: Part, start: nat, end: nat)
    requires OccursAt(body, part.payload, start) && end == start + |part.payload|
    ensures Holds(body, Cut(part.lines, start, end), part)
  {
  }

  lemma HeadInBuffer(body: bytes, buf: bytes, head: bytes, at: nat)
    requires at <= |body| && |buf| == MAX_HEADER_SIZE && OccursAt(body, head, at) && |head| <= HeaderLength(body, at)
    ensures OccursAt(Refill(buf, body, at), head, 0)
  {
    assert Refill(buf, body, at)[0..|head|] == body[at..at + |head|];
  }

  /** The first of the remaining printed parts, which starts at `from`: its boundary is at `at` and the next one
  at `next`. */
  lemma CutPrintedPart(body: bytes, buf: bytes, boundary: bytes, parts: seq<Part>, epilogue: bytes, from: nat,
                       at: nat, next: nat)
    requires boundary != [] && OneLine(boundary) && parts != [] && PrintablePart(parts[0])
    requires FitsHeader(boundary, parts[0])
    requires from <= |body| && |buf| == MAX_HEADER_SIZE
    requires body[from..] == PrintParts(boundary, parts) + Closing(boundary, epilogue)
    requires at == from + 2 && next == from + |PrintPart(boundary, parts[0])| + 2
    ensures at <= next <= |body|
    ensures Holds(body, CutPart(Refill(buf, body, at), HeaderLength(body, at), boundary, at, next), parts[0])
  {
    var part := parts[0];
    NextDelimiter(body, boundary, parts, epilogue, from);
    PartBoundary(body, boundary, part, from);
    NextInside(body, boundary, parts[1..], epilogue, next - 2);
    PartLength(boundary, part);
    CutPartAt(body, buf, boundary, part, at, next);
  }

  lemma NextInside(body: bytes, boundary: bytes, parts: seq<Part>, epilogue: bytes, from: nat)
    requires from <= |body| && boundary != []
    requires body[from..] == PrintParts(boundary, parts) + Closing(boundary, epilogue)
    ensures from + 2 < |body|
  {
    StartsFacts(body, boundary, parts, epilogue, from);
  }

  lemma PartLength(boundary: bytes, part: Part)
    ensures |PrintPart(boundary, part)| == 2 + |PartHead(boundary, part)| + |part.payload| + 2
  {
  }

  // ---- a head that does not fit

  /** From p on s holds the beginning of text, but not all of it. */
  predicate BreaksOff(s: bytes, text: bytes, p: nat) {
    p <= |s| && |s| - p < |text| && s[p..] == text[..|s| - p]
  }

  /** There are not as many line feeds left. */
  predicate RunsOff(s: bytes, p: nat, count: nat) {
    p <= |s| && SkipLines(s, p, count) == None
  }

  lemma BreaksOffInLine(s: bytes, line: bytes, p: nat, count: nat)
    requires OneLine(line) && BreaksOff(s, line + CRLF, p) && count > 0
    ensures RunsOff(s, p, count)
  {
    forall i | p <= i < |s| ensures s[i] != '\n' {
      assert s[p..][i - p] == (line + CRLF)[i - p];
    }
  }

  lemma BreaksOffEarly(s: bytes, first: bytes, rest: bytes, p: nat)
    requires BreaksOff(s, first + rest, p)
    ensures |s| - p < |first| ==> BreaksOff(s, first, p)
    ensures |s| - p >= |first| ==> OccursAt(s, first, p) && BreaksOff(s, rest, p + |first|)
  {
    var tail := s[p..];
    if |tail| < |first| {
      assert (first + rest)[..|tail|] == first[..|tail|];
    } else {
      assert s[p..p + |first|] == tail[..|first|] == first;
      assert s[p + |first|..] == tail[|first|..] == rest[..|tail| - |first|];
    }
  }

  /** A buffer that ends within printed lines has fewer line feeds than the decoder reads lines from it. */
  lemma {:induction false} BreaksOffInLines(s: bytes, lines: seq<bytes>, p: nat)
    requires Printable(lines) && BreaksOff(s, PrintLines(lines) + CRLF, p)
    ensures RunsOff(s, p, |ReadBlock(s, p).lines| + 1)
    decreases |lines|
  {
    if lines == [] {
      assert PrintLines(lines) + CRLF == [] + CRLF;
      BreaksOffInLine(s, [], p, |ReadBlock(s, p).lines| + 1);
    } else {
      var line, rest, n := lines[0], lines[1..], p + |lines[0]| + 2;
      PrintableRest(lines);
      AppendAssociates(line + CRLF, PrintLines(rest), CRLF);
      BreaksOffEarly(s, line + CRLF, PrintLines(rest) + CRLF, p);
      if |s| < n {
        BreaksOffInLine(s, line, p, |ReadBlock(s, p).lines| + 1);
      } else {
        BreaksOffInLines(s, rest, n);
        BreaksOffLater(s, line, p, n);
      }
    }
  }

  lemma BreaksOffLater(s: bytes, line: bytes, p: nat, n: nat)
    requires OneLine(line) && !Blank(line) && OccursAt(s, line + CRLF, p) && n == p + |line| + 2 <= |s|
    requires RunsOff(s, n, |ReadBlock(s, n).lines| + 1)
    ensures RunsOff(s, p, |ReadBlock(s, p).lines| + 1)
  {
    LinesCons(s, line, p, n);
    RunsOffEarlier(s, line, p, n, |ReadBlock(s, n).lines| + 1);
  }

  lemma LinesCons(s: bytes, line: bytes, p: nat, n: nat)
    requires OneLine(line) && !Blank(line) && OccursAt(s, line + CRLF, p) && n == p + |line| + 2 <= |s|
    ensures |ReadBlock(s, p).lines| == |ReadBlock(s, n).lines| + 1
  {
    ReadPrintedLine(s, p, line, ReadBlock(s, n));
  }

  lemma RunsOffEarlier(s: bytes, line: bytes, p: nat, n: nat, count: nat)
    requires OneLine(line) && OccursAt(s, line + CRLF, p) && n == p + |line| + 2 <= |s| && RunsOff(s, n, count)
    ensures RunsOff(s, p, count + 1)
  {
    SkipOneLine(s, line, p, count);
  }

  /** The head is whole in the buffer, but there is no room behind it. */
  lemma CutFullHead(buf: bytes, boundary: bytes, part: Part, at: nat, next: nat)
    requires boundary != [] && OneLine(boundary) && PrintablePart(part) && !FitsHeader(boundary, part)
    requires |buf| == MAX_HEADER_SIZE && OccursAt(buf, PartHead(boundary, part), 0)
    ensures CutPart(buf, MAX_HEADER_SIZE, boundary, at, next) == Failure(HeaderTooLong)
  {
    DelimiterLine(boundary, part.pad);
    SkipPrintedHeader(buf, boundary + part.pad, part.lines);
    assert buf[..MAX_HEADER_SIZE] == buf;
    ReadPrintedHeader(buf, boundary + part.pad, part.lines);
  }

  lemma BoundaryLine(s: bytes, boundary: bytes, pad: bytes, rest: bytes)
    requires boundary != [] && OneLine(boundary + pad) && BreaksOff(s, ((boundary + pad) + CRLF) + rest, 0)
    ensures var q := LineEnd(s, 0); Contains(s[..q], boundary) <==> |boundary| <= |s|
    ensures LineEnd(s, 0) == Min(|boundary + pad|, |s|)
  {
    var first := boundary + pad;
    assert s[0..] == s && s == ((first + CRLF) + rest)[..|s|];
    forall i | 0 <= i < |s| && i < |first| ensures s[i] == first[i] {
    }
    LineEndUnique(s, 0, Min(|first|, |s|));
    if |boundary| <= |s| {
      assert OccursAt(s[..LineEnd(s, 0)], boundary, 0);
    }
  }

  /** The buffer ends before the head does. */
  lemma CutBrokenHead(buf: bytes, boundary: bytes, part: Part, at: nat, next: nat)
    requires boundary != [] && OneLine(boundary) && PrintablePart(part)
    requires |buf| == MAX_HEADER_SIZE && BreaksOff(buf, PartHead(boundary, part), 0)
    ensures CutPart(buf, MAX_HEADER_SIZE, boundary, at, next) == Failure(LongHead(boundary))
  {
    var first, rest := boundary + part.pad, PrintLines(part.lines) + CRLF;
    assert buf[..MAX_HEADER_SIZE] == buf;
    DelimiterLine(boundary, part.pad);
    BoundaryLine(buf, boundary, part.pad, rest);
    if |first| <= |buf| {
      BrokenBehindBoundary(buf, first, part.lines);
    } else if |boundary| <= |buf| {
      BreaksOffEarly(buf, first + CRLF, rest, 0);
      BreaksOffInLine(buf, first, 0, |ReadBlock(buf, NextLine(buf, |buf|)).lines| + 2);
    }
  }

  lemma BrokenBehindBoundary(buf: bytes, first: bytes, lines: seq<bytes>)
    requires OneLine(first) && |first| <= |buf| && Printable(lines)
    requires BreaksOff(buf, (first + CRLF) + (PrintLines(lines) + CRLF), 0)
    ensures RunsOff(buf, 0, |ReadBlock(buf, NextLine(buf, |first|)).lines| + 2)
  {
    var found := |ReadBlock(buf, NextLine(buf, |first|)).lines|;
    BreaksOffEarly(buf, first + CRLF, PrintLines(lines) + CRLF, 0);
    if |buf| < |first| + 2 {
      BreaksOffInLine(buf, first, 0, found + 2);
    } else {
      PrintedLineEnd(buf, first, 0);
      BreaksOffInLines(buf, lines, |first| + 2);
      RunsOffEarlier(buf, first, 0, |first| + 2, found + 1);
    }
  }

  /** The first of the remaining printed parts, if its head does not fit. */
  lemma CutLongPart(body: bytes, buf: bytes, boundary: bytes, parts: seq<Part>, epilogue: bytes, from: nat,
                    at: nat, next: nat)
    requires boundary != [] && OneLine(boundary) && parts != [] && PrintablePart(parts[0])
    requires !FitsHeader(boundary, parts[0])
    requires from <= |body| && |buf| == MAX_HEADER_SIZE && at == from + 2
    requires body[from..] == PrintParts(boundary, parts) + Closing(boundary, epilogue)
    ensures at <= |body|
    ensures CutPart(Refill(buf, body, at), HeaderLength(body, at), boundary, at, next) == Failure(LongHead(boundary))
  {
    var part := parts[0];
    NextDelimiter(body, boundary, parts, epilogue, from);
    PartBoundary(body, boundary, part, from);
    NextInside(body, boundary, parts[1..], epilogue, from + |PrintPart(boundary, part)|);
    PartLength(boundary, part);
    LongHeadAt(body, buf, boundary, part, at, next);
  }

  lemma LongHeadAt(body: bytes, buf: bytes, boundary: bytes, part: Part, at: nat, next: nat)
    requires boundary != [] && OneLine(boundary) && PrintablePart(part) && !FitsHeader(boundary, part)
    requires |buf| == MAX_HEADER_SIZE && OccursAt(body, PartHead(boundary, part), at)
    requires at + |PartHead(boundary, part)| + 4 <= |body|
    ensures CutPart(Refill(buf, body, at), HeaderLength(body, at), boundary, at, next) == Failure(LongHead(boundary))
  {
    var head, buf' := PartHead(boundary, part), Refill(buf, body, at);
    assert buf' == body[at..at + MAX_HEADER_SIZE];
    assert body[at..at + |head|] == head;
    if |head| <= MAX_HEADER_SIZE {
      assert buf'[0..|head|] == head;
      BoundaryShorter(boundary, part);
      CutFullHead(buf', boundary, part, at, next);
    } else {
      assert buf'[0..] == buf' == head[..MAX_HEADER_SIZE];
      CutBrokenHead(buf', boundary, part, at, next);
    }
  }

  lemma BoundaryShorter(boundary: bytes, part: Part)
    ensures |boundary| < |PartHead(boundary, part)|
  {
  }

  // ---- all parts

  lemma StartsIndices(idxs: seq<nat>, i: nat, boundary: bytes, parts: seq<Part>, from: nat)
    requires i <= |idxs| && idxs[i..] == Starts(boundary, parts, from)
    ensures i < |idxs| && idxs[i] == from + 2 && (parts == [] ==> i + 1 == |idxs|)
    ensures parts != [] ==>
              var next := from + |PrintPart(boundary, parts[0])|;
              && i + 1 < |idxs| && idxs[i + 1] == next + 2
              && idxs[i + 1..] == Starts(boundary, parts[1..], next)
  {
    assert idxs[i] == idxs[i..][0];
    if parts != [] {
      assert idxs[i + 1..] == idxs[i..][1..];
      assert idxs[i + 1] == idxs[i + 1..][0];
    }
  }

  lemma StartsNext(idxs: seq<nat>, i: nat, boundary: bytes, parts: seq<Part>, from: nat,
                   j: nat, rest: seq<Part>, next: nat)
    requires i <= |idxs| && idxs[i..] == Starts(boundary, parts, from) && parts != []
    requires j == i + 1 && rest == parts[1..] && next == from + |PrintPart(boundary, parts[0])|
    ensures j < |idxs| && idxs[j..] == Starts(boundary, rest, next)
  {
    StartsIndices(idxs, i, boundary, parts, from);
  }

  /** One turn of the decoding loop on a cut that holds a part. */
  lemma DecodeOne(
      p: Patterns, body: bytes, boundary: bytes, idxs: seq<nat>, i: nat, buf: bytes, forms: Forms, part: Part)
    requires |buf| == MAX_HEADER_SIZE && i + 1 < |idxs| && forall x :: x in idxs ==> x <= |body|
    requires idxs[i] <= |body|
    requires Holds(body, CutPart(Refill(buf, body, idxs[i]), HeaderLength(body, idxs[i]), boundary, idxs[i],
                                 idxs[i + 1]), part)
    ensures DecodeParts(p, body, boundary, idxs, i, buf, forms)
         == DecodeParts(p, body, boundary, idxs, i + 1, Refill(buf, body, idxs[i]),
                        Store(forms, PartInfo(p, forms.pcount, part.lines), part.payload))
  {
  }

  /** One turn of the decoding loop on the first of the remaining printed parts. */
  lemma DecodeFirst(
      p: Patterns, body: bytes, boundary: bytes, parts: seq<Part>, epilogue: bytes, from: nat,
      idxs: seq<nat>, i: nat, buf: bytes, forms: Forms) returns (buf': bytes, forms': Forms)
    requires boundary != [] && OneLine(boundary) && parts != [] && PrintablePart(parts[0])
    requires FitsHeader(boundary, parts[0])
    requires from <= |body| && |buf| == MAX_HEADER_SIZE && forall x :: x in idxs ==> x <= |body|
    requires body[from..] == PrintParts(boundary, parts) + Closing(boundary, epilogue)
    requires i + 1 < |idxs| && idxs[i] == from + 2 && idxs[i + 1] == from + |PrintPart(boundary, parts[0])| + 2
    ensures |buf'| == MAX_HEADER_SIZE
    ensures forms' == Store(forms, PartInfo(p, forms.pcount, parts[0].lines), parts[0].payload)
    ensures DecodeParts(p, body, boundary, idxs, i, buf, forms)
         == DecodeParts(p, body, boundary, idxs, i + 1, buf', forms')
  {
    CutPrintedPart(body, buf, boundary, parts, epilogue, from, idxs[i], idxs[i + 1]);
    DecodeOne(p, body, boundary, idxs, i, buf, forms, parts[0]);
    buf' := Refill(buf, body, idxs[i]);
    forms' := Store(forms, PartInfo(p, forms.pcount, parts[0].lines), parts[0].payload);
  }

  /** The loop ends on a part whose head does not fit, with the maps as they are. */
  lemma DecodeLong(
      p: Patterns, body: bytes, boundary: bytes, parts: seq<Part>, epilogue: bytes, from: nat,
      idxs: seq<nat>, i: nat, buf: bytes, forms: Forms)
    requires boundary != [] && OneLine(boundary) && parts != [] && PrintablePart(parts[0])
    requires !FitsHeader(boundary, parts[0])
    requires from <= |body| && |buf| == MAX_HEADER_SIZE && forall x :: x in idxs ==> x <= |body|
    requires body[from..] == PrintParts(boundary, parts) + Closing(boundary, epilogue)
    requires i + 1 < |idxs| && idxs[i] == from + 2
    ensures DecodeParts(p, body, boundary, idxs, i, buf, forms) == (forms, Some(LongHead(boundary)))
  {
    CutLongPart(body, buf, boundary, parts, epilogue, from, idxs[i], idxs[i + 1]);
  }

  /** The printed parts are stored one by one, up to the first one whose head does not fit. */
  lemma {:induction false} DecodePrintedParts(
      p: Patterns, body: bytes, boundary: bytes, parts: seq<Part>, epilogue: bytes, from: nat,
      idxs: seq<nat>, i: nat, buf: bytes, forms: Forms)
    requires boundary != [] && OneLine(boundary) && AllPrintable(parts)
    requires from <= |body| && |buf| == MAX_HEADER_SIZE && forall x :: x in idxs ==> x <= |body|
    requires body[from..] == PrintParts(boundary, parts) + Closing(boundary, epilogue)
    requires i < |idxs| && idxs[i..] == Starts(boundary, parts, from)
    ensures DecodeParts(p, body, boundary, idxs, i, buf, forms)
         == (StoreAll(p, forms, Fitting(boundary, parts)),
             if AllFit(boundary, parts) then None else Some(LongHead(boundary)))
    decreases |parts|
  {
    StartsIndices(idxs, i, boundary, parts, from);
    if parts != [] {
      FittingStep(p, forms, boundary, parts);
      if FitsHeader(boundary, parts[0]) {
        var next, rest := from + |PrintPart(boundary, parts[0])|, parts[1..];
        NextDelimiter(body, boundary, parts, epilogue, from);
        StartsNext(idxs, i, boundary, parts, from, i + 1, rest, next);
        var buf', forms' := DecodeFirst(p, body, boundary, parts, epilogue, from, idxs, i, buf, forms);
        DecodePrintedParts(p, body, boundary, rest, epilogue, next, idxs, i + 1, buf', forms');
      } else {
        DecodeLong(p, body, boundary, parts, epilogue, from, idxs, i, buf, forms);
      }
    }
  }

  lemma FittingStep(p: Patterns, forms: Forms, boundary: bytes, parts: seq<Part>)
    requires parts != [] && AllPrintable(parts)
    ensures PrintablePart(parts[0]) && AllPrintable(parts[1..])
    ensures AllFit(boundary, parts) <==> FitsHeader(boundary, parts[0]) && AllFit(boundary, parts[1..])
    ensures StoreAll(p, forms, Fitting(boundary, parts))
         == if !FitsHeader(boundary, parts[0]) then forms
            else StoreAll(p, Store(forms, PartInfo(p, forms.pcount, parts[0].lines), parts[0].payload),
                          Fitting(boundary, parts[1..]))
  {
    assert parts == [parts[0]] + parts[1..];
    if FitsHeader(boundary, parts[0]) {
      assert Fitting(boundary, parts)[1..] == Fitting(boundary, parts[1..]);
    }
  }

  lemma {:induction false} FittingAll(boundary: bytes, parts: seq<Part>)
    requires AllFit(boundary, parts)
    ensures Fitting(boundary, parts) == parts
    decreases |parts|
  {
    if parts != [] {
      assert parts == [parts[0]] + parts[1..];
      FittingAll(boundary, parts[1..]);
    }
  }

  /** Printing parts and decoding them, if the boundary occurs in the delimiters only: every part is stored with
  exactly its header lines and its payload, whatever line breaks the payload holds, and nothing is rejected,
  exactly if every part header stays below the buffer size less four. Otherwise the decoder rejects the body at
  the first longer header, with the parts before it stored. */
  lemma MultipartRoundTrip(
      p: Patterns, preamble: bytes, boundary: bytes, parts: seq<Part>, epilogue: bytes, forms: Forms)
    requires boundary != [] && OneLine(boundary) && parts != [] && AllPrintable(parts)
    requires var body := PrintBody(preamble, boundary, parts, epilogue);
             forall q :: OccursAt(body, boundary, q) ==> q in Starts(boundary, parts, |preamble|)
    ensures Decode(p, PrintBody(preamble, boundary, parts, epilogue), boundary, forms)
         == if AllFit(boundary, parts) then (StoreAll(p, forms, parts), None)
            else (StoreAll(p, forms, Fitting(boundary, parts)), Some(LongHead(boundary)))
  {
    var body := PrintBody(preamble, boundary, parts, epilogue);
    var ps := Starts(boundary, parts, |preamble|);
    assert body[|preamble|..] == PrintParts(boundary, parts) + Closing(boundary, epilogue);
    StartsFacts(body, boundary, parts, epilogue, |preamble|);
    PositionsUnique(body, boundary, ps);
    PositionsExact(body, boundary);
    assert ps[0..] == ps;
    DecodePrintedParts(p, body, boundary, parts, epilogue, |preamble|, ps, 0, Zeros(), forms);
    if AllFit(boundary, parts) {
      FittingAll(boundary, parts);
    }
  }

  /** A part with one header line that is too long for the buffer. */
  const LONG_PART: Part := Part([], [seq(MAX_HEADER_SIZE - 4, _ => 'a')], [])

  predicate OnceAt(s: bytes, c: byte, k: nat) {
    k < |s| && s[k] == c && forall i :: 0 <= i < |s| && i != k ==> s[i] != c
  }

  lemma LongPartOnce(filler: bytes)
    requires forall i :: 0 <= i < |filler| ==> filler[i] == 'a'
    ensures OnceAt(PrintPart("b", Part([], [filler], [])), 'b', 2) && OnceAt(Closing("b", []), 'b', 2)
  {
    var none: seq<bytes> := [];
    assert [filler][1..] == none && PrintLines(none) == [];
    var lines := PrintLines([filler]);
    assert lines == filler + CRLF;
    assert forall i :: 0 <= i < |lines + CRLF| ==> (lines + CRLF)[i] != 'b';
    var part := PrintPart("b", Part([], [filler], []));
    assert ("b" + []) + CRLF == "b" + CRLF;
    assert part == ("--" + "b" + CRLF) + ((lines + CRLF) + CRLF);
    assert ("--" + "b" + CRLF)[2] == 'b';
  }

  lemma OnlyInDelimiters(first: bytes, last: bytes, q: nat)
    requires OnceAt(first, 'b', 2) && OnceAt(last, 'b', 2) && OccursAt([] + ((first + []) + last), "b", q)
    ensures q == 2 || q == |first| + 2
  {
    var body := [] + ((first + []) + last);
    assert body == first + last;
    OccursIndex(body, "b", q);
    assert body[q] == 'b';
  }

  /** Its body is rejected although the boundary occurs in the delimiters only. */
  lemma LongPartRejected(p: Patterns, forms: Forms)
    ensures Decode(p, PrintBody([], "b", [LONG_PART], []), "b", forms) == (forms, Some(HeaderTooLong))
  {
    var parts, first, last := [LONG_PART], PrintPart("b", LONG_PART), Closing("b", []);
    var none: seq<Part> := [];
    assert parts[1..] == none && PrintParts("b", parts) == first + [];
    assert !Blank(LONG_PART.lines[0]) by { assert LONG_PART.lines[0][0] == 'a'; }
    assert AllPrintable(parts);
    assert |PartHead("b", LONG_PART)| > |LONG_PART.lines[0]|;
    assert !FitsHeader("b", LONG_PART) && LONG_PART in parts;
    LongPartOnce(LONG_PART.lines[0]);
    forall q | OccursAt(PrintBody([], "b", parts, []), "b", q) ensures q in Starts("b", parts, 0) {
      OnlyInDelimiters(first, last, q);
      assert Starts("b", parts, 0) == [2] + Starts("b", none, |first|) == [2, |first| + 2];
    }
    MultipartRoundTrip(p, [], "b", parts, [], forms);
    assert Fitting("b", parts) == [];
  }

  // ---- uploads

  /** The number of file parts stored from the i-th boundary on. */
  function FilesStored(p: Patterns, body: bytes, boundary: bytes, idxs: seq<nat>, i: nat, buf: bytes, forms: Forms)
      : nat
    requires |buf| == MAX_HEADER_SIZE && forall x :: x in idxs ==> x <= |body|
    decreases |idxs| - i
  {
    if i + 1 >= |idxs| then 0
    else
      assert idxs[i] in idxs && idxs[i + 1] in idxs;
      var buf' := Refill(buf, body, idxs[i]);
      var cut := CutPart(buf', HeaderLength(body, idxs[i]), boundary, idxs[i], idxs[i + 1]);
      var (forms', error) := StoreCut(p, forms, body, cut);
      if error.Some? then 0
      else (if PartInfo(p, forms.pcount, cut.lines).contentType == None then 0 else 1)
           + FilesStored(p, body, boundary, idxs, i + 1, buf', forms')
  }

  predicate Extends(files: map<Name, bytes>, files': map<Name, bytes>) {
    forall k :: k in files ==> k in files' && files'[k] == files[k]
  }

  /** On any body, also one that ends in an error: every file part adds exactly one entry, and no entry is
  ever replaced. */
  lemma {:induction false} NoUploadLost(
      p: Patterns, body: bytes, boundary: bytes, idxs: seq<nat>, i: nat, buf: bytes, forms: Forms)
    requires |buf| == MAX_HEADER_SIZE && forall x :: x in idxs ==> x <= |body|
    ensures var files := DecodeParts(p, body, boundary, idxs, i, buf, forms).0.files;
            && |files| == |forms.files| + FilesStored(p, body, boundary, idxs, i, buf, forms)
            && Extends(forms.files, files)
    decreases |idxs| - i
  {
    if i + 1 < |idxs| {
      assert idxs[i] in idxs && idxs[i + 1] in idxs;
      var buf' := Refill(buf, body, idxs[i]);
      var cut := CutPart(buf', HeaderLength(body, idxs[i]), boundary, idxs[i], idxs[i + 1]);
      if cut.Cut? {
        StoringKeepsFiles(forms.files, PartInfo(p, forms.pcount, cut.lines).name, Content(body, cut));
      }
      var (forms', error) := StoreCut(p, forms, body, cut);
      if error == None {
        NoUploadLost(p, body, boundary, idxs, i + 1, buf', forms');
      }
    }
  }
}

/** Cutting a multipart body into parts and storing them. */
module Multipart {
  import opened Octets
  import opened Lines
  import opened Boundary
  import opened Uploads

  const MAX_HEADER_SIZE := 1024

  datatype Error = TooFewBoundaries | NoBoundaryLine | HeaderTooLong | Inverted

  /** What the regular expressions find in a header line: the attributes of a Content-Disposition, in order,
  and the value of a Content-Type. */
  datatype Patterns = Patterns(disposition: bytes -> Option<seq<(bytes, bytes)>>, contentType: bytes -> Option<bytes>)

  // ---- the extent of a part

  /** The index after the count-th line feed from index on; None is running off the end of the buffer. */
  function SkipLines(buf: bytes, index: nat, count: nat): (n: Option<nat>)
    requires index <= |buf|
    ensures n.Some? ==> n.value <= |buf|
    decreases count
  {
    if count == 0 then Some(index)
    else
      var q := IndexFrom(buf, '\n', index);
      if q == |buf| then None else SkipLines(buf, q + 1, count - 1)
  }

  /** A part as cut out of the body: its header lines and where its data starts and ends. */
  datatype Cut =
    | Cut(lines: seq<bytes>, start: nat, end: int)
    | Failure(error: Error)

  function HeaderLength(body: bytes, at: nat): (len: nat)
    requires at <= |body|
    ensures at + len <= |body| && len <= MAX_HEADER_SIZE
  {
    Min(|body| - at, MAX_HEADER_SIZE)
  }

  /** The header buffer after reading at the boundary; old bytes stay beyond what was read. */
  function Refill(buf: bytes, body: bytes, at: nat): (buf': bytes)
    requires |buf| == MAX_HEADER_SIZE && at <= |body|
    ensures |buf'| == MAX_HEADER_SIZE
  {
    var len := HeaderLength(body, at);
    body[at..at + len] + buf[len..]
  }

  /** Cuts the part whose boundary starts at `at` and whose next boundary starts at `next`; len bytes of the
  buffer are its header and beginning. */
  function CutPart(buf: bytes, len: nat, boundary: bytes, at: nat, next: nat): Cut
    requires len <= |buf| == MAX_HEADER_SIZE
  {
    var s := buf[..len];
    var q := LineEnd(s, 0);
    if len == 0 || !Contains(s[..q], boundary) then Failure(NoBoundaryLine)
    else
      var lines := ReadBlock(s, NextLine(s, q)).lines;
      match SkipLines(buf, 0, |lines| + 2)
      case None => Failure(HeaderTooLong)
      case Some(h) => if h >= len - 4 then Failure(HeaderTooLong) else Cut(lines, at + h, next - 4)
  }

  // ---- what is stored

  datatype Info = Info(name: Name, fileName: Name, contentType: Name, pcount: nat)

  function Attribute(info: Info, key: bytes, value: bytes): Info {
    if Lower(key) == "name" then info.(name := Some(value))
    else if Lower(key) == "filename" then
      if value == [] then info.(fileName := Some(value))
      else if info.pcount > 0 then
        info.(fileName := Some(value), name := Numbered(info.name, info.pcount), pcount := info.pcount + 1)
      else info.(fileName := Some(value), pcount := 1)
    else info
  }

  function Attributes(info: Info, attributes: seq<(bytes, bytes)>): Info
    decreases |attributes|
  {
    if attributes == [] then info
    else Attributes(Attribute(info, attributes[0].0, attributes[0].1), attributes[1..])
  }

  function HeaderLine(p: Patterns, info: Info, line: bytes): Info {
    var named := match p.disposition(line)
      case None => info
      case Some(attributes) => Attributes(info, attributes);
    match p.contentType(line)
    case None => named
    case Some(t) => named.(contentType := Some(Trim(t)))
  }

  function HeaderLines(p: Patterns, info: Info, lines: seq<bytes>): Info
    decreases |lines|
  {
    if lines == [] then info else HeaderLines(p, HeaderLine(p, info, lines[0]), lines[1..])
  }

  /** The maps the handler gets, and the counter of named files. */
  datatype Forms = Forms(parms: map<Name, Name>, files: map<Name, bytes>, pcount: nat)

  function PartInfo(p: Patterns, pcount: nat, lines: seq<bytes>): Info {
    HeaderLines(p, Info(None, None, None, pcount), lines)
  }

  function Store(forms: Forms, info: Info, content: bytes): Forms {
    if info.contentType == None then
      forms.(parms := forms.parms[info.name := Some(content)], pcount := info.pcount)
    else
      Forms(forms.parms[info.name := info.fileName],
            forms.files[FileKey(forms.files.Keys, info.name) := content],
            info.pcount)
  }

  /** The data of a cut part; an inverted one is empty. */
  function Content(body: bytes, cut: Cut): bytes
    requires cut.Cut? && cut.end <= |body|
  {
    if cut.start <= cut.end then body[cut.start..cut.end] else []
  }

  /** Storing one part; a text part that would end before it starts cannot be stored. */
  function StoreCut(p: Patterns, forms: Forms, body: bytes, cut: Cut): (r: (Forms, Option<Error>))
    requires cut.Cut? ==> cut.end <= |body|
  {
    match cut
    case Failure(e) => (forms, Some(e))
    case Cut(lines, start, end) =>
      var info := PartInfo(p, forms.pcount, lines);
      if end < start && info.contentType == None then (forms, Some(Inverted))
      else (Store(forms, info, Content(body, cut)), None)
  }

  /** The parts from the i-th boundary on. */
  function DecodeParts(p: Patterns, body: bytes, boundary: bytes, idxs: seq<nat>, i: nat, buf: bytes, forms: Forms)
      : (r: (Forms, Option<Error>))
    requires |buf| == MAX_HEADER_SIZE && forall x :: x in idxs ==> x <= |body|
    decreases |idxs| - i
  {
    if i + 1 >= |idxs| then (forms, None)
    else
      assert idxs[i] in idxs && idxs[i + 1] in idxs;
      var buf' := Refill(buf, body, idxs[i]);
      var cut := CutPart(buf', HeaderLength(body, idxs[i]), boundary, idxs[i], idxs[i + 1]);
      var (forms', error) := StoreCut(p, forms, body, cut);
      if error.Some? then (forms', error) else DecodeParts(p, body, boundary, idxs, i + 1, buf', forms')
  }

  /** A new byte array. */
  function Zeros(): bytes {
    seq(MAX_HEADER_SIZE, _ => 0 as char)
  }

  /** decodeMultipartFormData on maps that may already hold entries. */
  function Decode(p: Patterns, body: bytes, boundary: bytes, forms: Forms): (Forms, Option<Error>) {
    var idxs := Positions(body, boundary);
    PositionsExact(body, boundary);
    if |idxs| < 2 then (forms, Some(TooFewBoundaries)) else DecodeParts(p, body, boundary, idxs, 0, Zeros(), forms)
  }

  // ---- the decoder as it runs

  class Decoder {
    const patterns: Patterns
    var parms: map<Name, Name>
    var files: map<Name, bytes>

    constructor (patterns: Patterns, parms: map<Name, Name>, files: map<Name, bytes>)
      ensures this.patterns == patterns && this.parms == parms && this.files == files
    {
      this.patterns, this.parms, this.files := patterns, parms, files;
    }

    static method SkipOverNewLine(buf: array<byte>, index: nat) returns (n: Option<nat>)
      requires index <= buf.Length
      ensures n == SkipLines(buf[..], index, 1)
    {
      var i := index;
      while i < buf.Length && buf[i] != '\n'
        invariant index <= i <= buf.Length
        invariant IndexFrom(buf[..], '\n', index) == IndexFrom(buf[..], '\n', i)
      {
        i := i + 1;
      }
      assert buf[..][..] == buf[..];
      if i == buf.Length {
        return None;
      }
      assert SkipLines(buf[..], i + 1, 0) == Some(i + 1);
      return Some(i + 1);
    }

    static method SkipHeader(buf: array<byte>, headerLines: nat) returns (n: Option<nat>)
      ensures n == SkipLines(buf[..], 0, headerLines)
    {
      var left: nat, index: nat := headerLines, 0;
      while left > 0
        invariant index <= buf.Length && SkipLines(buf[..], 0, headerLines) == SkipLines(buf[..], index, left)
      {
        var next := SkipOverNewLine(buf, index);
        if next == None {
          return None;
        }
        index, left := next.value, left - 1;
      }
      return Some(index);
    }

    method ReadAttributes(attributes: seq<(bytes, bytes)>, before: Info) returns (info: Info)
      ensures info == Attributes(before, attributes)
    {
      info := before;
      var i := 0;
      while i < |attributes|
        invariant i <= |attributes| && Attributes(before, attributes) == Attributes(info, attributes[i..])
      {
        var (key, value) := attributes[i];
        if Lower(key) == "name" {
          info := info.(name := Some(value));
        } else if Lower(key) == "filename" {
          info := info.(fileName := Some(value));
          if value != [] {
            if info.pcount > 0 {
              info := info.(name := Numbered(info.name, info.pcount), pcount := info.pcount + 1);
            } else {
              info := info.(pcount := info.pcount + 1);
            }
          }
        }
        i := i + 1;
      }
    }

    /** Reads the header lines at p and counts them, with the boundary line and the last one read. */
    method ReadPartHeader(s: bytes, start: nat, before: Info) returns (info: Info, headerLines: nat)
      requires start <= |s|
      ensures info == HeaderLines(patterns, before, ReadBlock(s, start).lines)
      ensures headerLines == |ReadBlock(s, start).lines| + 2
    {
      info, headerLines := before, 2;
      var p := start;
      while p < |s| && !Blank(s[p..LineEnd(s, p)])
        invariant start <= p <= |s|
        invariant HeaderLines(patterns, before, ReadBlock(s, start).lines)
               == HeaderLines(patterns, info, ReadBlock(s, p).lines)
        invariant headerLines + |ReadBlock(s, p).lines| == |ReadBlock(s, start).lines| + 2
        decreases |s| - p
      {
        ReadBlockLine(s, p);
        var q := LineEnd(s, p);
        var line := s[p..q];
        var attributes := patterns.disposition(line);
        if attributes.Some? {
          info := ReadAttributes(attributes.value, info);
        }
        var t := patterns.contentType(line);
        if t.Some? {
          info := info.(contentType := Some(Trim(t.value)));
        }
        headerLines := headerLines + 1;
        p := NextLine(s, q);
      }
    }

    /** Cuts the part and collects what its header says. */
    method ReadPart(buf: array<byte>, len: nat, boundary: bytes, at: nat, next: nat, pcount: nat)
        returns (cut: Cut, info: Info)
      requires len <= buf.Length == MAX_HEADER_SIZE
      ensures cut == CutPart(buf[..], len, boundary, at, next)
      ensures cut.Cut? ==> info == PartInfo(patterns, pcount, cut.lines)
    {
      info := Info(None, None, None, pcount);
      var s := buf[..len];
      assert s == buf[..][..len];
      var q := LineEnd(s, 0);
      if len == 0 || !Contains(s[..q], boundary) {
        return Failure(NoBoundaryLine), info;
      }
      var p := NextLine(s, q);
      var headerLines;
      info, headerLines := ReadPartHeader(s, p, info);
      var h := SkipHeader(buf, headerLines);
      if h == None || h.value >= len - 4 {
        return Failure(HeaderTooLong), info;
      }
      return Cut(ReadBlock(s, p).lines, at + h.value, next - 4), info;
    }

    method StorePart(info: Info, body: bytes, cut: Cut) returns (ok: bool)
      requires cut.Cut? && cut.end <= |body|
      modifies this
      ensures ok == !(cut.end < cut.start && info.contentType == None)
      ensures Forms(parms, files, info.pcount)
           == if ok then Store(Forms(old(parms), old(files), info.pcount), info, Content(body, cut))
              else Forms(old(parms), old(files), info.pcount)
    {
      if info.contentType == None {
        if cut.end < cut.start {
          return false;
        }
        parms := parms[info.name := Some(body[cut.start..cut.end])];
      } else {
        var content := if cut.end - cut.start > 0 then body[cut.start..cut.end] else [];
        assert content == Content(body, cut);
        var key := ChooseKey(files, info.name);
        files := files[key := content];
        parms := parms[info.name := info.fileName];
      }
      return true;
    }

    /** Reads the header of one part into the buffer, cuts the part and stores it. */
    method DecodePart(buf: array<byte>, body: bytes, boundary: bytes, at: nat, next: nat, pcount: nat)
        returns (error: Option<Error>, pcount': nat)
      requires buf.Length == MAX_HEADER_SIZE && at <= |body| && next <= |body|
      modifies this, buf
      ensures buf[..] == Refill(old(buf[..]), body, at)
      ensures var cut := CutPart(buf[..], HeaderLength(body, at), boundary, at, next);
              var (forms, e) := StoreCut(patterns, Forms(old(parms), old(files), pcount), body, cut);
              error == e && Forms(parms, files, pcount') == forms
    {
      pcount' := pcount;
      var len := Min(|body| - at, MAX_HEADER_SIZE);
      ghost var before := buf[..];
      Get(body, at, buf, 0, len);
      assert buf[..] == Refill(before, body, at);
      var cut, info := ReadPart(buf, len, boundary, at, next, pcount);
      if cut.Failure? {
        return Some(cut.error), pcount;
      }
      var ok := StorePart(info, body, cut);
      if !ok {
        return Some(Inverted), pcount;
      }
      return None, info.pcount;
    }

    method DecodeMultipartFormData(body: bytes, boundary: bytes) returns (error: Option<Error>)
      modifies this
      ensures var (forms, e) := Decode(patterns, body, boundary, Forms(old(parms), old(files), 0));
              parms == forms.parms && files == forms.files && error == e
    {
      var idxs := GetBoundaryPositions(body, boundary);
      PositionsExact(body, boundary);
      if |idxs| < 2 {
        return Some(TooFewBoundaries);
      }
      var buf := new byte[MAX_HEADER_SIZE](_ => 0 as char);
      assert buf[..] == Zeros();
      ghost var goal := Decode(patterns, body, boundary, Forms(parms, files, 0));
      var pcount, i := 0, 0;
      while i < |idxs| - 1
        invariant i <= |idxs| - 1
        invariant goal == DecodeParts(patterns, body, boundary, idxs, i, buf[..], Forms(parms, files, pcount))
      {
        assert idxs[i] in idxs && idxs[i + 1] in idxs;
        error, pcount := DecodePart(buf, body, boundary, idxs[i], idxs[i + 1], pcount);
        if error.Some? {
          return;
        }
        i := i + 1;
      }
      return None;
    }
  }
}

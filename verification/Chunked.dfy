/** Chunked transfer coding: RFC 2616, section 3.6.1. */
module Chunked {
  import opened Octets
  import opened Numerals

  const LAST_CHUNK: bytes := "0\r\n\r\n"

  /** What one write call puts on the wire; an empty write puts nothing. */
  function Chunk(data: bytes): bytes {
    if data == [] then [] else (Print(|data|, 16) + CRLF) + (data + CRLF)
  }

  function Chunks(writes: seq<bytes>): bytes {
    if writes == [] then [] else Chunks(writes[..|writes| - 1]) + Chunk(writes[|writes| - 1])
  }

  function Concat(writes: seq<bytes>): bytes {
    if writes == [] then [] else Concat(writes[..|writes| - 1]) + writes[|writes| - 1]
  }

  /** n bytes of data and the line end behind them; and the bytes after that. */
  function DataAt(s: bytes, start: nat, n: nat): (r: Option<(bytes, bytes)>)
    requires start <= |s|
    ensures r.Some? ==> |r.value.1| + 2 <= |s|
  {
    if OccursAt(s, CRLF, start + n) then Some((s[start..start + n], s[start + n + 2..])) else None
  }

  /** The data of the first chunk, and the bytes after it; a last chunk has no data. */
  function FirstChunk(s: bytes): (r: Option<(bytes, bytes)>)
    ensures r.Some? ==> |r.value.1| < |s|
  {
    var q := IndexFrom(s, '\r', 0);
    match Parse(s[..q], 16)
    case None => None
    case Some(n) => if OccursAt(s, CRLF, q) then DataAt(s, q + 2, n) else None
  }

  /** A client's decoder: the data of the chunks up to the last one, and the bytes after it. None is a
  malformed or incomplete coding. */
  function Dechunk(s: bytes): Option<(bytes, bytes)>
    decreases |s|
  {
    match FirstChunk(s)
    case None => None
    case Some((data, after)) =>
      if data == [] then Some(([], after))
      else
        match Dechunk(after)
        case None => None
        case Some((more, rest)) => Some((data + more, rest))
  }

  lemma SizeLine(n: nat, after: bytes)
    ensures var s, q := Print(n, 16) + CRLF + after, |Print(n, 16)|;
            && IndexFrom(s, '\r', 0) == q && s[..q] == Print(n, 16) && Parse(s[..q], 16) == Some(n)
            && OccursAt(s, CRLF, q) && s[q + 2..] == after
  {
    var digits := Print(n, 16);
    var s, q := digits + CRLF + after, |digits|;
    PrintedDigits(n, 16);
    PrintParse(n, 16);
    assert s[..q] == digits;
    forall i | 0 <= i < q ensures s[i] != '\r' {
      assert s[i] == digits[i] && DigitValue(digits[i], 16).Some?;
    }
    IndexFromUnique(s, '\r', 0, q);
  }

  lemma Regroup(a: bytes, b: bytes, c: bytes, d: bytes, e: bytes)
    ensures (a + b) + (c + d) + e == a + b + (c + (d + e))
  {
  }

  lemma RegroupWrites(before: bytes, a: bytes, b: bytes, c: bytes)
    ensures ((before + a) + b) + c == before + (a + (b + c))
  {
  }

  lemma DataIs(s: bytes, start: nat, data: bytes, after: bytes)
    requires start <= |s| && s[start..] == data + (CRLF + after)
    ensures DataAt(s, start, |data|) == Some((data, after))
  {
    SliceOfSuffix(s, start, data, CRLF + after);
    SliceOfSuffix(s, start + |data|, CRLF, after);
  }

  /** The first chunk of s, whose size line ends at q. */
  lemma FirstAt(s: bytes, q: nat, data: bytes, after: bytes)
    requires IndexFrom(s, '\r', 0) == q && q + 2 <= |s| && OccursAt(s, CRLF, q)
    requires Parse(s[..q], 16) == Some(|data|) && s[q + 2..] == data + (CRLF + after)
    ensures FirstChunk(s) == Some((data, after))
  {
    DataIs(s, q + 2, data, after);
  }

  lemma FirstPrinted(data: bytes, after: bytes)
    ensures FirstChunk((Print(|data|, 16) + CRLF) + (data + CRLF) + after) == Some((data, after))
  {
    var digits, tail := Print(|data|, 16), data + (CRLF + after);
    SizeLine(|data|, tail);
    FirstAt(digits + CRLF + tail, |digits|, data, after);
    Regroup(digits, CRLF, data, CRLF, after);
  }

  lemma DechunkLast(after: bytes)
    ensures Dechunk(LAST_CHUNK + after) == Some(([], after))
  {
    FirstPrinted([], after);
    assert Print(0, 16) == ['0'];
    assert LAST_CHUNK + after == (Print(0, 16) + CRLF) + ([] + CRLF) + after;
  }

  lemma DechunkOne(data: bytes, after: bytes)
    requires data != []
    ensures Dechunk(Chunk(data) + after)
         == match Dechunk(after)
            case None => None
            case Some((more, rest)) => Some((data + more, rest))
  {
    FirstPrinted(data, after);
  }

  /** One more write in front, empty or not. */
  lemma DechunkMore(write: bytes, after: bytes, data: bytes, rest: bytes)
    requires Dechunk(after) == Some((data, rest))
    ensures Dechunk(Chunk(write) + after) == Some((write + data, rest))
  {
    if write == [] {
      assert Chunk(write) + after == after && write + data == data;
    } else {
      DechunkOne(write, after);
    }
  }

  lemma LastWrite(writes: seq<bytes>, after: bytes, data: bytes)
    requires writes != []
    ensures var front, last := writes[..|writes| - 1], writes[|writes| - 1];
      && Chunks(writes) + after == Chunks(front) + (Chunk(last) + after)
      && Concat(writes) + data == Concat(front) + (last + data)
  {
    var front, last := writes[..|writes| - 1], writes[|writes| - 1];
    AppendAssociates(Chunks(front), Chunk(last), after);
    AppendAssociates(Concat(front), last, data);
  }

  /** For any sequence of writes, empty ones among them: the decoder returns exactly the bytes written, and
  stops exactly where the coding ends. */
  lemma {:induction false} ChunkedRoundTrip(writes: seq<bytes>, after: bytes, data: bytes, rest: bytes)
    requires Dechunk(after) == Some((data, rest))
    ensures Dechunk(Chunks(writes) + after) == Some((Concat(writes) + data, rest))
    decreases |writes|
  {
    if writes == [] {
      assert Chunks(writes) + after == after && Concat(writes) + data == data;
    } else {
      var front, last := writes[..|writes| - 1], writes[|writes| - 1];
      DechunkMore(last, after, data, rest);
      ChunkedRoundTrip(front, Chunk(last) + after, last + data, rest);
      LastWrite(writes, after, data);
    }
  }

  /** The whole body: chunks, last chunk, and whatever is sent next on the connection. */
  lemma ChunkedBodyRoundTrip(writes: seq<bytes>, rest: bytes)
    ensures Dechunk(Chunks(writes) + LAST_CHUNK + rest) == Some((Concat(writes), rest))
  {
    DechunkLast(rest);
    ChunkedRoundTrip(writes, LAST_CHUNK + rest, [], rest);
    assert Chunks(writes) + LAST_CHUNK + rest == Chunks(writes) + (LAST_CHUNK + rest);
    assert Concat(writes) + [] == Concat(writes);
  }

  class ChunkedOutputStream {
    var out: bytes

    constructor (out: bytes)
      ensures this.out == out
    {
      this.out := out;
    }

    method Write(b: bytes, off: nat, len: nat)
      requires off + len <= |b|
      modifies this
      ensures out == old(out) + Chunk(b[off..off + len])
    {
      if len == 0 {
        return;
      }
      ghost var before, data := out, b[off..off + len];
      out := out + (Print(len, 16) + CRLF);
      out := out + b[off..off + len];
      out := out + CRLF;
      RegroupWrites(before, Print(len, 16) + CRLF, data, CRLF);
    }

    method Finish()
      modifies this
      ensures out == old(out) + LAST_CHUNK
    {
      out := out + LAST_CHUNK;
    }
  }
}

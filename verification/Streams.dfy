/** Input streams whose reads deliver any part of what was asked for. */
module Streams {
  import opened Octets

  /** What a read that wants n bytes delivers when at most max can be delivered now. */
  function Grant(n: nat, max: nat): (g: nat)
    requires max > 0
    ensures 1 <= g <= max
  {
    if n == 0 then 1 else Min(n, max)
  }

  /** The number of bytes that a read with result n put into the buffer. */
  function Got(n: int): nat {
    if n < 0 then 0 else n
  }

  /** java.io.BufferedInputStream over a socket: data is everything the peer sends before it closes, and the
  k-th read delivers what schedule(k) lets through. */
  class BufferedInput {
    const data: bytes
    const schedule: nat -> nat
    var readCount: nat
    var pos: nat
    var buffered: nat
    var markPos: int
    var markLimit: nat

    ghost predicate Valid()
      reads this
    {
      pos <= buffered <= |data| && -1 <= markPos <= pos
    }

    constructor (data: bytes, schedule: nat -> nat)
      ensures Valid() && this.data == data && this.schedule == schedule && pos == 0 && readCount == 0
    {
      this.data, this.schedule := data, schedule;
      readCount, pos, buffered, markPos, markLimit := 0, 0, 0, -1, 0;
    }

    method Mark(limit: nat)
      requires Valid()
      modifies this`markPos, this`markLimit
      ensures Valid() && markPos == pos && markLimit == limit
    {
      markPos, markLimit := pos, limit;
    }

    /** Reading past the mark limit would drop the mark, so no more than that may have been read. */
    method Reset()
      requires Valid() && markPos >= 0 && pos - markPos <= markLimit
      modifies this`pos
      ensures Valid() && pos == markPos
    {
      pos := markPos;
    }

    /** Skips inside the buffer only; n is reached whenever that many bytes are buffered. */
    method Skip(n: nat) returns (k: nat)
      requires Valid()
      modifies this`pos
      ensures Valid() && pos == old(pos) + k
      ensures k == Min(n, buffered - old(pos))
    {
      k := Min(n, buffered - pos);
      pos := pos + k;
    }

    method Read(buf: array<byte>, off: nat, len: nat) returns (n: int)
      requires Valid() && off + len <= buf.Length
      modifies this`pos, this`readCount, this`buffered, buf
      ensures Valid() && old(pos) <= pos
      ensures n == if len == 0 then 0
                   else if old(pos) == |data| then -1
                   else Grant(schedule(old(readCount)), Min(len, |data| - old(pos)))
      ensures pos == old(pos) + Got(n)
      ensures readCount == old(readCount) + (if n > 0 then 1 else 0)
      ensures off + Got(n) <= buf.Length
      ensures buf[..off + Got(n)] == old(buf[..off]) + data[old(pos)..pos]
    {
      if len == 0 {
        return 0;
      }
      if pos == |data| {
        return -1;
      }
      n := Grant(schedule(readCount), Min(len, |data| - pos));
      forall i | 0 <= i < n {
        buf[off + i] := data[pos + i];
      }
      pos, readCount := pos + n, readCount + 1;
      // the stream may have buffered more than it handed out
      var b :| (if buffered < pos then pos else buffered) <= b <= |data|;
      buffered := b;
    }
  }
}

/** The sliding-window search for multipart boundaries refines a naive search. */
module Boundary {
  import opened Octets

  const BLOCK := 4096

  /** Byte by byte comparison up to the last byte of the pattern: an empty pattern is found nowhere. */
  predicate Matches(s: bytes, pattern: bytes, p: int) {
    pattern != [] && OccursAt(s, pattern, p)
  }

  /** The positions below hi where the pattern occurs, in ascending order. */
  function OccurrencesBelow(s: bytes, pattern: bytes, hi: nat): seq<nat> {
    if hi == 0 then []
    else OccurrencesBelow(s, pattern, hi - 1) + (if Matches(s, pattern, hi - 1) then [hi - 1] else [])
  }

  /** A boundary that ends on the last byte of the body is not looked for. */
  function Positions(body: bytes, boundary: bytes): seq<nat> {
    if |body| < |boundary| then []
    else OccurrencesBelow(body, boundary, |body| - |boundary|)
  }

  lemma {:induction false} OccurrencesExact(s: bytes, pattern: bytes, hi: nat)
    ensures var ps := OccurrencesBelow(s, pattern, hi);
            && Ascending(ps)
            && (forall p :: p in ps <==> 0 <= p < hi && Matches(s, pattern, p))
  {
    if hi > 0 {
      OccurrencesExact(s, pattern, hi - 1);
      var before := OccurrencesBelow(s, pattern, hi - 1);
      forall i | 0 <= i < |before| ensures before[i] < hi - 1 {
        assert before[i] in before;
      }
      if Matches(s, pattern, hi - 1) {
        OneMore(before, hi - 1);
      }
    }
  }

  lemma OneMore(ps: seq<nat>, x: nat)
    requires Ascending(ps) && forall i :: 0 <= i < |ps| ==> ps[i] < x
    ensures Ascending(ps + [x])
    ensures forall p :: p in ps + [x] <==> p in ps || p == x
  {
  }

  /** The search result, position by position: every occurrence that starts below |body| - |boundary| is
  listed, once and in order, wherever the windows meet. */
  lemma PositionsExact(body: bytes, boundary: bytes)
    ensures var ps := Positions(body, boundary);
            && Ascending(ps)
            && (forall p :: p in ps <==> 0 <= p < |body| - |boundary| && Matches(body, boundary, p))
  {
    if |body| >= |boundary| {
      OccurrencesExact(body, boundary, |body| - |boundary|);
    }
  }

  lemma SameSlice(a: bytes, b: bytes, start: nat, j: nat, n: nat)
    requires j + n <= |a| && start + j + n <= |b|
    requires forall i :: j <= i < j + n ==> a[i] == b[start + i]
    ensures a[j..j + n] == b[start + j..start + j + n]
  {
  }

  predicate SameMembers(a: seq<nat>, b: seq<nat>) {
    (forall i :: 0 <= i < |a| ==> a[i] in b) && (forall i :: 0 <= i < |b| ==> b[i] in a)
  }

  lemma FirstIsMember(a: seq<nat>, b: seq<nat>)
    requires SameMembers(a, b) && b != []
    ensures b[0] in a
  {
  }

  lemma LargestIsLast(a: seq<nat>, x: nat)
    requires Ascending(a) && x in a
    ensures x <= a[|a| - 1]
  {
  }

  lemma WithoutLast(x: seq<nat>, p: nat, v: nat)
    requires Ascending(x + [p])
    ensures v in x <==> v in x + [p] && v != p
    ensures Ascending(x)
  {
    var a := x + [p];
    forall i | 0 <= i < |x| ensures x[i] < p {
      assert a[i] == x[i] && a[|x|] == p;
    }
    forall i, j | 0 <= i < j < |x| ensures x[i] < x[j] {
      assert a[i] == x[i] && a[j] == x[j];
    }
  }

  /** Both lists end with the same member, and without it they still have the same members. */
  lemma SameLast(x: seq<nat>, p: nat, y: seq<nat>, q: nat)
    requires Ascending(x + [p]) && Ascending(y + [q]) && SameMembers(x + [p], y + [q])
    ensures p == q && SameMembers(x, y) && Ascending(x) && Ascending(y)
  {
    var a, b := x + [p], y + [q];
    assert a[|x|] == p && b[|y|] == q;
    LargestIsLast(b, p);
    LargestIsLast(a, q);
    WithoutLast(x, p, p);
    WithoutLast(y, q, q);
    forall i | 0 <= i < |x| ensures x[i] in y {
      assert a[i] == x[i];
      WithoutLast(x, p, x[i]);
      WithoutLast(y, q, x[i]);
    }
    forall i | 0 <= i < |y| ensures y[i] in x {
      assert b[i] == y[i];
      WithoutLast(x, p, y[i]);
      WithoutLast(y, q, y[i]);
    }
  }

  lemma {:induction false} AscendingUnique(a: seq<nat>, b: seq<nat>)
    requires Ascending(a) && Ascending(b) && SameMembers(a, b)
    ensures a == b
    decreases |a|
  {
    if a == [] && b != [] {
      FirstIsMember(a, b);
      assert false;
    } else if a != [] && b == [] {
      FirstIsMember(b, a);
      assert false;
    } else if a != [] {
      var m, n := |a| - 1, |b| - 1;
      assert a == a[..m] + [a[m]];
      assert b == b[..n] + [b[n]];
      SameLast(a[..m], a[m], b[..n], b[n]);
      AscendingUnique(a[..m], b[..n]);
    }
  }

  /** An ascending list with the right members is the search result. */
  lemma PositionsUnique(body: bytes, boundary: bytes, ps: seq<nat>)
    requires Ascending(ps)
    requires forall p :: p in ps <==> 0 <= p < |body| - |boundary| && Matches(body, boundary, p)
    ensures ps == Positions(body, boundary)
  {
    var found := Positions(body, boundary);
    PositionsExact(body, boundary);
    forall i | 0 <= i < |found| ensures found[i] in ps {
      assert found[i] in found;
    }
    forall i | 0 <= i < |ps| ensures ps[i] in found {
      assert ps[i] in ps;
    }
    AscendingUnique(ps, found);
  }

  /** ByteBuffer.get: copies n bytes of the body from pos into the window at off. */
  method Get(body: bytes, pos: nat, window: array<byte>, off: nat, n: nat)
    requires pos + n <= |body| && off + n <= window.Length
    modifies window
    ensures forall i :: off <= i < off + n ==> window[i] == body[i - off + pos]
    ensures forall i :: 0 <= i < window.Length && !(off <= i < off + n) ==> window[i] == old(window[i])
  {
    forall i | 0 <= i < n {
      window[off + i] := body[pos + i];
    }
  }

  /** Whether the boundary is in the window at j. */
  method MatchAt(window: array<byte>, j: nat, boundary: bytes) returns (found: bool)
    requires j + |boundary| <= window.Length
    ensures found <==> boundary != [] && window[j..j + |boundary|] == boundary
  {
    var i := 0;
    found := false;
    while i < |boundary|
      invariant i <= |boundary| && !found
      invariant forall k :: 0 <= k < i ==> window[j + k] == boundary[k]
      invariant boundary != [] ==> i < |boundary|
    {
      if window[j + i] != boundary[i] {
        assert window[j..j + |boundary|][i] != boundary[i];
        break;
      }
      if i == |boundary| - 1 {
        found := true;
        return;
      }
      i := i + 1;
    }
  }

  /** Looks for the boundary at the first n places of the window, which shows the body from start on. */
  method SearchWindow(
      body: bytes, boundary: bytes, window: array<byte>, start: nat, n: nat, before: seq<nat>)
      returns (res: seq<nat>)
    requires n + |boundary| <= window.Length && start + n + |boundary| <= |body|
    requires n > 0 ==> forall i :: 0 <= i < n + |boundary| ==> window[i] == body[start + i]
    requires before == OccurrencesBelow(body, boundary, start)
    ensures res == OccurrencesBelow(body, boundary, start + n)
  {
    res := before;
    var j := 0;
    while j < n
      invariant j <= n && res == OccurrencesBelow(body, boundary, start + j)
    {
      var found := MatchAt(window, j, boundary);
      SameSlice(window[..], body, start, j, |boundary|);
      assert window[..][j..j + |boundary|] == window[j..j + |boundary|];
      if found {
        res := res + [start + j];
      }
      j := j + 1;
    }
  }

  /** Copies the end of the window to its start and fills the rest with what follows in the body. */
  method Slide(body: bytes, window: array<byte>, length: nat, pos: nat) returns (newBytes: nat)
    requires window.Length == BLOCK + length && length <= pos <= |body|
    requires pos < |body| ==>
               forall i :: BLOCK <= i < BLOCK + length ==> window[i] == body[i + (pos - length - BLOCK)]
    requires pos < |body| ==> BLOCK + length <= pos
    modifies window
    ensures newBytes == Min(|body| - pos, BLOCK)
    ensures newBytes > 0 ==> forall i :: 0 <= i < newBytes + length ==> window[i] == body[i + (pos - length)]
  {
    forall i | 0 <= i < length {
      window[i] := window[window.Length - length + i];
    }
    newBytes := Min(|body| - pos, BLOCK);
    Get(body, pos, window, length, newBytes);
  }

  method GetBoundaryPositions(body: bytes, boundary: bytes) returns (res: seq<nat>)
    ensures res == Positions(body, boundary)
  {
    res := [];
    if |body| < |boundary| {
      return;
    }
    var start: nat, length := 0, |boundary|;
    var window := new byte[BLOCK + length];
    var pos := Min(|body|, window.Length);
    Get(body, 0, window, 0, pos);
    var newBytes: nat := pos - length;
    while true
      invariant start + newBytes + length == pos <= |body| && newBytes <= BLOCK
      invariant newBytes < BLOCK ==> pos == |body|
      invariant newBytes > 0 ==> forall i :: 0 <= i < newBytes + length ==> window[i] == body[start + i]
      invariant res == OccurrencesBelow(body, boundary, start)
      decreases |body| - pos
    {
      res := SearchWindow(body, boundary, window, start, newBytes, res);
      start := start + newBytes;
      newBytes := Slide(body, window, length, pos);
      pos := pos + newBytes;
      if newBytes == 0 {
        break;
      }
    }
  }
}

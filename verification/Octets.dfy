/** Octet strings and the few java.lang.String operations the server applies to them.

An octet is written as the character with that code (ISO 8859-1), so that protocol text can be
given by string literals.
*/
module Octets {
  type byte = char
  type bytes = seq<byte>

  const CRLF: bytes := "\r\n"

  datatype Option<+T> = None | Some(value: T)

  function Min(a: int, b: int): int {
    if a <= b then a else b
  }

  predicate OccursAt(s: bytes, pattern: bytes, p: int) {
    0 <= p <= |s| - |pattern| && s[p..p + |pattern|] == pattern
  }

  lemma OccursSplit(s: bytes, a: bytes, b: bytes, p: nat)
    requires OccursAt(s, a + b, p)
    ensures OccursAt(s, a, p) && OccursAt(s, b, p + |a|)
  {
    var t := s[p..p + |a + b|];
    assert s[p..p + |a|] == t[..|a|] == a;
    assert s[p + |a|..p + |a| + |b|] == t[|a|..] == b;
  }

  lemma OccursIndex(s: bytes, a: bytes, p: nat)
    requires OccursAt(s, a, p)
    ensures forall i :: p <= i < p + |a| ==> s[i] == a[i - p]
  {
    forall i | p <= i < p + |a| ensures s[i] == a[i - p] {
      assert s[p..p + |a|][i - p] == s[i];
    }
  }

  lemma AppendAssociates(a: bytes, b: bytes, c: bytes)
    ensures (a + b) + c == a + (b + c)
  {
  }

  lemma SliceOfSuffix(s: bytes, start: nat, front: bytes, back: bytes)
    requires start <= |s| && s[start..] == front + back
    ensures start + |front| <= |s| && s[start..start + |front|] == front && s[start + |front|..] == back
  {
    assert s[start..][..|front|] == front && s[start..][|front|..] == back;
  }

  lemma SliceJoin(s: bytes, a: nat, b: nat, c: nat)
    requires a <= b <= c <= |s|
    ensures s[a..b] + s[b..c] == s[a..c]
  {
  }

  /** String.contains. */
  predicate Contains(s: bytes, pattern: bytes) {
    exists p :: 0 <= p <= |s| - |pattern| && OccursAt(s, pattern, p)
  }

  /** line.trim().isEmpty() */
  predicate Blank(s: bytes) {
    forall i :: 0 <= i < |s| ==> s[i] <= ' '
  }

  function TrimLeft(s: bytes): bytes {
    if s != [] && s[0] <= ' ' then TrimLeft(s[1..]) else s
  }

  function TrimRight(s: bytes): bytes {
    if s != [] && s[|s| - 1] <= ' ' then TrimRight(s[..|s| - 1]) else s
  }

  /** String.trim */
  function Trim(s: bytes): bytes {
    TrimRight(TrimLeft(s))
  }

  /** String.toLowerCase(Locale.US) on ISO 8859-1 letters without accents. */
  function Lower(s: bytes): (r: bytes)
    ensures |r| == |s|
  {
    seq(|s|, i requires 0 <= i < |s| => LowerChar(s[i]))
  }

  function LowerChar(c: byte): byte {
    if 'A' <= c <= 'Z' then (c as int + 32) as char else c
  }

  /** The first index of c in s at or after p, or |s| when there is none. */
  function IndexFrom(s: bytes, c: byte, p: nat): (q: nat)
    requires p <= |s|
    ensures p <= q <= |s|
    ensures forall i :: p <= i < q ==> s[i] != c
    ensures q < |s| ==> s[q] == c
    decreases |s| - p
  {
    if p == |s| || s[p] == c then p else IndexFrom(s, c, p + 1)
  }

  lemma IndexFromUnique(s: bytes, c: byte, p: nat, q: nat)
    requires p <= q < |s| && s[q] == c
    requires forall i :: p <= i < q ==> s[i] != c
    ensures IndexFrom(s, c, p) == q
  {
  }

  predicate Ascending(ps: seq<nat>) {
    forall i, j :: 0 <= i < j < |ps| ==> ps[i] < ps[j]
  }

  /** Text with nothing to trim at either end. */
  predicate Trimmed(s: bytes) {
    s == [] || (s[0] > ' ' && s[|s| - 1] > ' ')
  }

  lemma TrimPadded(s: bytes)
    requires Trimmed(s)
    ensures Trim(s) == s && Trim(" " + s) == s
  {
    assert (" " + s)[1..] == s;
  }
}

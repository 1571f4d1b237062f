/** Subsequences: what is left of a sequence when elements are taken out. */
module Subsequences {
  import opened Octets

  /** at says where in q the elements of p are, in the same order. */
  ghost predicate Embeds(p: seq<nat>, q: seq<nat>, at: seq<nat>) {
    && |at| == |p|
    && (forall k :: 0 <= k < |at| ==> at[k] < |q| && q[at[k]] == p[k])
    && (forall j, k :: 0 <= j < k < |at| ==> at[j] < at[k])
  }

  ghost predicate Sub(p: seq<nat>, q: seq<nat>) {
    exists at :: Embeds(p, q, at)
  }

  lemma SubAscending(p: seq<nat>, q: seq<nat>)
    requires Sub(p, q) && Ascending(q)
    ensures Ascending(p)
  {
    var at :| Embeds(p, q, at);
    forall j, k | 0 <= j < k < |p| ensures p[j] < p[k] {
      assert q[at[j]] < q[at[k]];
    }
  }

  lemma Regroup(a: seq<nat>, b: seq<nat>, c: seq<nat>)
    ensures (a + b) + c == a + (b + c)
  {
  }

  lemma SubSame(p: seq<nat>)
    ensures Sub(p, p)
  {
    assert Embeds(p, p, seq(|p|, k => k));
  }

  lemma SubNone(q: seq<nat>)
    ensures Sub([], q)
  {
    assert Embeds([], q, []);
  }

  lemma SubTrans(p: seq<nat>, q: seq<nat>, r: seq<nat>)
    requires Sub(p, q) && Sub(q, r)
    ensures Sub(p, r)
  {
    var at :| Embeds(p, q, at);
    var to :| Embeds(q, r, to);
    assert Embeds(p, r, seq(|p|, k requires 0 <= k < |p| => to[at[k]]));
  }

  lemma SubConcat(p: seq<nat>, q: seq<nat>, p': seq<nat>, q': seq<nat>)
    requires Sub(p, q) && Sub(p', q')
    ensures Sub(p + p', q + q')
  {
    var at :| Embeds(p, q, at);
    var at' :| Embeds(p', q', at');
    assert Embeds(p + p', q + q', at + seq(|at'|, k requires 0 <= k < |at'| => at'[k] + |q|));
  }

  lemma SubPrefix(p: seq<nat>, q: seq<nat>)
    ensures Sub(p, p + q)
  {
    SubSame(p);
    SubNone(q);
    SubConcat(p, p, [], q);
    assert p + [] == p;
  }

  /** The line grows at its end by what is read, or loses some elements; exact says that it loses none. */
  ghost predicate Moves(line: seq<nat>, line': seq<nat>, read: seq<nat>, read': seq<nat>, exact: bool) {
    || (|read'| > 0 && read' == read + [read'[|read'| - 1]] && line' == line + [read'[|read'| - 1]])
    || (read' == read && Sub(line', line) && (exact ==> line' == line))
  }

  lemma MovesSame(line: seq<nat>, read: seq<nat>, exact: bool)
    ensures Moves(line, line, read, read, exact)
  {
    SubSame(line);
  }

  lemma MovesBehind(front: seq<nat>, line: seq<nat>, line': seq<nat>, read: seq<nat>, read': seq<nat>, exact: bool)
    requires Moves(line, line', read, read', exact)
    ensures Moves(front + line, front + line', read, read', exact)
  {
    if read' == read {
      SubSame(front);
      SubConcat(front, front, line', line);
    } else {
      var x := read'[|read'| - 1];
      assert front + (line + [x]) == (front + line) + [x];
    }
  }

  /** Any number of such moves keeps a line within what has been read, and exact moves keep it equal to that. */
  lemma MovesKeep(line: seq<nat>, line': seq<nat>, read: seq<nat>, read': seq<nat>, exact: bool)
    requires Moves(line, line', read, read', exact) && Sub(line, read)
    ensures Sub(line', read')
    ensures exact && line == read ==> line' == read'
  {
    if read' == read {
      SubTrans(line', line, read);
    } else {
      var x := read'[|read'| - 1];
      SubSame([x]);
      SubConcat(line, read, [x], [x]);
    }
  }
}

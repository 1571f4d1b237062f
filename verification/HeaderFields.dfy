/** Header fields as names and values, printed one to a line, and the map that a reader makes of them. */
module HeaderFields {
  import opened Octets
  import opened Lines
  import opened Requests
  import opened Framing

  type Pairs = seq<(bytes, bytes)>

  function HeaderLines(pairs: Pairs): seq<bytes> {
    seq(|pairs|, i requires 0 <= i < |pairs| => Field(pairs[i].0, pairs[i].1))
  }

  predicate PlainField(pair: (bytes, bytes)) {
    FieldName(pair.0) && OneLine(pair.0) && OneLine(pair.1) && Trimmed(pair.1)
  }

  predicate PlainPairs(pairs: Pairs) {
    forall i :: 0 <= i < |pairs| ==> PlainField(pairs[i])
  }

  predicate Named(pairs: Pairs, name: bytes) {
    exists i :: 0 <= i < |pairs| && Lower(pairs[i].0) == name
  }

  function PairMap(pairs: Pairs): map<bytes, bytes> {
    if pairs == [] then map[]
    else
      var (name, value) := pairs[|pairs| - 1];
      PairMap(pairs[..|pairs| - 1])[Lower(name) := value]
  }

  lemma {:induction false} PrintedPairs(pairs: Pairs)
    requires PlainPairs(pairs)
    ensures Printable(HeaderLines(pairs)) && Fields(HeaderLines(pairs)) == PairMap(pairs)
    decreases |pairs|
  {
    if pairs != [] {
      var front, last := pairs[..|pairs| - 1], pairs[|pairs| - 1];
      PrintedPairs(front);
      assert PlainField(last);
      var line := Field(last.0, last.1);
      assert HeaderLines(pairs) == HeaderLines(front) + [line];
      LastField(map[], HeaderLines(front), line);
      FieldDecodes(PairMap(front), last.0, last.1);
      FieldPrintable(last.0, last.1);
    }
  }

  lemma {:induction false} NotNamed(pairs: Pairs, name: bytes)
    requires !Named(pairs, name)
    ensures name !in PairMap(pairs)
    decreases |pairs|
  {
    if pairs != [] {
      var front := pairs[..|pairs| - 1];
      assert forall i :: 0 <= i < |front| ==> front[i] == pairs[i];
      NotNamed(front, name);
    }
  }

  /** The i-th pair is the last one with that name, which is given in small letters. */
  predicate LastNamed(pairs: Pairs, i: nat, name: bytes) {
    && i < |pairs| && Lower(pairs[i].0) == name
    && forall j :: i < j < |pairs| ==> Lower(pairs[j].0) != name
  }

  lemma {:induction false} LastOfName(pairs: Pairs, i: nat, name: bytes)
    requires LastNamed(pairs, i, name)
    ensures name in PairMap(pairs) && PairMap(pairs)[name] == pairs[i].1
    decreases |pairs|
  {
    var front := pairs[..|pairs| - 1];
    if i < |front| {
      assert forall j :: 0 <= j < |front| ==> front[j] == pairs[j];
      LastOfName(front, i, name);
    }
  }

  lemma {:induction false} FindLast(pairs: Pairs, name: bytes) returns (i: nat)
    requires Named(pairs, name)
    ensures LastNamed(pairs, i, name)
    decreases |pairs|
  {
    var front := pairs[..|pairs| - 1];
    if Lower(pairs[|pairs| - 1].0) == name {
      i := |pairs| - 1;
    } else {
      var j :| 0 <= j < |pairs| && Lower(pairs[j].0) == name;
      assert front[j] == pairs[j] && forall j :: 0 <= j < |front| ==> front[j] == pairs[j];
      i := FindLast(front, name);
    }
  }

  lemma PairMapSnoc(pairs: Pairs, name: bytes, value: bytes)
    ensures PairMap(pairs + [(name, value)]) == PairMap(pairs)[Lower(name) := value]
    ensures PlainPairs(pairs) && PlainField((name, value)) ==> PlainPairs(pairs + [(name, value)])
  {
    assert (pairs + [(name, value)])[..|pairs|] == pairs;
  }
}

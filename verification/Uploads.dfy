/** Names of uploaded files: a file whose field name is taken gets the name with the first free number. */
module Uploads {
  import opened Octets
  import opened Numerals

  /** A Java String that may be null. */
  type Name = Option<bytes>

  /** A possibly null string in a concatenation. */
  function Text(name: Name): bytes {
    match name
    case None => "null"
    case Some(s) => s
  }

  function Numbered(name: Name, n: nat): Name {
    Some(Text(name) + Print(n, 10))
  }

  lemma NumberedInjective(name: Name, i: nat, j: nat)
    requires Numbered(name, i) == Numbered(name, j)
    ensures i == j
  {
    var k := |Text(name)|;
    assert Print(i, 10) == (Text(name) + Print(i, 10))[k..] == (Text(name) + Print(j, 10))[k..] == Print(j, 10);
    PrintParse(i, 10);
    PrintParse(j, 10);
  }

  /** The first number from count on that gives a free name; taken holds the names that are still candidates
  for a clash, and loses one with every clash. */
  function FirstFree(taken: set<Name>, name: Name, count: nat): (n: nat)
    decreases |taken|
  {
    if Numbered(name, count) in taken then FirstFree(taken - {Numbered(name, count)}, name, count + 1) else count
  }

  lemma {:induction false} FirstFreeIsFirst(taken: set<Name>, name: Name, count: nat)
    ensures var n := FirstFree(taken, name, count);
            && count <= n && Numbered(name, n) !in taken
            && forall i :: count <= i < n ==> Numbered(name, i) in taken
    decreases |taken|
  {
    if Numbered(name, count) in taken {
      var n := FirstFree(taken, name, count);
      FirstFreeIsFirst(taken - {Numbered(name, count)}, name, count + 1);
      if Numbered(name, n) == Numbered(name, count) {
        NumberedInjective(name, n, count);
      }
    }
  }

  function FileKey(taken: set<Name>, name: Name): Name {
    if name !in taken then name else Numbered(name, FirstFree(taken, name, 2))
  }

  /** A name with a number behind it; no name counts as the word null. */
  function WithNumber(name: Name, n: nat): Name {
    Some((match name case None => "null" case Some(s) => s) + Print(n, 10))
  }

  /** The key of a new file: its name if that is free, and otherwise the name with the least number from 2 on that
  makes it free. */
  lemma FileKeyIsLeast(taken: set<Name>, name: Name)
    ensures name !in taken ==> FileKey(taken, name) == name
    ensures name in taken ==>
              exists n: nat :: 2 <= n && FileKey(taken, name) == WithNumber(name, n) && WithNumber(name, n) !in taken
                               && forall i :: 2 <= i < n ==> WithNumber(name, i) in taken
  {
    FirstFreeIsFirst(taken, name, 2);
    var n := FirstFree(taken, name, 2);
    assert forall i: nat :: Numbered(name, i) == WithNumber(name, i);
    assert name in taken ==> FileKey(taken, name) == WithNumber(name, n);
  }

  /** Storing a file adds one entry and keeps the others: no upload is lost. */
  lemma StoringKeepsFiles(files: map<Name, bytes>, name: Name, content: bytes)
    ensures var files' := files[FileKey(files.Keys, name) := content];
            && FileKey(files.Keys, name) !in files
            && |files'| == |files| + 1
            && forall k :: k in files ==> k in files' && files'[k] == files[k]
  {
    FirstFreeIsFirst(files.Keys, name, 2);
    var key := FileKey(files.Keys, name);
    assert files[key := content].Keys == files.Keys + {key};
  }

  /** The loop that looks for a free name. It ends because every clash uses up one of the stored names. */
  method ChooseKey(files: map<Name, bytes>, name: Name) returns (key: Name)
    ensures key == FileKey(files.Keys, name)
  {
    if name !in files {
      return name;
    }
    var count := 2;
    ghost var taken := files.Keys;
    while Numbered(name, count) in files
      invariant 2 <= count && taken <= files.Keys
      invariant forall k :: k in files.Keys && k !in taken ==> exists i :: 2 <= i < count && k == Numbered(name, i)
      invariant FirstFree(taken, name, count) == FirstFree(files.Keys, name, 2)
      decreases |taken|
    {
      ghost var key := Numbered(name, count);
      if key !in taken {
        ghost var i: nat :| 2 <= i < count && key == Numbered(name, i);
        NumberedInjective(name, i, count);
        assert false;
      }
      taken := taken - {key};
      count := count + 1;
    }
    key := Numbered(name, count);
  }
}

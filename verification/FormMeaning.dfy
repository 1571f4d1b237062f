/** What the maps hold after a printed multipart form, in terms of what its parts say about themselves. */
module FormMeaning {
  import opened Octets
  import opened Lines
  import opened Numerals
  import opened Uploads
  import opened Multipart
  import opened MultipartRoundTrip

  /** What a part says: its name and its file name, in which order, and whether it has a content type. */
  datatype Shape = Shape(name: Option<bytes>, fileName: Option<bytes>, fileFirst: bool, typed: bool)

  /** The attributes that count, in any case. */
  function Relevant(attributes: seq<(bytes, bytes)>): seq<(bytes, bytes)>
    decreases |attributes|
  {
    if attributes == [] then []
    else (if Lower(attributes[0].0) == "name" || Lower(attributes[0].0) == "filename" then [attributes[0]] else [])
         + Relevant(attributes[1..])
  }

  predicate IsAttribute(a: (bytes, bytes), key: bytes, value: bytes) {
    Lower(a.0) == key && a.1 == value
  }

  predicate Says(attributes: seq<(bytes, bytes)>, sh: Shape) {
    var r := Relevant(attributes);
    match (sh.name, sh.fileName)
    case (None, None) => r == []
    case (Some(n), None) => |r| == 1 && IsAttribute(r[0], "name", n)
    case (None, Some(f)) => |r| == 1 && IsAttribute(r[0], "filename", f)
    case (Some(n), Some(f)) =>
      && |r| == 2
      && if sh.fileFirst then IsAttribute(r[0], "filename", f) && IsAttribute(r[1], "name", n)
         else IsAttribute(r[0], "name", n) && IsAttribute(r[1], "filename", f)
  }

  ghost predicate NoDisposition(p: Patterns, lines: seq<bytes>) {
    forall i :: 0 <= i < |lines| ==> p.disposition(lines[i]) == None
  }

  ghost predicate HasType(p: Patterns, lines: seq<bytes>) {
    exists i :: 0 <= i < |lines| && p.contentType(lines[i]).Some?
  }

  /** The i-th line is the only disposition, and says sh. */
  ghost predicate OneDisposition(p: Patterns, lines: seq<bytes>, i: nat, sh: Shape) {
    && i < |lines| && p.disposition(lines[i]).Some? && Says(p.disposition(lines[i]).value, sh)
    && NoDisposition(p, lines[..i]) && NoDisposition(p, lines[i + 1..])
  }

  /** The lines say sh: they have one disposition or none, and a content type if sh has one. */
  ghost predicate Describes(p: Patterns, lines: seq<bytes>, sh: Shape) {
    && (|| (NoDisposition(p, lines) && sh.name == None && sh.fileName == None)
        || exists i: nat :: OneDisposition(p, lines, i, sh))
    && sh.typed == HasType(p, lines)
  }

  predicate NamesFile(sh: Shape) {
    sh.fileName.Some? && sh.fileName.value != []
  }

  /** The name under which a part is stored if c files were named before it: from the second named file on the number
  of files before it is put behind the name, unless the name comes after the file name. */
  function FieldKey(sh: Shape, c: nat): Name {
    if NamesFile(sh) && c > 0 && !(sh.fileFirst && sh.name.Some?) then WithNumber(sh.name, c) else sh.name
  }

  // ---- reading a part header

  /** What a header line can leave in the info. */
  predicate InfoIs(info: Info, name: Name, fileName: Name, typed: bool, pcount: nat) {
    info.name == name && info.fileName == fileName && info.contentType.Some? == typed && info.pcount == pcount
  }

  lemma {:induction false} OtherLines(p: Patterns, info: Info, lines: seq<bytes>)
    requires NoDisposition(p, lines)
    ensures InfoIs(HeaderLines(p, info, lines), info.name, info.fileName,
                   info.contentType.Some? || HasType(p, lines), info.pcount)
    decreases |lines|
  {
    if lines != [] {
      var next := HeaderLine(p, info, lines[0]);
      assert p.disposition(lines[0]) == None;
      assert forall i :: 0 <= i < |lines[1..]| ==> lines[1..][i] == lines[i + 1];
      OtherLines(p, next, lines[1..]);
      TypeCons(p, lines);
    }
  }

  lemma TypeCons(p: Patterns, lines: seq<bytes>)
    requires lines != []
    ensures HasType(p, lines) <==> p.contentType(lines[0]).Some? || HasType(p, lines[1..])
  {
    if HasType(p, lines) && p.contentType(lines[0]) == None {
      var i :| 0 <= i < |lines| && p.contentType(lines[i]).Some?;
      assert lines[1..][i - 1] == lines[i];
    }
    if HasType(p, lines[1..]) {
      var i :| 0 <= i < |lines[1..]| && p.contentType(lines[1..][i]).Some?;
      assert lines[1..][i] == lines[i + 1];
    }
  }

  lemma {:induction false} LinesAppend(p: Patterns, info: Info, a: seq<bytes>, b: seq<bytes>)
    ensures HeaderLines(p, info, a + b) == HeaderLines(p, HeaderLines(p, info, a), b)
    decreases |a|
  {
    if a == [] {
      assert a + b == b;
    } else {
      assert (a + b)[0] == a[0] && (a + b)[1..] == a[1..] + b;
      LinesAppend(p, HeaderLine(p, info, a[0]), a[1..], b);
    }
  }

  lemma {:induction false} OthersIgnored(info: Info, attributes: seq<(bytes, bytes)>)
    ensures Attributes(info, attributes) == Attributes(info, Relevant(attributes))
    decreases |attributes|
  {
    if attributes != [] {
      var first, rest := attributes[0], attributes[1..];
      OthersIgnored(Attribute(info, first.0, first.1), rest);
      if Lower(first.0) == "name" || Lower(first.0) == "filename" {
        assert ([first] + Relevant(rest))[1..] == Relevant(rest);
      } else {
        assert [] + Relevant(rest) == Relevant(rest);
      }
    }
  }

  lemma AttributesOne(info: Info, a: (bytes, bytes))
    ensures Attributes(info, [a]) == Attribute(info, a.0, a.1)
  {
    var none: seq<(bytes, bytes)> := [];
    assert [a][1..] == none;
    assert Attributes(Attribute(info, a.0, a.1), none) == Attribute(info, a.0, a.1);
  }

  lemma AttributesTwo(info: Info, a: (bytes, bytes), b: (bytes, bytes))
    ensures Attributes(info, [a, b]) == Attribute(Attribute(info, a.0, a.1), b.0, b.1)
  {
    assert [a, b][1..] == [b];
    AttributesOne(Attribute(info, a.0, a.1), b);
  }

  lemma ReadName(info: Info, a: (bytes, bytes), n: bytes)
    requires IsAttribute(a, "name", n)
    ensures Attribute(info, a.0, a.1) == info.(name := Some(n))
  {
  }

  lemma ReadFileName(info: Info, a: (bytes, bytes), f: bytes)
    requires IsAttribute(a, "filename", f)
    ensures InfoIs(Attribute(info, a.0, a.1),
                   if f != [] && info.pcount > 0 then WithNumber(info.name, info.pcount) else info.name, Some(f),
                   info.contentType.Some?, info.pcount + if f == [] then 0 else 1)
  {
    assert |"name"| != |"filename"|;
  }

  lemma SaidAttributes(info: Info, attributes: seq<(bytes, bytes)>, sh: Shape)
    requires Says(attributes, sh) && info.name == None && info.fileName == None
    ensures InfoIs(Attributes(info, attributes), FieldKey(sh, info.pcount), sh.fileName, info.contentType.Some?,
                   info.pcount + if NamesFile(sh) then 1 else 0)
  {
    var r := Relevant(attributes);
    OthersIgnored(info, attributes);
    match (sh.name, sh.fileName)
    case (None, None) =>
    case (Some(n), None) =>
      assert r == [r[0]];
      AttributesOne(info, r[0]);
      ReadName(info, r[0], n);
    case (None, Some(f)) =>
      assert r == [r[0]];
      AttributesOne(info, r[0]);
      ReadFileName(info, r[0], f);
    case (Some(n), Some(f)) =>
      assert r == [r[0], r[1]];
      AttributesTwo(info, r[0], r[1]);
      var next := Attribute(info, r[0].0, r[0].1);
      if sh.fileFirst {
        ReadFileName(info, r[0], f);
        ReadName(next, r[1], n);
      } else {
        ReadName(info, r[0], n);
        ReadFileName(next, r[1], f);
      }
  }

  lemma TypeSplit(p: Patterns, lines: seq<bytes>, i: nat)
    requires i < |lines|
    ensures HasType(p, lines)
       <==> HasType(p, lines[..i]) || p.contentType(lines[i]).Some? || HasType(p, lines[i + 1..])
  {
    if HasType(p, lines) {
      var j :| 0 <= j < |lines| && p.contentType(lines[j]).Some?;
      assert j < i ==> lines[..i][j] == lines[j];
      assert j > i ==> lines[i + 1..][j - i - 1] == lines[j];
    }
    if HasType(p, lines[..i]) {
      var j :| 0 <= j < i && p.contentType(lines[..i][j]).Some?;
      assert lines[..i][j] == lines[j];
    }
    if HasType(p, lines[i + 1..]) {
      var j :| 0 <= j < |lines[i + 1..]| && p.contentType(lines[i + 1..][j]).Some?;
      assert lines[i + 1..][j] == lines[i + 1 + j];
    }
  }

  lemma InfoOfOne(p: Patterns, c: nat, lines: seq<bytes>, i: nat, sh: Shape)
    requires OneDisposition(p, lines, i, sh) && sh.typed == HasType(p, lines)
    ensures InfoIs(PartInfo(p, c, lines), FieldKey(sh, c), sh.fileName, sh.typed, c + if NamesFile(sh) then 1 else 0)
  {
    var start := Info(None, None, None, c);
    var before := HeaderLines(p, start, lines[..i]);
    OtherLines(p, start, lines[..i]);
    var at := HeaderLine(p, before, lines[i]);
    SaidAttributes(before, p.disposition(lines[i]).value, sh);
    OtherLines(p, at, lines[i + 1..]);
    TypeSplit(p, lines, i);
    assert lines[i..] == [lines[i]] + lines[i + 1..];
    assert lines[..i] + lines[i..] == lines;
    LinesAppend(p, start, lines[..i], lines[i..]);
  }

  /** What the header of a part says is what the decoder gets out of it. */
  lemma InfoOf(p: Patterns, c: nat, lines: seq<bytes>, sh: Shape)
    requires Describes(p, lines, sh)
    ensures InfoIs(PartInfo(p, c, lines), FieldKey(sh, c), sh.fileName, sh.typed, c + if NamesFile(sh) then 1 else 0)
  {
    if NoDisposition(p, lines) && sh.name == None && sh.fileName == None {
      OtherLines(p, Info(None, None, None, c), lines);
    } else {
      var i: nat :| OneDisposition(p, lines, i, sh);
      InfoOfOne(p, c, lines, i, sh);
    }
  }

  // ---- what the maps hold

  function NamedFiles(shapes: seq<Shape>): nat {
    if shapes == [] then 0
    else NamedFiles(shapes[..|shapes| - 1]) + if NamesFile(shapes[|shapes| - 1]) then 1 else 0
  }

  /** The key of the i-th part. */
  function KeyOf(shapes: seq<Shape>, i: nat): Name
    requires i < |shapes|
  {
    FieldKey(shapes[i], NamedFiles(shapes[..i]))
  }

  /** What the i-th part leaves in the parameters: its data, or its file name if it is a file. */
  function ValueOf(parts: seq<Part>, shapes: seq<Shape>, i: nat): Name
    requires i < |parts| == |shapes|
  {
    if shapes[i].typed then shapes[i].fileName else Some(parts[i].payload)
  }

  predicate LastWithKey(shapes: seq<Shape>, i: nat) {
    && i < |shapes|
    && forall j :: i < j < |shapes| ==> KeyOf(shapes, j) != KeyOf(shapes, i)
  }

  /** Every key has the value of the last part with that key, and no other key has changed. */
  ghost predicate ParmsHold(
      before: map<Name, Name>, parts: seq<Part>, shapes: seq<Shape>, after: map<Name, Name>)
    requires |parts| == |shapes|
  {
    && (forall i: nat :: LastWithKey(shapes, i) ==>
          KeyOf(shapes, i) in after && after[KeyOf(shapes, i)] == ValueOf(parts, shapes, i))
    && (forall k :: (forall i: nat :: i < |shapes| ==> KeyOf(shapes, i) != k) ==>
          (k in after <==> k in before) && (k in before ==> after[k] == before[k]))
  }

  /** Some file among the first i parts, or one that was there before, has the key k. */
  ghost predicate Taken(before: map<Name, bytes>, shapes: seq<Shape>, keys: seq<Name>, i: nat, k: Name)
    requires i <= |shapes| == |keys|
  {
    k in before || exists j :: 0 <= j < i && shapes[j].typed && keys[j] == k
  }

  /** The i-th file has its own key if that is free, and otherwise the key with the least number from 2 on that
  makes it free. */
  ghost predicate FreeKey(before: map<Name, bytes>, shapes: seq<Shape>, keys: seq<Name>, i: nat)
    requires i < |shapes| == |keys|
  {
    var own := KeyOf(shapes, i);
    && !Taken(before, shapes, keys, i, keys[i])
    && if !Taken(before, shapes, keys, i, own) then keys[i] == own
       else exists n: nat :: 2 <= n && keys[i] == WithNumber(own, n)
              && forall m :: 2 <= m < n ==> Taken(before, shapes, keys, i, WithNumber(own, m))
  }

  /** Every file has an entry of its own with its data, and the others are as they were. */
  ghost predicate FilesHold(
      before: map<Name, bytes>, parts: seq<Part>, shapes: seq<Shape>, keys: seq<Name>, after: map<Name, bytes>)
    requires |parts| == |shapes| == |keys|
  {
    && (forall i: nat :: i < |shapes| && shapes[i].typed ==>
          keys[i] in after && after[keys[i]] == parts[i].payload && FreeKey(before, shapes, keys, i))
    && (forall k :: k in before ==> k in after && after[k] == before[k])
    && (forall k :: k in after <==> Taken(before, shapes, keys, |shapes|, k))
  }

  ghost predicate Holds(before: Forms, parts: seq<Part>, shapes: seq<Shape>, keys: seq<Name>, after: Forms)
    requires |parts| == |shapes| == |keys|
  {
    && ParmsHold(before.parms, parts, shapes, after.parms)
    && FilesHold(before.files, parts, shapes, keys, after.files)
    && after.pcount == NamedFiles(shapes)
  }

  // ---- one part more

  lemma KeyFront(shapes: seq<Shape>, i: nat)
    requires i + 1 < |shapes|
    ensures KeyOf(shapes, i) == KeyOf(shapes[..|shapes| - 1], i)
  {
    assert shapes[..|shapes| - 1][..i] == shapes[..i];
  }

  lemma ParmsSnoc(
      before: map<Name, Name>, parts: seq<Part>, shapes: seq<Shape>, mid: map<Name, Name>, after: map<Name, Name>)
    requires |parts| == |shapes| > 0
    requires var n := |parts| - 1;
      && ParmsHold(before, parts[..n], shapes[..n], mid)
      && after == mid[KeyOf(shapes, n) := ValueOf(parts, shapes, n)]
    ensures ParmsHold(before, parts, shapes, after)
  {
    var n := |parts| - 1;
    forall i: nat | LastWithKey(shapes, i)
      ensures KeyOf(shapes, i) in after && after[KeyOf(shapes, i)] == ValueOf(parts, shapes, i)
    {
      if i < n {
        forall j | i < j < n ensures KeyOf(shapes[..n], j) != KeyOf(shapes[..n], i) {
          KeyFront(shapes, j);
          KeyFront(shapes, i);
        }
        KeyFront(shapes, i);
        assert LastWithKey(shapes[..n], i);
      }
    }
    forall k | forall i: nat :: i < |shapes| ==> KeyOf(shapes, i) != k
      ensures (k in after <==> k in before) && (k in before ==> after[k] == before[k])
    {
      forall i: nat | i < n ensures KeyOf(shapes[..n], i) != k {
        KeyFront(shapes, i);
      }
    }
  }

  lemma TakenFront(before: map<Name, bytes>, shapes: seq<Shape>, keys: seq<Name>, i: nat, k: Name)
    requires i < |shapes| == |keys|
    ensures Taken(before, shapes, keys, i, k)
       <==> Taken(before, shapes[..|shapes| - 1], keys[..|keys| - 1], i, k)
  {
    var s, q := shapes[..|shapes| - 1], keys[..|keys| - 1];
    assert forall j :: 0 <= j < i ==> s[j] == shapes[j] && q[j] == keys[j];
  }

  lemma FreeFront(before: map<Name, bytes>, shapes: seq<Shape>, keys: seq<Name>, i: nat)
    requires i + 1 < |shapes| == |keys| && FreeKey(before, shapes[..|shapes| - 1], keys[..|keys| - 1], i)
    ensures FreeKey(before, shapes, keys, i)
  {
    KeyFront(shapes, i);
    forall k ensures Taken(before, shapes, keys, i, k)
                <==> Taken(before, shapes[..|shapes| - 1], keys[..|keys| - 1], i, k) {
      TakenFront(before, shapes, keys, i, k);
    }
  }

  lemma TakenSnoc(before: map<Name, bytes>, shapes: seq<Shape>, keys: seq<Name>, k: Name)
    requires |shapes| == |keys| > 0
    ensures var n := |shapes| - 1;
      Taken(before, shapes, keys, |shapes|, k)
      <==> Taken(before, shapes, keys, n, k) || (shapes[n].typed && keys[n] == k)
  {
  }

  /** The maps after a part that is no file. */
  lemma FilesSame(
      before: map<Name, bytes>, parts: seq<Part>, shapes: seq<Shape>, keys: seq<Name>, files: map<Name, bytes>)
    requires |parts| == |shapes| == |keys| > 0 && !shapes[|shapes| - 1].typed
    requires var n := |parts| - 1; FilesHold(before, parts[..n], shapes[..n], keys[..n], files)
    ensures FilesHold(before, parts, shapes, keys, files)
  {
    var n := |parts| - 1;
    forall i: nat | i < |shapes| && shapes[i].typed
      ensures keys[i] in files && files[keys[i]] == parts[i].payload && FreeKey(before, shapes, keys, i)
    {
      assert shapes[..n][i] == shapes[i] && keys[..n][i] == keys[i] && parts[..n][i] == parts[i];
      FreeFront(before, shapes, keys, i);
    }
    forall k ensures k in files <==> Taken(before, shapes, keys, |shapes|, k) {
      TakenFront(before, shapes, keys, n, k);
      TakenSnoc(before, shapes, keys, k);
    }
  }

  lemma FilesSnoc(
      before: map<Name, bytes>, parts: seq<Part>, shapes: seq<Shape>, keys: seq<Name>, mid: map<Name, bytes>)
    requires |parts| == |shapes| == |keys| > 0 && shapes[|shapes| - 1].typed
    requires var n := |parts| - 1;
      && FilesHold(before, parts[..n], shapes[..n], keys[..n], mid)
      && keys[n] == FileKey(mid.Keys, KeyOf(shapes, n))
    ensures var n := |parts| - 1; FilesHold(before, parts, shapes, keys, mid[keys[n] := parts[n].payload])
  {
    var n := |parts| - 1;
    var after := mid[keys[n] := parts[n].payload];
    forall k ensures k in mid <==> Taken(before, shapes, keys, n, k) {
      TakenFront(before, shapes, keys, n, k);
    }
    FileKeyIsLeast(mid.Keys, KeyOf(shapes, n));
    NewKeyFree(before, shapes, keys, n, mid.Keys);
    forall i: nat | i < |shapes| && shapes[i].typed
      ensures keys[i] in after && after[keys[i]] == parts[i].payload && FreeKey(before, shapes, keys, i)
    {
      if i < n {
        assert shapes[..n][i] == shapes[i] && keys[..n][i] == keys[i] && parts[..n][i] == parts[i];
        FreeFront(before, shapes, keys, i);
      }
    }
    forall k ensures k in after <==> Taken(before, shapes, keys, |shapes|, k) {
      TakenSnoc(before, shapes, keys, k);
    }
  }

  lemma NewKeyFree(before: map<Name, bytes>, shapes: seq<Shape>, keys: seq<Name>, n: nat, taken: set<Name>)
    requires n < |shapes| == |keys| && keys[n] == FileKey(taken, KeyOf(shapes, n))
    requires forall k :: k in taken <==> Taken(before, shapes, keys, n, k)
    ensures FreeKey(before, shapes, keys, n) && keys[n] !in taken
  {
    FileKeyIsLeast(taken, KeyOf(shapes, n));
  }

  // ---- all parts

  lemma {:induction false} StoreAllSnoc(p: Patterns, forms: Forms, parts: seq<Part>, part: Part)
    ensures var mid := StoreAll(p, forms, parts);
      StoreAll(p, forms, parts + [part]) == Store(mid, PartInfo(p, mid.pcount, part.lines), part.payload)
    decreases |parts|
  {
    var all := parts + [part];
    if parts == [] {
      assert all[1..] == [];
    } else {
      assert all[0] == parts[0] && all[1..] == parts[1..] + [part];
      StoreAllSnoc(p, Store(forms, PartInfo(p, forms.pcount, parts[0].lines), parts[0].payload), parts[1..], part);
    }
  }

  ghost predicate AllDescribed(p: Patterns, parts: seq<Part>, shapes: seq<Shape>) {
    |parts| == |shapes| && forall i :: 0 <= i < |parts| ==> Describes(p, parts[i].lines, shapes[i])
  }

  lemma {:induction false} StoredHold(p: Patterns, forms: Forms, parts: seq<Part>, shapes: seq<Shape>)
      returns (keys: seq<Name>)
    requires AllDescribed(p, parts, shapes) && forms.pcount == 0
    ensures |keys| == |parts| && Holds(forms, parts, shapes, keys, StoreAll(p, forms, parts))
    decreases |parts|
  {
    if parts == [] {
      keys := [];
    } else {
      var n := |parts| - 1;
      keys := StoredHold(p, forms, parts[..n], shapes[..n]);
      var mid := StoreAll(p, forms, parts[..n]);
      assert parts == parts[..n] + [parts[n]];
      StoreAllSnoc(p, forms, parts[..n], parts[n]);
      InfoOf(p, mid.pcount, parts[n].lines, shapes[n]);
      keys := StoredOne(p, forms, parts, shapes, keys, mid);
    }
  }

  lemma StoredOne(p: Patterns, forms: Forms, parts: seq<Part>, shapes: seq<Shape>, front: seq<Name>, mid: Forms)
      returns (keys: seq<Name>)
    requires |parts| == |shapes| == |front| + 1
    requires var n := |front|;
      && Holds(forms, parts[..n], shapes[..n], front, mid)
      && InfoIs(PartInfo(p, mid.pcount, parts[n].lines), KeyOf(shapes, n), shapes[n].fileName, shapes[n].typed,
                mid.pcount + if NamesFile(shapes[n]) then 1 else 0)
    ensures var n := |front|;
      |keys| == |parts|
      && Holds(forms, parts, shapes, keys, Store(mid, PartInfo(p, mid.pcount, parts[n].lines), parts[n].payload))
  {
    var n := |front|;
    keys := front + [FileKey(mid.files.Keys, KeyOf(shapes, n))];
    assert keys[..n] == front;
    var after := Store(mid, PartInfo(p, mid.pcount, parts[n].lines), parts[n].payload);
    ParmsSnoc(forms.parms, parts, shapes, mid.parms, after.parms);
    if shapes[n].typed {
      FilesSnoc(forms.files, parts, shapes, keys, mid.files);
    } else {
      FilesSame(forms.files, parts, shapes, keys, mid.files);
    }
  }

  /** A printed form, whose boundary occurs in the delimiters only, decoded onto maps that may hold entries already.
  Up to the first part whose head does not fit, the parameters hold the data of the text parts and the file names of
  the files, each key with its last value; every file is under a key of its own with its data; and nothing else has
  changed. The form is accepted exactly if all heads fit. */
  lemma PrintedForm(
      p: Patterns, preamble: bytes, boundary: bytes, parts: seq<Part>, shapes: seq<Shape>, epilogue: bytes,
      forms: Forms) returns (keys: seq<Name>)
    requires boundary != [] && OneLine(boundary) && parts != [] && AllPrintable(parts)
    requires AllDescribed(p, parts, shapes) && forms.pcount == 0
    requires var body := PrintBody(preamble, boundary, parts, epilogue);
             forall q :: OccursAt(body, boundary, q) ==> q in Starts(boundary, parts, |preamble|)
    ensures var (after, error) := Decode(p, PrintBody(preamble, boundary, parts, epilogue), boundary, forms);
      var n := |Fitting(boundary, parts)|;
      && n <= |parts| == |shapes| && (n == |parts| <==> AllFit(boundary, parts))
      && error == (if n == |parts| then None else Some(LongHead(boundary)))
      && |keys| == n && Holds(forms, parts[..n], shapes[..n], keys, after)
  {
    MultipartRoundTrip.MultipartRoundTrip(p, preamble, boundary, parts, epilogue, forms);
    FittingPrefix(boundary, parts);
    var n := |Fitting(boundary, parts)|;
    if AllFit(boundary, parts) {
      FittingAll(boundary, parts);
    }
    keys := StoredHold(p, forms, parts[..n], shapes[..n]);
  }

  lemma {:induction false} FittingPrefix(boundary: bytes, parts: seq<Part>)
    ensures |Fitting(boundary, parts)| <= |parts|
    ensures Fitting(boundary, parts) == parts[..|Fitting(boundary, parts)|]
    ensures |Fitting(boundary, parts)| == |parts| ==> AllFit(boundary, parts)
    decreases |parts|
  {
    if parts != [] && FitsHeader(boundary, parts[0]) {
      FittingPrefix(boundary, parts[1..]);
      assert parts == [parts[0]] + parts[1..];
    }
  }

  /** The second named file of a form is stored under its name and the digit 1. */
  lemma SecondFile(shapes: seq<Shape>, i: nat, name: bytes)
    requires i < |shapes| && NamesFile(shapes[i]) && shapes[i].name == Some(name) && !shapes[i].fileFirst
    requires NamedFiles(shapes[..i]) == 1
    ensures KeyOf(shapes, i) == Some(name + "1")
  {
    assert Print(1, 10) == "1";
  }

  /** A part whose next boundary comes before its data could start: a text part is an error that leaves the maps alone,
  and a file is stored without data. */
  lemma InvertedPart(
      p: Patterns, body: bytes, boundary: bytes, part: Part, sh: Shape, idxs: seq<nat>, i: nat, buf: bytes,
      forms: Forms)
    requires boundary != [] && OneLine(boundary) && PrintablePart(part) && FitsHeader(boundary, part)
    requires Describes(p, part.lines, sh)
    requires |buf| == MAX_HEADER_SIZE && i + 1 < |idxs| && (forall x :: x in idxs ==> x <= |body|) && idxs[i] <= |body|
    requires OccursAt(body, PartHead(boundary, part), idxs[i])
    requires |PartHead(boundary, part)| < HeaderLength(body, idxs[i]) - 4
    requires idxs[i + 1] < idxs[i] + |PartHead(boundary, part)| + 4
    ensures DecodeParts(p, body, boundary, idxs, i, buf, forms)
         == if !sh.typed then (forms, Some(Inverted))
            else DecodeParts(p, body, boundary, idxs, i + 1, Refill(buf, body, idxs[i]),
                             StoreAll(p, forms, [part.(payload := [])]))
  {
    var at := idxs[i];
    HeadInBuffer(body, buf, PartHead(boundary, part), at);
    CutPrintedHeader(Refill(buf, body, at), HeaderLength(body, at), boundary, part, at, idxs[i + 1]);
    InfoOf(p, forms.pcount, part.lines, sh);
    var empty, none: seq<Part> := part.(payload := []), [];
    assert [empty][1..] == none;
    var forms' := Store(forms, PartInfo(p, forms.pcount, part.lines), []);
    assert StoreAll(p, forms, [empty]) == StoreAll(p, forms', none) == forms';
  }
}

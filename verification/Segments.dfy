/** Opening the segment files of a directory: sorted by path, the last one active. */
module Segments {
  import opened Decimal
  import opened Arith
  import opened ZigInt

  /** std.mem.lessThan on bytes. */
  predicate LexLess(a: string, b: string) {
    b != [] && (a == [] || a[0] < b[0] || (a[0] == b[0] && LexLess(a[1..], b[1..])))
  }

  function Insert(x: string, s: seq<string>): seq<string> {
    if s == [] || LexLess(x, s[0]) then [x] + s else [s[0]] + Insert(x, s[1..])
  }

  /** The file list in the order std.sort leaves it. */
  function Sorted(s: seq<string>): seq<string> {
    if s == [] then [] else Insert(s[0], Sorted(s[1..]))
  }

  predicate InOrder(s: seq<string>) { forall i, j :: 0 <= i < j < |s| ==> !LexLess(s[j], s[i]) }

  lemma {:induction false} LexOrder(a: string, b: string, c: string)
    ensures !LexLess(a, a)
    ensures LexLess(a, b) || LexLess(b, a) || a == b
    ensures LexLess(a, b) ==> !LexLess(b, a)
    ensures LexLess(a, b) && LexLess(b, c) ==> LexLess(a, c)
    decreases |a|
  {
    if a != [] && b != [] && c != [] {
      LexOrder(a[1..], b[1..], c[1..]);
      if a[0] == b[0] && a[1..] == b[1..] { assert a == [a[0]] + a[1..] == [b[0]] + b[1..] == b; }
    } else if a != [] && b != [] {
      LexOrder(a[1..], b[1..], []);
      if a[0] == b[0] && a[1..] == b[1..] { assert a == [a[0]] + a[1..] == [b[0]] + b[1..] == b; }
    } else if a != [] {
      LexOrder(a[1..], [], []);
    }
  }

  lemma LeastStays(x: string, s: seq<string>)
    requires InOrder(s) && s != [] && LexLess(x, s[0])
    ensures forall j :: 0 <= j < |s| ==> !LexLess(s[j], x)
  {
    hide LexLess;
    forall j | 0 <= j < |s|
      ensures !LexLess(s[j], x)
    {
      LexOrder(s[j], x, s[0]);
      LexOrder(x, s[0], x);
    }
  }

  lemma ConsInOrder(x: string, s: seq<string>)
    requires InOrder(s) && forall j :: 0 <= j < |s| ==> !LexLess(s[j], x)
    ensures InOrder([x] + s)
  {
    hide LexLess;
  }

  lemma {:induction false} InsertSorts(x: string, s: seq<string>)
    requires InOrder(s)
    ensures InOrder(Insert(x, s)) && multiset(Insert(x, s)) == multiset(s) + multiset{x}
  {
    if s == [] {
    } else if LexLess(x, s[0]) {
      hide LexLess, InOrder, Insert;
      LeastStays(x, s);
      ConsInOrder(x, s);
    } else {
      var t := Insert(x, s[1..]);
      InsertSorts(x, s[1..]);
      hide LexLess, Insert;
      assert s == [s[0]] + s[1..];
      forall j | 0 <= j < |t|
        ensures !LexLess(t[j], s[0])
      {
        assert t[j] in multiset(t);
        if t[j] != x { assert t[j] in s[1..]; }
      }
      ConsInOrder(s[0], t);
    }
  }

  /** The list is a permutation of the directory's, in path order. */
  lemma {:induction false} SortedIsPermutation(s: seq<string>)
    ensures InOrder(Sorted(s)) && multiset(Sorted(s)) == multiset(s) && |Sorted(s)| == |s|
  {
    if s != [] {
      SortedIsPermutation(s[1..]);
      InsertSorts(s[0], Sorted(s[1..]));
      assert s == [s[0]] + s[1..];
      assert |multiset(Sorted(s))| == |Sorted(s)| && |multiset(s)| == |s|;
    }
  }

  // ---- File names ----

  function BaseName(path: string): string {
    if path == [] || path[|path| - 1] == '/' then [] else BaseName(path[..|path| - 1]) + [path[|path| - 1]]
  }

  function UpToDot(s: string): string {
    if s == [] || s[0] == '.' then [] else [s[0]] + UpToDot(s[1..])
  }

  function IdOf(path: string): Parsed { ParseInt(UpToDot(BaseName(path)), 0, U32_MAX) }

  function Path(dir: string, id: nat, ext: string): string { dir + "/" + (Print(id) + ext) }

  predicate Extension(ext: string) { ext != [] && ext[0] == '.' && '/' !in ext }

  lemma {:induction false} BaseNameAfterSlash(dir: string, name: string)
    requires '/' !in name
    ensures BaseName(dir + "/" + name) == name
  {
    var p := dir + "/" + name;
    if name == [] {
      assert p[|p| - 1] == '/';
    } else {
      var k := |name| - 1;
      assert p[..|p| - 1] == dir + "/" + name[..k];
      BaseNameAfterSlash(dir, name[..k]);
    }
  }

  lemma {:induction false} UpToDotOf(d: string, ext: string)
    requires '.' !in d && (ext == [] || ext[0] == '.')
    ensures UpToDot(d + ext) == d
  {
    if d == [] {
      assert d + ext == ext;
    } else {
      assert (d + ext)[1..] == d[1..] + ext && (d + ext)[0] == d[0];
      UpToDotOf(d[1..], ext);
    }
  }

  /** What stands before the first dot of the last component is read as the id. */
  lemma IdOfName(dir: string, d: string, ext: string)
    requires '.' !in d && '/' !in d && '/' !in ext && (ext == [] || ext[0] == '.')
    ensures IdOf(dir + "/" + (d + ext)) == ParseInt(d, 0, 0xFFFF_FFFF)
  {
    BaseNameAfterSlash(dir, d + ext);
    UpToDotOf(d, ext);
  }

  /** The id a file was created with is the id it is opened with. */
  lemma IdOfPath(dir: string, id: nat, ext: string)
    requires Extension(ext) && id <= U32_MAX
    ensures IdOf(Path(dir, id, ext)) == Number(id)
  {
    IdOfName(dir, Print(id), ext);
    ParsePrinted(id, 0, U32_MAX);
  }

  lemma IdInRange(path: string)
    ensures IdOf(path).Number? ==> 0 <= IdOf(path).n <= U32_MAX
  {
    ParsedInRange(UpToDot(BaseName(path)), 0, U32_MAX);
  }

  // ---- Opening ----

  /** A file as CaskFile.init makes it: the path is built from the id. */
  datatype Segment = Segment(id: nat, path: string)

  datatype OpenError = BadName(error: Parsed) | FileNotFound(path: string)

  datatype Opening = Found(segment: Segment) | Lost(error: OpenError)

  datatype OpenResult = Opened(archive: seq<Segment>, active: Segment) | Failed(error: OpenError)
  {
    function Segments(): seq<Segment>
      requires Opened?
    {
      archive + [active]
    }
  }

  /** What opening one listed file comes to; `disk` holds the paths that exist. Only the
      id is taken from the listed path. */
  function OpenOne(dir: string, ext: string, disk: set<string>, file: string): Opening {
    var id := IdOf(file);
    if !id.Number? then Lost(BadName(id))
    else
      IdInRange(file);
      var s := Segment(id.n, Path(dir, id.n, ext));
      if s.path in disk then Found(s) else Lost(FileNotFound(s.path))
  }

  predicate AllFound(dir: string, ext: string, disk: set<string>, files: seq<string>, segments: seq<Segment>) {
    |segments| == |files|
    && forall i :: 0 <= i < |files| ==> OpenOne(dir, ext, disk, files[i]) == Found(segments[i])
  }

  predicate FirstLost(dir: string, ext: string, disk: set<string>, files: seq<string>, i: nat) {
    i < |files| && OpenOne(dir, ext, disk, files[i]).Lost?
    && forall j :: 0 <= j < i ==> OpenOne(dir, ext, disk, files[j]).Found?
  }

  /** One segment for each file, in order, the last one active; or the error of the first
      file that cannot be opened. */
  ghost predicate OpensAs(dir: string, ext: string, disk: set<string>, files: seq<string>, r: OpenResult) {
    if r.Opened? then AllFound(dir, ext, disk, files, r.Segments())
    else exists i: nat :: FirstLost(dir, ext, disk, files, i) && OpenOne(dir, ext, disk, files[i]) == Lost(r.error)
  }

  /** openSegmentFileList on a list that is not empty. */
  method OpenSegmentFileList(dir: string, ext: string, disk: set<string>, files: seq<string>)
    returns (r: OpenResult)
    requires files != []
    ensures OpensAs(dir, ext, disk, files, r)
  {
    hide IdOf, Path;
    var archive, active, i := [], Segment(0, []), 0;
    while i < |files|
      invariant 0 <= i <= |files|
      invariant |archive| == if i < |files| then i else i - 1
      invariant forall j :: 0 <= j < i && j < |files| - 1 ==> OpenOne(dir, ext, disk, files[j]) == Found(archive[j])
      invariant i == |files| ==> OpenOne(dir, ext, disk, files[i - 1]) == Found(active)
    {
      var id := IdOf(files[i]);
      if !id.Number? {
        assert FirstLost(dir, ext, disk, files, i);
        return Failed(BadName(id));
      }
      IdInRange(files[i]);
      var segment := Segment(id.n, Path(dir, id.n, ext));
      if segment.path !in disk {
        assert FirstLost(dir, ext, disk, files, i);
        return Failed(FileNotFound(segment.path));
      }
      if i == |files| - 1 { active := segment; } else { archive := archive + [segment]; }
      i := i + 1;
    }
    return Opened(archive, active);
  }

  // ---- Which files are opened ----

  /** The path is the very one that is built from an id. */
  ghost predicate Named(dir: string, ext: string, file: string) {
    exists id: nat :: id <= U32_MAX && file == Path(dir, id, ext)
  }

  lemma NamedIff(dir: string, ext: string, disk: set<string>, file: string)
    requires Extension(ext) && file in disk
    ensures (var o := OpenOne(dir, ext, disk, file); o.Found? && o.segment.path == file) <==> Named(dir, ext, file)
  {
    IdInRange(file);
    hide Path;
    if Named(dir, ext, file) {
      var id: nat :| id <= U32_MAX && file == Path(dir, id, ext);
      IdOfPath(dir, id, ext);
    }
  }

  /** Of files that exist, all open and each as itself exactly when every name is the one
      built from an id. */
  lemma OpensListedIff(dir: string, ext: string, disk: set<string>, files: seq<string>, r: OpenResult)
    requires Extension(ext) && files != [] && forall f :: f in files ==> f in disk
    requires OpensAs(dir, ext, disk, files, r)
    ensures (r.Opened? && |r.Segments()| == |files|
             && forall i :: 0 <= i < |files| ==> r.Segments()[i].path == files[i])
            <==> forall f :: f in files ==> Named(dir, ext, f)
  {
    hide OpenOne, Named, Extension;
    forall i | 0 <= i < |files|
      ensures var o := OpenOne(dir, ext, disk, files[i]);
              (o.Found? && o.segment.path == files[i]) <==> Named(dir, ext, files[i])
    {
      assert files[i] in files;
      NamedIff(dir, ext, disk, files[i]);
    }
  }

  /** No file is opened twice exactly when the names listed give distinct ids. */
  lemma OpensNoneTwiceIff(dir: string, ext: string, disk: set<string>, files: seq<string>, r: OpenResult)
    requires Extension(ext) && r.Opened? && OpensAs(dir, ext, disk, files, r)
    ensures (forall i, j :: 0 <= i < j < |files| ==> r.Segments()[i].path != r.Segments()[j].path)
            <==> forall i, j :: 0 <= i < j < |files| ==> IdOf(files[i]) != IdOf(files[j])
  {
    var s := r.Segments();
    forall i | 0 <= i < |files|
      ensures IdOf(files[i]) == Number(s[i].id) == IdOf(s[i].path) && s[i].path == Path(dir, s[i].id, ext)
    {
      assert OpenOne(dir, ext, disk, files[i]) == Found(s[i]);
      IdInRange(files[i]);
      IdOfPath(dir, s[i].id, ext);
    }
    hide IdOf, Path, OpenOne;
  }

  /** Two names the listing can hold that are read as id 7 and open another file. */
  lemma MisreadNames(dir: string, disk: set<string>)
    requires dir + "/" + "7.segment" in disk
    ensures var seven := Found(Segment(7, dir + "/" + "7.segment"));
            && OpenOne(dir, ".segment", disk, dir + "/" + "07.segment") == seven
            && OpenOne(dir, ".segment", disk, dir + "/" + "7.bak.segment") == seven
  {
    IdOfName(dir, "07", ".segment");
    IdOfName(dir, "7", ".bak.segment");
    ReadsSeven();
    hide IdOf, ParseInt, Extension;
    assert "07" + ".segment" == "07.segment" && "7" + ".bak.segment" == "7.bak.segment";
    assert Print(7) == "7" && "7" + ".segment" == "7.segment";
  }

  lemma ReadsSeven()
    ensures ParseInt("07", 0, U32_MAX) == ParseInt("7", 0, U32_MAX) == Number(7)
  {
    var s := "07";
    assert s[..1] == "0" && "0"[..0] == [] && "7"[..0] == [];
    assert Value("0") == 0 && Value(s) == 7 && Value("7") == 7;
    AccumulateDigits("07", 0, U32_MAX);
    AccumulateDigits("7", 0, U32_MAX);
  }

  // ---- Which file becomes active ----

  lemma {:induction false} LexPrefix(p: string, a: string, b: string)
    ensures LexLess(p + a, p + b) <==> LexLess(a, b)
  {
    if p == [] {
      assert p + a == a && p + b == b;
    } else {
      assert (p + a)[1..] == p[1..] + a && (p + b)[1..] == p[1..] + b;
      LexPrefix(p[1..], a, b);
    }
  }

  /** Appending to strings of one length: what comes first decides first. */
  lemma {:induction false} LexExtend(a: string, b: string, x: string, y: string)
    requires |a| == |b|
    ensures LexLess(a + x, b + y) <==> LexLess(a, b) || (a == b && LexLess(x, y))
  {
    if a == [] {
      assert a + x == x && b + y == y;
    } else {
      assert (a + x)[1..] == a[1..] + x && (b + y)[1..] == b[1..] + y;
      LexExtend(a[1..], b[1..], x, y);
      assert a == [a[0]] + a[1..] && b == [b[0]] + b[1..];
    }
  }

  /** Numerals of one length are ordered by their values. */
  lemma {:induction false} LexIsNumeric(a: string, b: string)
    requires |a| == |b| && AllDigits(a) && AllDigits(b)
    ensures LexLess(a, b) <==> Value(a) < Value(b)
    ensures a == b <==> Value(a) == Value(b)
  {
    if a != [] {
      var k := |a| - 1;
      assert a == a[..k] + [a[k]] && b == b[..k] + [b[k]];
      LexIsNumeric(a[..k], b[..k]);
      LexExtend(a[..k], b[..k], [a[k]], [b[k]]);
      assert LexLess([a[k]], [b[k]]) <==> a[k] < b[k];
    }
  }

  /** What is left of `m` when it is cut to as many digits as `a` has. */
  function LeadingDigits(m: nat, a: nat): nat
    requires |Print(a)| <= |Print(m)|
  {
    Value(Print(m)[..|Print(a)|])
  }

  lemma {:induction false} DigitsGrow(a: nat, b: nat)
    requires a <= b
    ensures |Print(a)| <= |Print(b)|
  {
    if a >= 10 { DigitsGrow(a / 10, b / 10); }
  }

  /** A smaller id sorts before a larger one exactly when it does not exceed the larger
      one's leading digits. */
  lemma PathOrderIff(dir: string, ext: string, a: nat, m: nat)
    requires Extension(ext) && a < m
    ensures |Print(a)| <= |Print(m)|
    ensures LexLess(Path(dir, a, ext), Path(dir, m, ext)) <==> a <= LeadingDigits(m, a)
    ensures LexLess(Path(dir, m, ext), Path(dir, a, ext)) <==> a > LeadingDigits(m, a)
  {
    DigitsGrow(a, m);
    var s, t := Print(a), Print(m);
    var k := |s|;
    var head, tail := t[..k], t[k..] + ext;
    assert t + ext == head + tail;
    LexPrefix(dir + "/", s + ext, t + ext);
    LexPrefix(dir + "/", t + ext, s + ext);
    LexExtend(s, head, ext, tail);
    LexExtend(head, s, tail, ext);
    LexIsNumeric(s, head);
    LexIsNumeric(head, s);
    ValuePrint(a);
    ValuePrint(m);
    if s == head {
      assert t[..|t|] == t;
      assert tail[0] == t[k] && ext[0] < tail[0];
    }
  }

  function Paths(dir: string, ids: seq<nat>, ext: string): (ps: seq<string>)
    ensures |ps| == |ids| && forall i :: 0 <= i < |ids| ==> ps[i] == Path(dir, ids[i], ext)
  {
    seq(|ids|, i requires 0 <= i < |ids| => Path(dir, ids[i], ext))
  }

  /** Every file of the sorted list is that of an id, and every id has its file there. */
  lemma SortedPaths(dir: string, ids: seq<nat>, ext: string)
    ensures var s := Sorted(Paths(dir, ids, ext));
            && InOrder(s) && |s| == |ids|
            && (forall a :: a in ids ==> Path(dir, a, ext) in s)
            && (forall p :: p in s ==> exists a: nat :: a in ids && p == Path(dir, a, ext))
  {
    var paths := Paths(dir, ids, ext);
    var s := Sorted(paths);
    hide Path, Sorted, InOrder;
    SortedIsPermutation(paths);
    forall a | a in ids
      ensures Path(dir, a, ext) in s
    {
      var i :| 0 <= i < |ids| && ids[i] == a;
      assert paths[i] in multiset(paths);
    }
    forall p | p in s
      ensures exists a: nat :: a in ids && p == Path(dir, a, ext)
    {
      assert p in multiset(s);
      var i :| 0 <= i < |paths| && paths[i] == p;
      assert ids[i] in ids;
    }
  }

  /** Files named by their ids all open, each as itself, and the one that becomes active has
      the largest id exactly when no id exceeds the leading digits of the largest; so always
      when all ids have as many digits. */
  lemma ActiveIsLargestIff(dir: string, ext: string, disk: set<string>, ids: seq<nat>, m: nat, r: OpenResult)
    requires Extension(ext) && m in ids && m <= U32_MAX && forall a :: a in ids ==> a <= m
    requires forall a :: a in ids ==> Path(dir, a, ext) in disk
    requires OpensAs(dir, ext, disk, Sorted(Paths(dir, ids, ext)), r)
    ensures r.Opened? && forall a :: a in ids ==> |Print(a)| <= |Print(m)|
    ensures r.active == Segment(m, Path(dir, m, ext)) <==> forall a :: a in ids && a < m ==> a <= LeadingDigits(m, a)
    ensures (forall a :: a in ids ==> |Print(a)| == |Print(m)|) ==> r.active.id == m
  {
    var s := Sorted(Paths(dir, ids, ext));
    hide Path, IdOf, Sorted, InOrder, LeadingDigits, Paths;
    SortedPaths(dir, ids, ext);
    forall p | p in s
      ensures OpenOne(dir, ext, disk, p).Found? && OpenOne(dir, ext, disk, p).segment.path == p
      ensures forall a: nat :: a in ids && p == Path(dir, a, ext) ==> OpenOne(dir, ext, disk, p).segment.id == a
    {
      forall a: nat | a in ids && p == Path(dir, a, ext)
        ensures OpenOne(dir, ext, disk, p) == Found(Segment(a, p))
      {
        IdOfPath(dir, a, ext);
      }
    }
    hide OpenOne;
    assert r.Opened?;
    var last := s[|s| - 1];
    assert last in s && r.Segments()[|s| - 1] == r.active;
    var l: nat :| l in ids && last == Path(dir, l, ext);
    assert r.active == Segment(l, Path(dir, l, ext));
    IdOfPath(dir, l, ext);
    IdOfPath(dir, m, ext);
    DigitsFit(ids, m);
    LastIsTop(s, dir, ext, ids, m, l);
  }

  lemma DigitsFit(ids: seq<nat>, m: nat)
    requires forall a :: a in ids ==> a <= m
    ensures forall a :: a in ids ==> |Print(a)| <= |Print(m)|
    ensures forall a :: a in ids && |Print(a)| == |Print(m)| ==> LeadingDigits(m, a) == m
  {
    forall a | a in ids
      ensures |Print(a)| <= |Print(m)|
      ensures |Print(a)| == |Print(m)| ==> LeadingDigits(m, a) == m
    {
      DigitsGrow(a, m);
      assert Print(m)[..|Print(m)|] == Print(m);
      ValuePrint(m);
    }
  }

  lemma NoneAfterLast(s: seq<string>)
    requires InOrder(s) && s != []
    ensures forall p :: p in s ==> !LexLess(s[|s| - 1], p)
  {
    var last := s[|s| - 1];
    hide LexLess;
    LexOrder(last, last, last);
  }

  lemma LastIsTop(s: seq<string>, dir: string, ext: string, ids: seq<nat>, m: nat, l: nat)
    requires Extension(ext) && m in ids && forall a :: a in ids ==> a <= m
    requires forall a :: a in ids ==> |Print(a)| <= |Print(m)|
    requires InOrder(s) && s != [] && forall a :: a in ids ==> Path(dir, a, ext) in s
    requires l in ids && s[|s| - 1] == Path(dir, l, ext)
    ensures s[|s| - 1] == Path(dir, m, ext) <==> forall a :: a in ids && a < m ==> a <= LeadingDigits(m, a)
  {
    var last, top := s[|s| - 1], Path(dir, m, ext);
    NoneAfterLast(s);
    hide Path, LexLess, InOrder, LeadingDigits, Extension;
    if last == top {
      forall a | a in ids && a < m
        ensures a <= LeadingDigits(m, a)
      {
        PathOrderIff(dir, ext, a, m);
      }
    } else {
      PathOrderIff(dir, ext, l, m);
    }
  }

  /** Nine comes after ten: with ids 9 and 10 the older file becomes active again. */
  lemma NineAfterTen(dir: string)
    ensures Sorted([Path(dir, 9, ".segment"), Path(dir, 10, ".segment")])
         == [Path(dir, 10, ".segment"), Path(dir, 9, ".segment")]
  {
    var ext := ".segment";
    assert Print(10) == "10" && Print(9) == "9";
    var one := Print(10)[..1];
    assert one == "1" && one[..0] == [];
    assert LeadingDigits(10, 9) == Value(one) == 1;
    PathOrderIff(dir, ext, 9, 10);
    var p, q := Path(dir, 9, ext), Path(dir, 10, ext);
    hide Path, LexLess;
    var s := [p, q];
    assert s[0] == p && s[1..] == [q] && [q][1..] == [];
    assert Sorted([q]) == [q];
    assert Insert(p, [q]) == [q] + Insert(p, []) == [q, p];
    assert Sorted(s) == Insert(p, [q]);
  }
}

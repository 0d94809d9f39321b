/** Compiling a field path of a structure to a uprobe fetch expression. */
module FetchExpr {
  import opened Decimal

  datatype Member = Member(typ: string, isPointer: bool, offset: nat)

  /** What pahole reports for a field of a structure. */
  type Layouts = map<(string, string), Member>

  datatype Compiled = Expr(text: string) | NotFound

  predicate Known(t: Layouts, struct: string, fields: seq<string>)
    decreases |fields|
  {
    fields != [] ==>
      (struct, fields[0]) in t && Known(t, t[(struct, fields[0])].typ, fields[1..])
  }

  // ---- What a path means ----

  /** The address of the last field of a path, from where the structure lies: a pointer
      member is followed, an embedded one is stepped into. */
  function Address(t: Layouts, mem: int -> int, place: int, struct: string, fields: seq<string>): int
    requires fields != [] && Known(t, struct, fields)
    decreases |fields|
  {
    var m := t[(struct, fields[0])];
    var at := place + m.offset;
    if |fields| == 1 then at
    else Address(t, mem, if m.isPointer then mem(at) else at, m.typ, fields[1..])
  }

  // ---- What an expression means ----

  datatype Evaluated = Value(v: int) | Malformed

  datatype Parsed = Level(offset: nat, inner: string) | NoLevel

  /** One level `+n(e)`. */
  function Outermost(s: string): (p: Parsed)
    ensures p.Level? ==> |p.inner| < |s|
  {
    if |s| < 4 || s[0] != '+' || s[|s| - 1] != ')' then NoLevel
    else
      var t := s[1..];
      var n := Leading(t);
      if n == 0 || n + 1 >= |t| || t[n] != '(' then NoLevel
      else Level(Decimal.Value(t[..n]), t[n + 1..|t| - 1])
  }

  /** `_` is the probed value; `+n(e)` is the word in memory n bytes after e. */
  function Evaluate(s: string, mem: int -> int, base: int): Evaluated
    decreases |s|
  {
    if s == "_" then Value(base)
    else
      match Outermost(s)
      case NoLevel => Malformed
      case Level(n, inner) =>
        match Evaluate(inner, mem, base)
        case Malformed => Malformed
        case Value(v) => Value(mem(v + n))
  }

  // ---- The compiler ----

  /** A new level below a pointer, more of the same level below an embedded structure. */
  function Extend(offsets: seq<nat>, viaPointer: bool, offset: nat): (r: seq<nat>)
    requires offsets == [] ==> viaPointer
    ensures r != [] && |r| >= |offsets|
  {
    var k := |offsets| - 1;
    if viaPointer then offsets + [offset] else offsets[k := offsets[k] + offset]
  }

  /** Offsets of embedded members are folded into the one before. */
  function Fold(t: Layouts, offsets: seq<nat>, viaPointer: bool, struct: string, fields: seq<string>): (r: seq<nat>)
    requires Known(t, struct, fields) && (offsets == [] ==> viaPointer)
    ensures |r| >= |offsets| && (fields != [] ==> r != [])
    decreases |fields|
  {
    if fields == [] then offsets
    else
      var m := t[(struct, fields[0])];
      Fold(t, Extend(offsets, viaPointer, m.offset), m.isPointer, m.typ, fields[1..])
  }

  function Render(offsets: seq<nat>): string {
    if offsets == [] then "_"
    else
      var k := |offsets| - 1;
      "+" + Print(offsets[k]) + "(" + Render(offsets[..k]) + ")"
  }

  /** The main block: fold the offsets along the path, then nest them. */
  method Compile(t: Layouts, struct: string, fields: seq<string>) returns (r: Compiled)
    ensures r == if Known(t, struct, fields) then Expr(Render(Fold(t, [], true, struct, fields))) else NotFound
  {
    var offsets: seq<nat> := [];
    var lastIsPointer, current := true, struct;
    var i := 0;
    assert fields[0..] == fields;
    while i < |fields|
      invariant 0 <= i <= |fields| && (offsets == [] ==> lastIsPointer)
      invariant Known(t, struct, fields) <==> Known(t, current, fields[i..])
      invariant Known(t, struct, fields) ==>
                  Fold(t, offsets, lastIsPointer, current, fields[i..]) == Fold(t, [], true, struct, fields)
    {
      assert fields[i..][1..] == fields[i + 1..];
      if (current, fields[i]) !in t { return NotFound; }
      var m := t[(current, fields[i])];
      ghost var next := Extend(offsets, lastIsPointer, m.offset);
      if lastIsPointer {
        offsets := offsets + [m.offset];
      } else {
        offsets := offsets[|offsets| - 1 := offsets[|offsets| - 1] + m.offset];
      }
      assert offsets == next;
      current, lastIsPointer := m.typ, m.isPointer;
      i := i + 1;
    }
    var res := "_";
    var j := 0;
    assert offsets[..0] == [];
    while j < |offsets|
      invariant 0 <= j <= |offsets| && res == Render(offsets[..j])
    {
      assert offsets[..j + 1][..j] == offsets[..j];
      res := "+" + Print(offsets[j]) + "(" + res + ")";
      j := j + 1;
    }
    assert offsets[..j] == offsets;
    return Expr(res);
  }

  // ---- Correctness ----

  /** The value an offset list stands for, and the address it reads it from. */
  function Meaning(offsets: seq<nat>, mem: int -> int, base: int): int
    decreases |offsets|, 1
  {
    if offsets == [] then base else mem(Last(offsets, mem, base))
  }

  function Last(offsets: seq<nat>, mem: int -> int, base: int): int
    requires offsets != []
    decreases |offsets|, 0
  {
    Meaning(offsets[..|offsets| - 1], mem, base) + offsets[|offsets| - 1]
  }

  /** Where the structure reached so far lies. */
  function Place(offsets: seq<nat>, viaPointer: bool, mem: int -> int, base: int): int
    requires offsets == [] ==> viaPointer
  {
    if viaPointer then Meaning(offsets, mem, base) else Last(offsets, mem, base)
  }

  lemma ExtendReads(offsets: seq<nat>, viaPointer: bool, o: nat, mem: int -> int, base: int)
    requires offsets == [] ==> viaPointer
    ensures Last(Extend(offsets, viaPointer, o), mem, base) == Place(offsets, viaPointer, mem, base) + o
  {
    var next, k := Extend(offsets, viaPointer, o), |offsets| - 1;
    assert next[..|next| - 1] == if viaPointer then offsets else offsets[..k];
  }

  lemma {:induction false} FoldWalks(t: Layouts, mem: int -> int, base: int, offsets: seq<nat>, viaPointer: bool,
                                     struct: string, fields: seq<string>)
    requires fields != [] && Known(t, struct, fields) && (offsets == [] ==> viaPointer)
    ensures Last(Fold(t, offsets, viaPointer, struct, fields), mem, base)
         == Address(t, mem, Place(offsets, viaPointer, mem, base), struct, fields)
    decreases |fields|
  {
    var m := t[(struct, fields[0])];
    var next := Extend(offsets, viaPointer, m.offset);
    assert Fold(t, offsets, viaPointer, struct, fields) == Fold(t, next, m.isPointer, m.typ, fields[1..]);
    ExtendReads(offsets, viaPointer, m.offset, mem, base);
    assert Place(next, m.isPointer, mem, base) ==
      if m.isPointer then mem(Last(next, mem, base)) else Last(next, mem, base);
    if |fields| == 1 {
      assert Fold(t, next, m.isPointer, m.typ, fields[1..]) == next;
    } else {
      hide Fold, Meaning, Last, Place, Extend;
      FoldWalks(t, mem, base, next, m.isPointer, m.typ, fields[1..]);
    }
  }

  lemma OutermostPrinted(o: nat, inner: string)
    requires inner != []
    ensures Outermost("+" + Print(o) + "(" + inner + ")") == Level(o, inner)
  {
    var d := Print(o);
    var s := "+" + d + "(" + inner + ")";
    var t := s[1..];
    assert t == d + ("(" + inner + ")");
    LeadingOf(d, "(" + inner + ")");
    assert t[..|d|] == d && t[|d| + 1..|t| - 1] == inner;
    ValuePrint(o);
    hide Print, Leading;
  }

  lemma EvaluateLevel(s: string, n: nat, inner: string, v: int, mem: int -> int, base: int)
    requires s != "_" && Outermost(s) == Level(n, inner) && Evaluate(inner, mem, base) == Value(v)
    ensures Evaluate(s, mem, base) == Value(mem(v + n))
  {
    hide Outermost;
  }

  lemma {:induction false} RenderLevel(offsets: seq<nat>)
    ensures Render(offsets) != []
    ensures offsets != [] ==>
              var k := |offsets| - 1;
              Render(offsets) != "_" && Outermost(Render(offsets)) == Level(offsets[k], Render(offsets[..k]))
  {
    if offsets != [] {
      var k := |offsets| - 1;
      RenderLevel(offsets[..k]);
      OutermostPrinted(offsets[k], Render(offsets[..k]));
      hide Outermost, Print;
    }
  }

  lemma NoLevels(mem: int -> int, base: int)
    ensures Evaluate(Render([]), mem, base) == Value(Meaning([], mem, base))
  {
  }

  lemma {:induction false} RenderMeans(offsets: seq<nat>, mem: int -> int, base: int)
    ensures Evaluate(Render(offsets), mem, base) == Value(Meaning(offsets, mem, base))
  {
    hide Evaluate, Render, Outermost;
    if offsets == [] {
      NoLevels(mem, base);
    } else {
      var k := |offsets| - 1;
      RenderMeans(offsets[..k], mem, base);
      RenderLevel(offsets);
      EvaluateLevel(Render(offsets), offsets[k], Render(offsets[..k]), Meaning(offsets[..k], mem, base), mem, base);
    }
  }

  /** Evaluating the expression printed for a path gives the word at the address of its
      last field, whatever the layouts and the memory. */
  lemma CompiledPathMeans(t: Layouts, mem: int -> int, base: int, struct: string, fields: seq<string>)
    requires fields != [] && Known(t, struct, fields)
    ensures Evaluate(Render(Fold(t, [], true, struct, fields)), mem, base)
         == Value(mem(Address(t, mem, base, struct, fields)))
  {
    RenderMeans(Fold(t, [], true, struct, fields), mem, base);
    FoldWalks(t, mem, base, [], true, struct, fields);
  }

  /** A pointer to a structure with another embedded in it: two levels, the second with the
      two offsets added up. */
  lemma ThreeFields(mem: int -> int, base: int)
    ensures var t: Layouts := map[("A", "b") := Member("B", true, 8), ("B", "c") := Member("C", false, 16),
                                  ("C", "d") := Member("int", false, 4)];
            && Known(t, "A", ["b", "c", "d"])
            && Render(Fold(t, [], true, "A", ["b", "c", "d"])) == "+20(+8(_))"
            && Address(t, mem, base, "A", ["b", "c", "d"]) == mem(base + 8) + 20
  {
    var t: Layouts := map[("A", "b") := Member("B", true, 8), ("B", "c") := Member("C", false, 16),
                          ("C", "d") := Member("int", false, 4)];
    var f, g, e := ["b", "c", "d"], ["c", "d"], ["d"];
    assert f[1..] == g && g[1..] == e && e[1..] == [];
    assert t[("A", "b")] == Member("B", true, 8) && t[("B", "c")] == Member("C", false, 16);
    assert Fold(t, [8, 20], false, "int", []) == [8, 20];
    assert Fold(t, [8, 16], false, "C", e) == [8, 20];
    assert Fold(t, [8], true, "B", g) == [8, 20];
    assert Fold(t, [], true, "A", f) == [8, 20];
    assert Address(t, mem, mem(base + 8) + 16, "C", e) == mem(base + 8) + 20;
    assert Address(t, mem, mem(base + 8), "B", g) == mem(base + 8) + 20;
    hide Fold, Address, Known;
    RendersTwo();
  }

  lemma RendersTwo()
    ensures Render([8, 20]) == "+20(+8(_))"
  {
    assert Print(20) == "20" && Print(8) == "8";
    assert [8, 20][..1] == [8] && [8][..0] == [];
    assert Render([8]) == "+8(_)";
  }
}

/** A character terminal: an unbounded grid below a fixed top row, a cursor with
    deferred wrap, and a parser for the control functions the line editor sends
    (ECMA-48: CR, LF, CUU, CUD, CUF, CUP, ED and EL). */
module Terminal {
  import opened Arith
  import opened Ascii
  import Decimal

  datatype Pos = At(row: int, col: nat)

  type Grid = map<Pos, char>

  /** Where the parser is inside an escape sequence. */
  datatype Mode = Ground | Escape | Csi(arg: nat)

  /** `top` is the highest row the cursor can reach; a cell that was never
      written, or was erased, is absent from `cells`. */
  datatype Screen = Screen(
    cols: Width, top: int, cells: Grid,
    row: int, col: nat, pending: bool, mode: Mode)
  {
    predicate Valid() {
      top <= row && col < cols && (pending ==> col == cols - 1)
    }

    /** Ready for output at the left edge of a row. */
    predicate AtLeft() {
      Valid() && col == 0 && !pending && mode == Ground
    }
  }

  predicate Glyph(c: char) { ' ' <= c && c != DEL }

  predicate Printable(s: string) { forall i :: 0 <= i < |s| ==> Glyph(s[i]) }

  /** Cursor motions take 0 and "no argument" for 1, as the VT100 and xterm do. */
  function Count(arg: nat): nat { if arg == 0 then 1 else arg }

  function Put(t: Screen, c: char): Screen
    requires t.Valid()
  {
    var r := if t.pending then t.row + 1 else t.row;
    var k := if t.pending then 0 else t.col;
    t.(cells := t.cells[At(r, k) := c], row := r,
       col := if k + 1 < t.cols then k + 1 else k, pending := k + 1 == t.cols)
  }

  function CarriageReturn(t: Screen): Screen { t.(col := 0, pending := false) }

  function LineFeed(t: Screen): Screen { t.(row := t.row + 1, pending := false) }

  function Up(t: Screen, n: nat): Screen {
    t.(row := Max(t.top, t.row - n), pending := false, mode := Ground)
  }

  function Down(t: Screen, n: nat): Screen {
    t.(row := t.row + n, pending := false, mode := Ground)
  }

  function Right(t: Screen, n: nat): Screen
    requires t.Valid()
  {
    t.(col := Min(t.cols - 1, t.col + n), pending := false, mode := Ground)
  }

  /** EL 0: from the cursor to the end of its row, inclusive. */
  function EraseRight(t: Screen): Screen {
    t.(cells := map p | p in t.cells && !(p.row == t.row && t.col <= p.col) :: t.cells[p],
       mode := Ground)
  }

  function Home(t: Screen): Screen {
    t.(row := t.top, col := 0, pending := false, mode := Ground)
  }

  /** ED 2: every cell of the display. */
  function EraseDisplay(t: Screen): Screen {
    t.(cells := map p | p in t.cells && p.row < t.top :: t.cells[p], mode := Ground)
  }

  function Control(t: Screen, arg: nat, final: char): (t': Screen)
    requires t.Valid()
    ensures t'.Valid() && t'.cols == t.cols && t'.top == t.top
  {
    match final
    case 'A' => Up(t, Count(arg))
    case 'B' => Down(t, Count(arg))
    case 'C' => Right(t, Count(arg))
    case 'K' => if arg == 0 then EraseRight(t) else t.(mode := Ground)
    case 'H' => if arg <= 1 then Home(t) else t.(mode := Ground)
    case 'J' => if arg == 2 then EraseDisplay(t) else t.(mode := Ground)
    case _ => t.(mode := Ground)
  }

  /** One byte of output. */
  function Step(t: Screen, c: char): (t': Screen)
    requires t.Valid()
    ensures t'.Valid() && t'.cols == t.cols && t'.top == t.top
  {
    match t.mode
    case Ground =>
      if c == ESC then t.(mode := Escape)
      else if c == CR then CarriageReturn(t)
      else if c == LF then LineFeed(t)
      else if Glyph(c) then Put(t, c)
      else t
    case Escape => t.(mode := if c == '[' then Csi(0) else Ground)
    case Csi(arg) =>
      if Decimal.IsDigit(c) then t.(mode := Csi(10 * arg + Decimal.DigitValue(c)))
      else Control(t, arg, c)
  }

  function Feed(t: Screen, s: string): (t': Screen)
    requires t.Valid()
    ensures t'.Valid() && t'.cols == t.cols && t'.top == t.top
    decreases |s|
  {
    if s == [] then t else Feed(Step(t, s[0]), s[1..])
  }

  lemma {:induction false} FeedConcat(t: Screen, a: string, b: string)
    requires t.Valid()
    ensures Feed(t, a + b) == Feed(Feed(t, a), b)
    decreases |a|
  {
    if a == [] {
      assert a + b == b;
    } else {
      assert (a + b)[0] == a[0] && (a + b)[1..] == a[1..] + b;
      FeedConcat(Step(t, a[0]), a[1..], b);
    }
  }

  lemma FeedLast(t: Screen, s: string)
    requires t.Valid() && s != []
    ensures Feed(t, s) == Step(Feed(t, s[..|s| - 1]), s[|s| - 1])
  {
    var a, b := s[..|s| - 1], [s[|s| - 1]];
    assert s == a + b;
    hide Feed, Step;
    FeedConcat(t, a, b);
    FeedOne(Feed(t, a), s[|s| - 1]);
  }

  lemma FeedOne(t: Screen, c: char)
    requires t.Valid()
    ensures Feed(t, [c]) == Step(t, c)
  {
    hide Step;
    assert [c][1..] == [];
    FeedNothing(Step(t, c));
  }

  lemma FeedNothing(t: Screen)
    requires t.Valid()
    ensures Feed(t, []) == t
  {
  }

  /** A control sequence with one numeric argument. */
  function Seq(n: nat, final: char): string { [ESC, '['] + Decimal.Print(n) + [final] }

  lemma {:induction false} FeedDigits(t: Screen, s: string)
    requires t.Valid() && t.mode == Csi(0) && Decimal.AllDigits(s)
    ensures Feed(t, s) == t.(mode := Csi(Decimal.Value(s)))
  {
    if s != [] {
      FeedDigits(t, s[..|s| - 1]);
      FeedLast(t, s);
    }
  }

  /** Printing the argument and parsing it back: the terminal obeys the number meant. */
  lemma FeedSeq(t: Screen, n: nat, final: char)
    requires t.Valid() && t.mode == Ground && !Decimal.IsDigit(final)
    ensures Feed(t, Seq(n, final)) == Control(t.(mode := Csi(n)), n, final)
  {
    var d := Decimal.Print(n);
    var t1 := t.(mode := Csi(0));
    FeedConcat(t, [ESC, '['] + d, [final]);
    FeedConcat(t, [ESC, '['], d);
    assert Feed(t, [ESC, '[']) == t1 by {
      assert [ESC, '['][1..] == ['['];
      assert Feed(t.(mode := Escape), ['[']) == Feed(t1, []) by { assert ['['][1..] == []; }
    }
    FeedDigits(t1, d);
    Decimal.ValuePrint(n);
    assert [final][1..] == [];
  }

  lemma FeedPlain(t: Screen)
    requires t.Valid() && t.mode == Ground
    ensures Feed(t, []) == t
    ensures Feed(t, [CR]) == t.(col := 0, pending := false)
    ensures Feed(t, [LF]) == t.(row := t.row + 1, pending := false)
  {
    FeedConcat(t, [], []);
    hide Feed;
    FeedOne(t, CR);
    FeedOne(t, LF);
  }

  lemma ControlMoves(t: Screen, n: nat)
    requires t.Valid()
    ensures Control(t, n, 'A') == Up(t, Count(n))
    ensures Control(t, n, 'B') == Down(t, Count(n))
    ensures Control(t, n, 'C') == Right(t, Count(n))
  {
  }

  /** The cursor motions the editor uses, by their effect. */
  lemma FeedControls(t: Screen, n: nat)
    requires t.Valid() && t.mode == Ground
    ensures Feed(t, []) == t
    ensures Feed(t, [CR]) == t.(col := 0, pending := false)
    ensures Feed(t, [LF]) == t.(row := t.row + 1, pending := false)
    ensures n > 0 ==> Feed(t, Seq(n, 'A')) == t.(row := Max(t.top, t.row - n), pending := false)
    ensures n > 0 ==> Feed(t, Seq(n, 'B')) == t.(row := t.row + n, pending := false)
    ensures Feed(t, Seq(n, 'C'))
         == t.(col := Min(t.cols - 1, t.col + if n == 0 then 1 else n), pending := false)
  {
    hide Feed, Step, Decimal.Print, Seq, Control;
    FeedPlain(t);
    FeedSeq(t, n, 'A');
    FeedSeq(t, n, 'B');
    FeedSeq(t, n, 'C');
    ControlMoves(t.(mode := Csi(n)), n);
  }

  lemma FeedEraseRight(t: Screen)
    requires t.Valid() && t.mode == Ground
    ensures Feed(t, Seq(0, 'K'))
         == t.(cells := map p | p in t.cells && !(p.row == t.row && t.col <= p.col) :: t.cells[p])
  {
    hide Feed, Decimal.Print, Seq;
    FeedSeq(t, 0, 'K');
  }

  // ---- Text laid out row-major from the left edge of row `top` ----

  function Layout(text: string, cols: Width, top: int): Grid {
    if text == [] then map[]
    else
      var k := |text| - 1;
      Layout(text[..k], cols, top)[At(top + k / cols, k % cols) := text[k]]
  }

  /** What Layout means: the cell at (row, col) holds character number
      (row - top) * cols + col, and no other cell is written. */
  lemma {:induction false} LayoutAt(text: string, cols: Width, top: int, p: Pos)
    ensures p in Layout(text, cols, top) <==>
            p.col < cols && 0 <= (p.row - top) * cols + p.col < |text|
    ensures p in Layout(text, cols, top) ==>
            Layout(text, cols, top)[p] == text[(p.row - top) * cols + p.col]
  {
    if text != [] {
      var k := |text| - 1;
      LayoutAt(text[..k], cols, top, p);
      assert k == (k / cols) * cols + k % cols;
      if p.col < cols && (p.row - top) * cols + p.col == k {
        DivUnique(p.row - top, p.col, cols);
      }
    }
  }

  lemma RowsGrow(g: Grid, at: Pos, c: char, cols: Width, top: int, a: int, b: int)
    requires forall p :: p in g ==> top <= p.row <= top + a && p.col < cols
    requires 0 <= a <= b && at.row == top + b && at.col < cols
    ensures forall p :: p in g[at := c] ==> top <= p.row <= top + b && p.col < cols
  {
  }

  lemma UpdateLast(g: Grid, h: Grid, at: Pos, c: char)
    ensures g + h[at := c] == (g + h)[at := c]
  {
  }

  lemma LayoutLast(text: string, cols: Width, top: int)
    requires text != []
    ensures var k := |text| - 1;
            Layout(text, cols, top) == Layout(text[..k], cols, top)[At(top + k / cols, k % cols) := text[k]]
  {
  }

  /** The row of the last of `n` characters. */
  function LastRow(n: nat, cols: Width): int { if n == 0 then 0 else (n - 1) / cols }

  lemma LastRowGrows(k: nat, cols: Width)
    ensures 0 <= LastRow(k, cols) <= LastRow(k + 1, cols) == k / cols && k % cols < cols
  {
    DivMono(0, k, cols);
    if k > 0 { DivMono(k - 1, k, cols); }
  }

  /** The cells of a layout lie in the rows its text needs. */
  lemma {:induction false} LayoutRows(text: string, cols: Width, top: int)
    ensures forall p :: p in Layout(text, cols, top) ==>
              top <= p.row <= top + LastRow(|text|, cols) && p.col < cols
  {
    if text != [] {
      var k := |text| - 1;
      LayoutRows(text[..k], cols, top);
      LastRowGrows(k, cols);
      LayoutLast(text, cols, top);
      hide Layout, LastRow;
      RowsGrow(Layout(text[..k], cols, top), At(top + k / cols, k % cols), text[k], cols, top,
               LastRow(k, cols), k / cols);
    }
  }

  /** Where the cursor rests after `n` characters from the left edge of `row`. */
  function AfterText(t: Screen, n: nat, cells: Grid): Screen {
    t.(cells := cells,
       row := t.row + (if n == 0 then 0 else (n - 1) / t.cols),
       col := if n == 0 then 0 else if n % t.cols == 0 then t.cols - 1 else n % t.cols,
       pending := n > 0 && n % t.cols == 0)
  }

  lemma StepGlyph(t: Screen, c: char)
    requires t.Valid() && t.mode == Ground && Glyph(c)
    ensures Step(t, c) == Put(t, c)
  {
  }

  lemma PutAfter(t: Screen, k: nat, cells: Grid, c: char)
    requires t.AtLeft()
    ensures AfterText(t, k, cells).Valid() && AfterText(t, k, cells).mode == Ground
    ensures Put(AfterText(t, k, cells), c)
         == AfterText(t, k + 1, cells[At(t.row + k / t.cols, k % t.cols) := c])
  {
    NextCell(k, t.cols);
  }

  /** Where character `k` goes, and where the cursor then rests. */
  lemma NextCell(k: nat, c: Width)
    ensures 0 <= k % c < c
    ensures k / c == (if k == 0 then 0 else (k - 1) / c) + (if k > 0 && k % c == 0 then 1 else 0)
    ensures k == 0 ==> k % c == 0
    ensures (k + 1) % c == if k % c == c - 1 then 0 else k % c + 1
  {
    DivStep(k, c);
    DivSmall(0, c);
    if k > 0 { DivStep(k - 1, c); }
  }

  /** Printing text from the left edge lays it out row by row, the wrap at the
      right edge being deferred until a further character arrives. */
  lemma {:induction false} FeedText(t: Screen, text: string)
    requires t.AtLeft() && Printable(text)
    ensures Feed(t, text) == AfterText(t, |text|, t.cells + Layout(text, t.cols, t.row))
  {
    hide Step, Control;
    if text == [] {
      assert t.cells + map[] == t.cells;
    } else {
      hide AfterText, Feed;
      var k := |text| - 1;
      var cells := t.cells + Layout(text[..k], t.cols, t.row);
      FeedText(t, text[..k]);
      FeedLast(t, text);
      PutAfter(t, k, cells, text[k]);
      StepGlyph(AfterText(t, k, cells), text[k]);
      LayoutLast(text, t.cols, t.row);
      hide Layout;
      UpdateLast(t.cells, Layout(text[..k], t.cols, t.row), At(t.row + k / t.cols, k % t.cols), text[k]);
    }
  }
}

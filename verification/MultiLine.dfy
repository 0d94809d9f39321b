/** The multi-line repaint of the line editor: the bytes it emits, and what a
    terminal that receives them shows. */
module MultiLine {
  import opened Arith
  import opened Ascii
  import opened Terminal
  import Decimal

  /** What is being edited, and the width it is shown in. */
  datatype View = View(prompt: string, text: string, pos: nat, cols: Width, mask: bool)
  {
    predicate Valid() { pos <= |text| }

    /** The edited text as displayed; mask mode shows one star a byte. */
    function Shown(): (s: string)
      ensures |s| == |text|
    {
      if mask then Stars(|text|) else text
    }

    predicate Clean() { Printable(prompt) && Printable(text) }
  }

  /** All the editor remembers of its last repaint. */
  datatype Memo = Memo(oldpos: nat, oldrows: nat)

  /** REFRESH_CLEAN and REFRESH_WRITE; both set is REFRESH_ALL. */
  datatype Flags = Flags(clean: bool, write: bool)

  const ALL := Flags(true, true)

  function Stars(n: nat): (s: string)
    ensures |s| == n && Printable(s)
  {
    seq(n, _ => '*')
  }

  function Rows(v: View): nat { (|v.prompt| + |v.text| + v.cols - 1) / v.cols }

  /** The cursor sits after a text that exactly fills its rows. */
  predicate NeedsNewline(v: View) {
    v.pos > 0 && v.pos == |v.text| && (v.pos + |v.prompt|) % v.cols == 0
  }

  function PaintedRows(v: View): nat { Rows(v) + if NeedsNewline(v) then 1 else 0 }

  const CLEAR_LINE: string := [CR] + Seq(0, 'K')

  function ClearUp(n: nat): string {
    if n == 0 then [] else ClearUp(n - 1) + (CLEAR_LINE + Seq(1, 'A'))
  }

  /** One-based row of the cursor, as rpos and rpos2 count it. */
  function CursorLine(plen: nat, pos: nat, cols: Width): nat { (plen + pos + cols) / cols }

  function CleanBytes(plen: nat, m: Memo, cols: Width): string {
    var down := m.oldrows - CursorLine(plen, m.oldpos, cols);
    (if down > 0 then Seq(down, 'B') else []) +
    ClearUp(if m.oldrows > 0 then m.oldrows - 1 else 0)
  }

  function ToColumn(col: nat): string { if col > 0 then [CR] + Seq(col, 'C') else [CR] }

  function PlaceBytes(v: View): string {
    var up := PaintedRows(v) - CursorLine(|v.prompt|, v.pos, v.cols);
    var col := (|v.prompt| + v.pos) % v.cols;
    (if up > 0 then Seq(up, 'A') else []) + ToColumn(col)
  }

  function WriteBytes(v: View): string {
    v.prompt + v.Shown() + (if NeedsNewline(v) then [LF, CR] else []) + PlaceBytes(v)
  }

  /** Everything one call of refreshMultiLine writes. */
  function Output(v: View, m: Memo, f: Flags): string {
    (if f.clean then CleanBytes(|v.prompt|, m, v.cols) else []) +
    (if f.clean || f.write then CLEAR_LINE else []) +
    (if f.write then WriteBytes(v) else [])
  }

  function NewMemo(v: View, f: Flags): Memo {
    Memo(v.pos, if f.write then PaintedRows(v) else Rows(v))
  }

  // ---- What the clearing half does ----

  function RowsAbove(g: Grid, row: int): Grid { map p | p in g && p.row < row :: g[p] }

  function WithoutRows(g: Grid, lo: int, hi: int): Grid {
    map p | p in g && !(lo <= p.row < hi) :: g[p]
  }

  lemma FeedClearLine(t: Screen)
    requires t.Valid() && t.mode == Ground
    ensures Feed(t, CLEAR_LINE)
         == t.(cells := WithoutRows(t.cells, t.row, t.row + 1), col := 0, pending := false)
  {
    hide Feed, Seq;
    FeedConcat(t, [CR], Seq(0, 'K'));
    FeedControls(t, 0);
    FeedEraseRight(t.(col := 0, pending := false));
  }

  lemma FeedClearUpStep(t: Screen)
    requires t.Valid() && t.mode == Ground
    ensures Feed(t, CLEAR_LINE + Seq(1, 'A'))
         == t.(cells := WithoutRows(t.cells, t.row, t.row + 1),
               row := Max(t.top, t.row - 1), col := 0, pending := false)
  {
    hide Feed, Seq, CLEAR_LINE;
    FeedConcat(t, CLEAR_LINE, Seq(1, 'A'));
    FeedClearLine(t);
    FeedControls(Feed(t, CLEAR_LINE), 1);
  }

  /** n times "clear this row and go up", stopping at the top of the display. */
  lemma {:induction false} FeedClearUp(t: Screen, n: nat)
    requires t.Valid() && t.mode == Ground
    ensures n > 0 ==>
            Feed(t, ClearUp(n)) == t.(cells := WithoutRows(t.cells, Max(t.top, t.row - n + 1), t.row + 1),
                                      row := Max(t.top, t.row - n), col := 0, pending := false)
    ensures n == 0 ==> Feed(t, ClearUp(n)) == t
  {
    if n > 0 {
      hide Feed, Seq, CLEAR_LINE;
      FeedClearUp(t, n - 1);
      var u := Feed(t, ClearUp(n - 1));
      FeedConcat(t, ClearUp(n - 1), CLEAR_LINE + Seq(1, 'A'));
      FeedClearUpStep(u);
      assert WithoutRows(u.cells, u.row, u.row + 1)
          == WithoutRows(t.cells, Max(t.top, t.row - n + 1), t.row + 1);
    }
  }

  lemma FeedClearAll(t: Screen, n: nat)
    requires t.Valid() && t.mode == Ground
    ensures Feed(t, ClearUp(n) + CLEAR_LINE)
         == t.(cells := WithoutRows(t.cells, Max(t.top, t.row - n), t.row + 1),
               row := Max(t.top, t.row - n), col := 0, pending := false)
  {
    hide Feed, CLEAR_LINE, ClearUp;
    FeedConcat(t, ClearUp(n), CLEAR_LINE);
    FeedClearUp(t, n);
    var u := Feed(t, ClearUp(n));
    FeedClearLine(u);
    assert WithoutRows(u.cells, u.row, u.row + 1)
        == WithoutRows(t.cells, Max(t.top, t.row - n), t.row + 1);
  }

  /** The lowest row the clearing walk visits. */
  function WalkStart(t: Screen, plen: nat, m: Memo): int {
    t.row + Max(0, m.oldrows - CursorLine(plen, m.oldpos, t.cols))
  }

  /** The memo is good enough for the next repaint: walking down to the last row
      and up again lands on `origin`, and meets every row that is not blank. */
  ghost predicate Ready(t: Screen, plen: nat, m: Memo, origin: int) {
    && t.Valid() && t.mode == Ground
    && Max(t.top, WalkStart(t, plen, m) - Max(0, m.oldrows - 1)) == origin
    && forall p :: p in t.cells ==> p.row <= WalkStart(t, plen, m)
  }

  /** A blank canvas from `origin` down, with the cursor at its first cell. */
  function Wiped(t: Screen, origin: int): Screen {
    t.(cells := RowsAbove(t.cells, origin), row := origin, col := 0, pending := false)
  }

  lemma CleanWipes(t: Screen, plen: nat, m: Memo, origin: int)
    requires Ready(t, plen, m, origin)
    ensures Feed(t, CleanBytes(plen, m, t.cols) + CLEAR_LINE) == Wiped(t, origin)
  {
    hide Feed, Seq, CursorLine, CLEAR_LINE, ClearUp;
    var down := Max(0, m.oldrows - CursorLine(plen, m.oldpos, t.cols));
    var go := if down > 0 then Seq(down, 'B') else [];
    var n := Max(0, m.oldrows - 1);
    assert CleanBytes(plen, m, t.cols) + CLEAR_LINE == go + (ClearUp(n) + CLEAR_LINE);
    FeedConcat(t, go, ClearUp(n) + CLEAR_LINE);
    FeedControls(t, down);
    var t1 := Feed(t, go);
    FeedClearAll(t1, n);
    assert WithoutRows(t.cells, origin, t.row + down + 1) == RowsAbove(t.cells, origin);
  }

  // ---- What the writing half does ----

  /** Where the cursor is left, counted from the first row. A prompt that fills
      its rows, with nothing typed, leaves it one row short (see PaintedRightIff). */
  function RestRow(v: View): nat {
    if v.text == [] && v.prompt != [] && |v.prompt| % v.cols == 0
    then (|v.prompt| - 1) / v.cols else (|v.prompt| + v.pos) / v.cols
  }

  function Painted(t: Screen, v: View, origin: int): Screen
    requires t.cols == v.cols
  {
    t.(cells := RowsAbove(t.cells, origin) + Layout(v.prompt + v.Shown(), v.cols, origin),
       row := origin + RestRow(v), col := (|v.prompt| + v.pos) % v.cols,
       pending := false, mode := Ground)
  }

  /** The screen as it should be: prompt and text row by row from `origin`, nothing else
      from there down, and the cursor on the cell of the edited position. */
  function Ideal(t: Screen, v: View, origin: int): Screen
    requires t.cols == v.cols
  {
    t.(cells := RowsAbove(t.cells, origin) + Layout(v.prompt + v.Shown(), v.cols, origin),
       row := origin + (|v.prompt| + v.pos) / v.cols, col := (|v.prompt| + v.pos) % v.cols,
       pending := false, mode := Ground)
  }

  /** The row arithmetic of the repaint, for every length, position and width. */
  lemma RowArithmetic(v: View)
    requires v.Valid()
    ensures var n := |v.prompt| + |v.text|;
            var p := |v.prompt| + v.pos;
            && Rows(v) == (if n == 0 then 0 else (n - 1) / v.cols + 1)
            && CursorLine(|v.prompt|, v.pos, v.cols) == p / v.cols + 1
            && (n > 0 && n % v.cols == 0 ==> (n - 1) / v.cols == n / v.cols - 1)
            && (n > 0 && n % v.cols != 0 ==> (n - 1) / v.cols == n / v.cols)
            && p / v.cols <= n / v.cols
            && (p < n ==> p / v.cols <= (n - 1) / v.cols)
  {
    var n, p := |v.prompt| + |v.text|, |v.prompt| + v.pos;
    CeilRows(n, v.cols);
    DivNextRow(p, v.cols);
    DivMono(p, n, v.cols);
    if n > 0 { DivStep(n - 1, v.cols); }
    if p < n { DivMono(p, n - 1, v.cols); }
  }

  lemma PlacesColumn(t: Screen, col: nat)
    requires t.Valid() && t.mode == Ground && col < t.cols
    ensures Feed(t, ToColumn(col)) == t.(col := col, pending := false)
  {
    hide Feed, Seq;
    FeedControls(t, 0);
    FeedConcat(t, [CR], Seq(col, 'C'));
    FeedControls(t.(col := 0, pending := false), col);
  }

  /** The upward move is by the rows between the last painted and the cursor's. */
  lemma UpwardRows(v: View)
    requires v.Valid()
    ensures Max(0, PaintedRows(v) - 1) - Max(0, PaintedRows(v) - CursorLine(|v.prompt|, v.pos, v.cols))
         == RestRow(v) >= 0
  {
    RowArithmetic(v);
    DivSmall(0, v.cols);
  }

  lemma PlacesCursor(t: Screen, v: View, origin: int)
    requires v.Valid() && t.Valid() && t.mode == Ground && t.cols == v.cols && t.top <= origin
    requires t.row == origin + Max(0, PaintedRows(v) - 1)
    ensures Feed(t, PlaceBytes(v))
         == t.(row := origin + RestRow(v), col := (|v.prompt| + v.pos) % v.cols, pending := false)
  {
    hide Feed, Seq, PaintedRows, CursorLine, RestRow, ToColumn;
    var up := PaintedRows(v) - CursorLine(|v.prompt|, v.pos, v.cols);
    var col := (|v.prompt| + v.pos) % v.cols;
    var go := if up > 0 then Seq(up, 'A') else [];
    FeedConcat(t, go, ToColumn(col));
    FeedControls(t, Max(0, up));
    UpwardRows(v);
    PlacesColumn(Feed(t, go), col);
  }

  lemma PrintableShown(v: View)
    requires v.Clean()
    ensures Printable(v.prompt + v.Shown())
  {
  }

  lemma TextThenNewline(t: Screen, v: View)
    requires v.Valid() && v.Clean() && t.AtLeft() && t.cols == v.cols
    ensures var s := v.prompt + v.Shown();
            var t' := Feed(t, s + if NeedsNewline(v) then [LF, CR] else []);
            t' == t.(cells := t.cells + Layout(s, t.cols, t.row),
                     row := t.row + Max(0, PaintedRows(v) - 1), col := t'.col, pending := t'.pending)
  {
    hide Feed, Layout, PaintedRows, NeedsNewline;
    var s := v.prompt + v.Shown();
    var nl := if NeedsNewline(v) then [LF, CR] else [];
    PrintableShown(v);
    FeedConcat(t, s, nl);
    FeedText(t, s);
    var t1 := Feed(t, s);
    FeedNewline(t1);
    LastPainted(v);
  }

  /** The row the text ends on, with the extra one when a newline is added. */
  lemma LastPainted(v: View)
    requires v.Valid()
    ensures var n := |v.prompt| + |v.text|;
            Max(0, PaintedRows(v) - 1)
            == (if n == 0 then 0 else (n - 1) / v.cols) + (if NeedsNewline(v) then 1 else 0)
            >= 0
  {
    RowArithmetic(v);
    DivSmall(0, v.cols);
    if |v.prompt| + |v.text| > 0 { DivMono(0, |v.prompt| + |v.text| - 1, v.cols); }
  }

  lemma FeedNewline(t: Screen)
    requires t.Valid() && t.mode == Ground
    ensures Feed(t, []) == t
    ensures Feed(t, [LF, CR]) == t.(row := t.row + 1, col := 0, pending := false)
  {
    hide Feed;
    assert [LF, CR] == [LF] + [CR];
    FeedConcat(t, [LF], [CR]);
    FeedPlain(t);
    FeedPlain(t.(row := t.row + 1, pending := false));
  }

  /** Writing onto a blank canvas paints the prompt and text and parks the cursor. */
  lemma WritePaints(t: Screen, v: View)
    requires v.Valid() && v.Clean() && t.AtLeft() && t.cols == v.cols
    requires forall p :: p in t.cells ==> p.row < t.row
    ensures Feed(t, WriteBytes(v)) == Painted(t, v, t.row)
  {
    hide Feed, Layout, PaintedRows, NeedsNewline, PlaceBytes, RestRow;
    var head := v.prompt + v.Shown() + if NeedsNewline(v) then [LF, CR] else [];
    FeedConcat(t, head, PlaceBytes(v));
    TextThenNewline(t, v);
    PlacesCursor(Feed(t, head), v, t.row);
    assert RowsAbove(t.cells, t.row) == t.cells;
  }

  // ---- Main results ----

  /** A full repaint shows exactly the prompt and text laid out row by row from
      `origin`, blanks everything else from there down, and leaves the rows above. */
  lemma RepaintPaints(t: Screen, v: View, m: Memo, origin: int)
    requires v.Valid() && v.Clean() && t.cols == v.cols && Ready(t, |v.prompt|, m, origin)
    ensures Feed(t, Output(v, m, ALL)) == Painted(t, v, origin)
  {
    hide Feed, CleanBytes, CLEAR_LINE, WriteBytes, Painted;
    var wipe := CleanBytes(|v.prompt|, m, v.cols) + CLEAR_LINE;
    assert Output(v, m, ALL) == wipe + WriteBytes(v);
    FeedConcat(t, wipe, WriteBytes(v));
    CleanWipes(t, |v.prompt|, m, origin);
    WritePaints(Wiped(t, origin), v);
    PaintedSame(Wiped(t, origin), t, v, origin);
  }

  /** A painting depends on what it is painted on only through the rows above. */
  lemma PaintedSame(t: Screen, u: Screen, v: View, origin: int)
    requires t.cols == u.cols == v.cols && t.top == u.top
    requires RowsAbove(t.cells, origin) == RowsAbove(u.cells, origin)
    ensures Painted(t, v, origin) == Painted(u, v, origin)
  {
    hide Layout, RestRow;
  }

  lemma PaintedAbove(t: Screen, v: View)
    requires t.cols == v.cols
    ensures RowsAbove(Painted(t, v, t.row).cells, t.row) == RowsAbove(t.cells, t.row)
  {
    hide Layout, RestRow;
    LayoutRows(v.prompt + v.Shown(), v.cols, t.row);
  }

  /** What a repaint leaves is what the next one needs, whatever is edited between. */
  lemma PaintedIsReady(t: Screen, v: View, origin: int)
    requires v.Valid() && t.cols == v.cols && t.top <= origin
    ensures Ready(Painted(t, v, origin), |v.prompt|, NewMemo(v, ALL), origin)
  {
    RowArithmetic(v);
    DivSmall(0, v.cols);
    LayoutRows(v.prompt + v.Shown(), v.cols, origin);
  }

  /** The grid painted is prompt and text, row-major from the origin: the cell at
      (row, col) holds byte (row - origin) * cols + col of the two, a star for each byte of
      a masked text, and the rest is blank. */
  lemma PaintedCells(t: Screen, v: View, origin: int, p: Pos)
    requires t.cols == v.cols
    ensures Painted(t, v, origin).cells == Ideal(t, v, origin).cells
    ensures p.row >= origin ==>
            var k, n := (p.row - origin) * v.cols + p.col, |v.prompt|;
            var g := Painted(t, v, origin).cells;
            && (p in g <==> p.col < v.cols && 0 <= k < n + |v.text|)
            && (p in g ==> g[p] == if k < n then v.prompt[k] else if v.mask then '*' else v.text[k - n])
    ensures p.row < origin ==>
            && (p in Painted(t, v, origin).cells <==> p in t.cells)
            && (p in t.cells ==> Painted(t, v, origin).cells[p] == t.cells[p])
  {
    hide Layout, RestRow;
    LayoutAt(v.prompt + v.Shown(), v.cols, origin, p);
    LayoutRows(v.prompt + v.Shown(), v.cols, origin);
  }

  /** What is written for a masked line tells nothing of its text but the length. */
  lemma MaskHides(u: View, v: View, m: Memo, f: Flags)
    requires u.mask && v.mask && u.prompt == v.prompt && u.cols == v.cols && u.pos == v.pos
    requires |u.text| == |v.text|
    ensures Output(u, m, f) == Output(v, m, f)
    ensures forall k :: 0 <= k < |u.Shown()| ==> u.Shown()[k] == '*'
  {
  }

  /** What is painted is right, cursor included, except when nothing is typed after a
      prompt that exactly fills its rows. */
  lemma PaintedRightIff(t: Screen, v: View, origin: int)
    requires v.Valid() && t.cols == v.cols
    ensures var filled := v.text == [] && v.prompt != [] && |v.prompt| % v.cols == 0;
            && (Painted(t, v, origin) == Ideal(t, v, origin) <==> !filled)
            && (filled ==> Painted(t, v, origin) == Ideal(t, v, origin).(row := Ideal(t, v, origin).row - 1))
  {
    hide Layout;
    RowArithmetic(v);
  }

  // ---- Whole runs ----

  /** The terminal when editing starts: the prompt has been printed, once, from the
      left edge of a canvas that was blank from the cursor's row down. */
  ghost predicate Canvas(t: Screen) {
    t.AtLeft() && forall p :: p in t.cells ==> p.row < t.row
  }

  /** Screen and memo after a run of repaints, the buffer, its length and the
      position being changed at will before each. */
  function Run(t: Screen, m: Memo, frames: seq<View>): (Screen, Memo)
    requires t.Valid()
    decreases |frames|
  {
    if frames == [] then (t, m)
    else Run(Feed(t, Output(frames[0], m, ALL)), NewMemo(frames[0], ALL), frames[1..])
  }

  predicate SameLine(frames: seq<View>, prompt: string, cols: Width) {
    forall i :: 0 <= i < |frames| ==>
      frames[i].prompt == prompt && frames[i].cols == cols && frames[i].Valid() && frames[i].Clean()
  }

  lemma PaintedKeepsAbove(t: Screen, v: View, w: View, origin: int)
    requires t.cols == v.cols == w.cols
    ensures Painted(Painted(t, v, origin), w, origin) == Painted(t, w, origin)
  {
    hide Layout, RestRow;
    LayoutRows(v.prompt + v.Shown(), v.cols, origin);
    PaintedSame(Painted(t, v, origin), t, w, origin);
  }

  lemma {:induction false} RunPaints(t: Screen, prompt: string, m: Memo, frames: seq<View>, origin: int)
    requires Ready(t, |prompt|, m, origin) && SameLine(frames, prompt, t.cols)
    ensures frames != [] ==>
            Run(t, m, frames).0 == Painted(t, frames[|frames| - 1], origin)
    decreases |frames|
  {
    hide Feed, Output, NewMemo, Painted, RestRow, Ready;
    if frames != [] {
      var v := frames[0];
      RepaintPaints(t, v, m, origin);
      ReadyBound(t, |prompt|, m, origin);
      PaintedIsReady(t, v, origin);
      RunPaints(Painted(t, v, origin), prompt, NewMemo(v, ALL), frames[1..], origin);
      if |frames| > 1 { PaintedKeepsAbove(t, v, frames[|frames| - 1], origin); }
    }
  }

  lemma ReadyBound(t: Screen, plen: nat, m: Memo, origin: int)
    requires Ready(t, plen, m, origin)
    ensures t.Valid() && t.top <= origin
  {
  }

  /** Just after the prompt, the memo (0, 0) fits the row the prompt ended on. */
  lemma StartIsReady(t: Screen, prompt: string)
    requires Canvas(t) && Printable(prompt)
    ensures Ready(Feed(t, prompt), |prompt|, Memo(0, 0), t.row + PromptRow(prompt, t.cols))
  {
    hide Feed, Layout;
    FeedText(t, prompt);
    LayoutRows(prompt, t.cols, t.row);
    DivNextRow(|prompt|, t.cols);
    DivMono(0, |prompt|, t.cols);
    DivSmall(0, t.cols);
  }

  /** The prompt alone is what a repaint of the empty line would show. */
  lemma StartPainted(t: Screen, prompt: string, mask: bool)
    requires Canvas(t) && Printable(prompt) && |prompt| < t.cols
    ensures var v := View(prompt, [], 0, t.cols, mask);
            && Feed(t, prompt) == Painted(t, v, t.row)
            && Ready(Feed(t, prompt), |prompt|, Memo(0, 0), t.row)
  {
    hide Feed, Layout;
    var v := View(prompt, [], 0, t.cols, mask);
    FeedText(t, prompt);
    StartIsReady(t, prompt);
    DivSmall(Max(0, |prompt| - 1), t.cols);
    DivSmall(|prompt|, t.cols);
    DivUnique(0, 0, t.cols);
    assert RowsAbove(t.cells, t.row) == t.cells;
    assert v.prompt + v.Shown() == prompt;
  }

  /** What a line is painted on: the screen its prompt was printed on, or, when the prompt
      is longer than a row, that with all but the prompt's last row left on it. */
  function StartCanvas(t: Screen, prompt: string): (c: Screen)
    requires t.Valid()
    ensures c.cols == t.cols && c.top == t.top
  {
    if |prompt| <= t.cols then t else Wiped(Feed(t, prompt), t.row + PromptRow(prompt, t.cols))
  }

  /** Behind a prompt of any length the first repaint finds what it needs, and behind one
      shorter than a row it would change nothing. */
  lemma StartRefreshes(t: Screen, prompt: string, mask: bool)
    requires Canvas(t) && Printable(prompt)
    ensures var c, u := StartCanvas(t, prompt), Feed(t, prompt);
            && c.Valid() && c.mode == Ground && u.mode == Ground
            && Ready(u, |prompt|, Memo(0, 0), c.row) && RowsAbove(u.cells, c.row) == RowsAbove(c.cells, c.row)
            && (|prompt| < t.cols ==> u == Painted(c, View(prompt, [], 0, t.cols, mask), c.row))
  {
    hide Feed, Layout, Ready;
    StartIsReady(t, prompt);
    FeedText(t, prompt);
    LayoutRows(prompt, t.cols, t.row);
    if |prompt| < t.cols { StartPainted(t, prompt, mask); }
    if |prompt| > t.cols { DivMono(0, |prompt| - 1, t.cols); }
  }

  /** The prompt alone, once it fills a row, leaves the cursor elsewhere. */
  lemma UnpaintedIsWrong(c: Screen, u: Screen, v: View, origin: int)
    requires c.cols == v.cols && v.Valid() && v.text == [] && |v.prompt| >= v.cols
    requires Ready(u, |v.prompt|, Memo(0, 0), origin)
    ensures u != Ideal(c, v, origin)
  {
    hide Layout;
    DivSmall(|v.prompt|, v.cols);
    DivMono(0, |v.prompt|, v.cols);
    DivMono(0, |v.prompt| + u.cols, u.cols);
    DivSmall(0, v.cols);
  }

  /** A text painted `d` rows too low reaches `d` rows too far. */
  lemma LowerIsWrong(t: Screen, u: Screen, v: View, origin: int, d: nat)
    requires t.cols == u.cols == v.cols && d > 0 && v.prompt != []
    ensures Painted(t, v, origin + d).cells != Ideal(u, v, origin).cells
  {
    hide Layout, RestRow;
    var s := v.prompt + v.Shown();
    var k := |s| - 1;
    var p := At(origin + d + k / v.cols, k % v.cols);
    assert k == (k / v.cols) * v.cols + k % v.cols;
    LayoutAt(s, v.cols, origin + d, p);
    LayoutRows(s, v.cols, origin);
    assert p in Painted(t, v, origin + d).cells;
    assert p !in Ideal(u, v, origin).cells;
  }

  /** The row the prompt ends on, counted from the one it starts on. */
  function PromptRow(prompt: string, cols: Width): (r: nat)
    ensures r == 0 <==> |prompt| <= cols
  {
    DivSmall(Max(0, |prompt| - 1), cols);
    DivMono(0, Max(0, |prompt| - 1), cols);
    if prompt == [] then 0 else (|prompt| - 1) / cols
  }

  lemma PaintedOverPrompt(t: Screen, v: View)
    requires Canvas(t) && Printable(v.prompt) && t.cols == v.cols
    ensures Painted(Feed(t, v.prompt), v, t.row) == Painted(t, v, t.row)
  {
    hide Feed, Painted, Layout;
    FeedText(t, v.prompt);
    LayoutRows(v.prompt, t.cols, t.row);
    PaintedSame(Feed(t, v.prompt), t, v, t.row);
  }

  /** The screen after a whole run that starts by printing the prompt. */
  function StartedRun(t: Screen, prompt: string, frames: seq<View>): Screen
    requires t.Valid()
  {
    Run(Feed(t, prompt), Memo(0, 0), frames).0
  }

  lemma SessionPaints(t: Screen, prompt: string, frames: seq<View>)
    requires Canvas(t) && Printable(prompt) && frames != [] && SameLine(frames, prompt, t.cols)
    ensures StartedRun(t, prompt, frames)
         == Painted(Feed(t, prompt), frames[|frames| - 1], t.row + PromptRow(prompt, t.cols))
  {
    hide Feed, Run, Painted, Ready, PromptRow;
    StartIsReady(t, prompt);
    RunPaints(Feed(t, prompt), prompt, Memo(0, 0), frames, t.row + PromptRow(prompt, t.cols));
  }

  /** What is painted, rightly, on the canvas of a prompt longer than a row is not right on
      the screen the edit began on: the prompt stands there twice. */
  lemma LoweredIsWrong(t: Screen, v: View)
    requires t.Valid() && t.cols == v.cols && |v.prompt| > v.cols
    ensures var c := StartCanvas(t, v.prompt);
            Ideal(c, v, c.row) != Ideal(t, v, t.row)
  {
    hide Feed, Layout;
    LowerIsWrong(StartCanvas(t, v.prompt), t, v, t.row, PromptRow(v.prompt, t.cols));
  }

  /** From the start of an edit every repaint of every run leaves the right screen
      exactly when the prompt is shorter than a row, or fills one and something is
      typed: a longer prompt is painted again below its first row, and after one that
      fills the row the cursor of the empty line is a row short. */
  lemma EveryRunRightIff(t: Screen, prompt: string, frames: seq<View>)
    requires Canvas(t) && Printable(prompt) && frames != [] && SameLine(frames, prompt, t.cols)
    ensures var last := frames[|frames| - 1];
            StartedRun(t, prompt, frames) == Ideal(t, last, t.row) <==>
            |prompt| < t.cols || (|prompt| == t.cols && last.text != [])
  {
    hide Feed, StartedRun, Painted, Ideal, PromptRow;
    var v := frames[|frames| - 1];
    SessionPaints(t, prompt, frames);
    if |prompt| <= t.cols {
      PaintedOverPrompt(t, v);
      PaintedRightIff(t, v, t.row);
      if prompt != [] { FillsRow(|prompt|, t.cols); }
    } else {
      LowerIsWrong(Feed(t, prompt), t, v, t.row, PromptRow(prompt, t.cols));
    }
  }

  lemma FillsRow(n: nat, cols: Width)
    requires 0 < n <= cols
    ensures n % cols == 0 <==> n == cols
  {
    DivSmall(n, cols);
    DivUnique(1, 0, cols);
  }

  lemma HideWipes(t: Screen, v: View, m: Memo, origin: int)
    requires v.Valid() && t.cols == v.cols && Ready(t, |v.prompt|, m, origin)
    ensures Feed(t, Output(v, m, Flags(true, false))) == Wiped(t, origin)
  {
    hide Feed, CleanBytes, CLEAR_LINE, WriteBytes, Ready;
    assert Output(v, m, Flags(true, false)) == CleanBytes(|v.prompt|, m, v.cols) + CLEAR_LINE;
    ReadyBound(t, |v.prompt|, m, origin);
    CleanWipes(t, |v.prompt|, m, origin);
  }

  /** Hiding wipes every row used and parks at the prompt's first cell; showing then
      brings back the same grid and cursor, and the memo of a full repaint. */
  lemma HideThenShow(t: Screen, v: View, m: Memo, origin: int)
    requires v.Valid() && v.Clean() && t.cols == v.cols && Ready(t, |v.prompt|, m, origin)
    requires t == Painted(t, v, origin)
    ensures var hidden := Feed(t, Output(v, m, Flags(true, false)));
            && hidden == Wiped(t, origin)
            && Feed(hidden, Output(v, NewMemo(v, Flags(true, false)), Flags(false, true))) == t
            && NewMemo(v, Flags(false, true)) == NewMemo(v, ALL)
  {
    hide Feed, Output, Painted;
    HideWipes(t, v, m, origin);
    ShowPaints(Wiped(t, origin), v, NewMemo(v, Flags(true, false)));
    PaintedSame(Wiped(t, origin), t, v, origin);
  }

  /** A repaint of a line that is hidden, not shown again first, begins where the line was
      exactly when that is the top row of the display or the cursor was on the line's
      first row; else it wipes rows above. */
  lemma HiddenRepaintIff(t: Screen, v: View, origin: int)
    requires v.Valid() && t.cols == v.cols && t.Valid() && t.mode == Ground && t.top <= origin
    ensures Ready(Wiped(t, origin), |v.prompt|, NewMemo(v, Flags(true, false)), origin) <==>
            origin == t.top || |v.prompt| + v.pos < v.cols || (|v.prompt| + v.pos == v.cols && v.pos == |v.text|)
  {
    HiddenWalk(v);
    hide Rows, CursorLine;
  }

  /** How far the walk up exceeds the walk down. */
  lemma HiddenWalk(v: View)
    requires v.Valid()
    ensures var p, rows, line := |v.prompt| + v.pos, Rows(v), CursorLine(|v.prompt|, v.pos, v.cols);
            var excess := Max(0, rows - 1) - Max(0, rows - line);
            && excess >= 0
            && (excess == 0 <==> p < v.cols || (p == v.cols && v.pos == |v.text|))
  {
    var n, p := |v.prompt| + |v.text|, |v.prompt| + v.pos;
    RowArithmetic(v);
    DivSmall(p, v.cols);
    DivMono(0, p, v.cols);
    DivSmall(0, v.cols);
    if n > 0 {
      DivSmall(n - 1, v.cols);
      DivMono(0, n - 1, v.cols);
    }
  }

  /** Showing paints wherever the cursor stands, whatever was printed meanwhile. */
  lemma ShowPaints(t: Screen, v: View, m: Memo)
    requires v.Valid() && v.Clean() && t.Valid() && t.mode == Ground && t.cols == v.cols
    requires forall p :: p in t.cells ==> p.row <= t.row
    ensures Feed(t, Output(v, m, Flags(false, true))) == Painted(t, v, t.row)
  {
    hide Feed, CLEAR_LINE, WriteBytes, Painted;
    assert Output(v, m, Flags(false, true)) == CLEAR_LINE + WriteBytes(v);
    FeedConcat(t, CLEAR_LINE, WriteBytes(v));
    FeedClearLine(t);
    WritePaints(Feed(t, CLEAR_LINE), v);
    PaintedSame(Feed(t, CLEAR_LINE), t, v, t.row);
  }

  const CLEAR_SCREEN: string := Seq0('H') + Seq(2, 'J')

  /** A control sequence without argument. */
  function Seq0(final: char): string { [ESC, '[', final] }

  /** Clearing the display does not reset the memo; the clamp at the top of the
      display makes the next repaint land on the top row all the same. */
  lemma ClearScreenIsReady(t: Screen, plen: nat, m: Memo)
    requires t.Valid() && t.mode == Ground
    ensures Feed(t, CLEAR_SCREEN) == Wiped(t, t.top)
    ensures Ready(Wiped(t, t.top), plen, m, t.top)
  {
    hide Feed, Decimal.Print;
    FeedConcat(t, Seq0('H'), Seq(2, 'J'));
    var t1 := t.(mode := Csi(0));
    assert Feed(t, Seq0('H')) == Home(t1) by {
      assert Seq0('H') == [ESC] + (['['] + ['H']);
      FeedConcat(t, [ESC], ['['] + ['H']);
      FeedOne(t, ESC);
      FeedConcat(t.(mode := Escape), ['['], ['H']);
      FeedOne(t.(mode := Escape), '[');
      FeedOne(t1, 'H');
    }
    FeedSeq(Home(t1), 2, 'J');
    DivNextRow(plen + m.oldpos, t.cols);
  }
}

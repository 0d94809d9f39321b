/** The single-line repaint: a window of the text scrolled so that the cursor is
    in view, and the one-byte shortcut taken when typing at the end. */
module SingleLine {
  import opened Arith
  import opened Ascii
  import opened Terminal
  import opened MultiLine

  /** Columns the text is scrolled left by. */
  function Skip(v: View): (k: nat)
    requires v.Valid() && |v.prompt| < v.cols
    ensures k <= v.pos
  {
    Max(0, |v.prompt| + v.pos - v.cols + 1)
  }

  function Window(v: View): (w: string)
    requires v.Valid() && |v.prompt| < v.cols
    ensures |v.prompt| + |w| <= v.cols
  {
    v.Shown()[Skip(v)..Skip(v) + Min(|v.text| - Skip(v), v.cols - |v.prompt|)]
  }

  function CursorColumn(v: View): (c: nat)
    requires v.Valid() && |v.prompt| < v.cols
    ensures c < v.cols
  {
    |v.prompt| + v.pos - Skip(v)
  }

  /** Everything one call of refreshSingleLine writes. */
  function RowBytes(v: View, write: bool): string
    requires v.Valid() && |v.prompt| < v.cols
  {
    [CR] + (if write then v.prompt + Window(v) else []) + Seq(0, 'K') +
    (if write then [CR] + Seq(CursorColumn(v), 'C') else [])
  }

  function OffRow(g: Grid, row: int): Grid { map p | p in g && p.row != row :: g[p] }

  /** A row less its last column. */
  function Kept(s: string, cols: Width): (k: string)
    ensures |k| <= |s|
  {
    if |s| == cols then s[..|s| - 1] else s
  }

  /** The column a motion of `c` columns from the left edge ends on. */
  function MovedTo(c: nat, cols: Width): (k: nat)
    requires c < cols
    ensures k < cols
  {
    if c == 0 then Min(cols - 1, 1) else c
  }

  /** The row as it should be: prompt and window, nothing else, cursor in place. */
  function Ideal(t: Screen, v: View): Screen
    requires v.Valid() && |v.prompt| < v.cols == t.cols
  {
    t.(cells := OffRow(t.cells, t.row) + Layout(v.prompt + Window(v), t.cols, t.row),
       col := CursorColumn(v), pending := false, mode := Ground)
  }

  /** The row as it is. The erase that follows a full row takes its last cell, and
      a cursor motion of zero columns moves by one. */
  function Actual(t: Screen, v: View): Screen
    requires v.Valid() && |v.prompt| < v.cols == t.cols
  {
    var c := CursorColumn(v);
    t.(cells := OffRow(t.cells, t.row) + Layout(Kept(v.prompt + Window(v), t.cols), t.cols, t.row),
       col := MovedTo(c, t.cols), pending := false, mode := Ground)
  }

  lemma OneRow(s: string, cols: Width, row: int)
    requires |s| <= cols
    ensures forall p :: p in Layout(s, cols, row) <==> p.row == row && p.col < |s|
    ensures forall p :: p in Layout(s, cols, row) ==> Layout(s, cols, row)[p] == s[p.col]
  {
    hide Layout;
    LayoutRows(s, cols, row);
    DivSmall(Max(0, |s| - 1), cols);
    forall p: Pos
      ensures p in Layout(s, cols, row) <==> p.row == row && p.col < |s|
      ensures p in Layout(s, cols, row) ==> Layout(s, cols, row)[p] == s[p.col]
    {
      LayoutAt(s, cols, row, p);
    }
  }

  /** Erasing from the column after a row just printed leaves the row, but for its
      last column when the row is full. */
  lemma ErasedRow(g: Grid, s: string, cols: Width, row: int)
    requires |s| <= cols
    ensures (map p | p in g + Layout(s, cols, row) &&
                     !(p.row == row && |Kept(s, cols)| <= p.col) :: (g + Layout(s, cols, row))[p])
         == OffRow(g, row) + Layout(Kept(s, cols), cols, row)
  {
    hide Layout;
    OneRow(s, cols, row);
    OneRow(Kept(s, cols), cols, row);
  }

  lemma RowThenErase(t: Screen, s: string)
    requires t.AtLeft() && Printable(s) && |s| <= t.cols
    ensures var t' := Feed(Feed(t, s), Seq(0, 'K'));
            t' == t.(cells := OffRow(t.cells, t.row) + Layout(Kept(s, t.cols), t.cols, t.row),
                     col := t'.col, pending := t'.pending)
  {
    hide Feed, Layout, Seq, OffRow;
    FeedText(t, s);
    DivSmall(Max(0, |s| - 1), t.cols);
    DivSmall(|s|, t.cols);
    DivUnique(1, 0, t.cols);
    FeedEraseRight(Feed(t, s));
    ErasedRow(t.cells, s, t.cols, t.row);
  }

  lemma WindowPrintable(v: View)
    requires v.Valid() && v.Clean() && |v.prompt| < v.cols
    ensures Printable(v.prompt + Window(v))
  {
    PrintableShown(v);
    assert Printable(v.Shown());
  }

  lemma FeedInFour(t: Screen, a: string, b: string, c: string, d: string)
    requires t.Valid()
    ensures Feed(t, a + b + c + d) == Feed(Feed(Feed(Feed(t, a), b), c), d)
  {
    hide Feed;
    FeedConcat(t, a + b + c, d);
    FeedConcat(t, a + b, c);
    FeedConcat(t, a, b);
  }

  lemma PlacesRowColumn(t: Screen, c: nat)
    requires t.Valid() && t.mode == Ground && c < t.cols
    ensures Feed(t, [CR] + Seq(c, 'C'))
         == t.(col := MovedTo(c, t.cols), pending := false)
  {
    hide Feed, Seq;
    FeedConcat(t, [CR], Seq(c, 'C'));
    FeedPlain(t);
    FeedControls(t.(col := 0, pending := false), c);
  }

  /** A repaint depends on what was there before only through the other rows. */
  lemma RepaintRow(t: Screen, v: View)
    requires v.Valid() && v.Clean() && |v.prompt| < v.cols == t.cols
    requires t.Valid() && t.mode == Ground
    ensures Feed(t, RowBytes(v, true)) == Actual(t, v)
  {
    hide Feed, Layout, Seq, Window, CursorColumn, Kept, OffRow;
    var s, c := v.prompt + Window(v), CursorColumn(v);
    var t1 := t.(col := 0, pending := false);
    WindowPrintable(v);
    assert RowBytes(v, true) == [CR] + s + Seq(0, 'K') + ([CR] + Seq(c, 'C'));
    FeedInFour(t, [CR], s, Seq(0, 'K'), [CR] + Seq(c, 'C'));
    FeedPlain(t);
    RowThenErase(t1, s);
    PlacesRowColumn(Feed(Feed(t1, s), Seq(0, 'K')), c);
  }

  /** The window holds the cursor: the character under it is the one edited. */
  lemma WindowShowsCursor(v: View)
    requires v.Valid() && |v.prompt| < v.cols
    ensures v.pos < |v.text| ==>
              CursorColumn(v) < |v.prompt| + |Window(v)| &&
              (v.prompt + Window(v))[CursorColumn(v)] == v.Shown()[v.pos]
    ensures v.pos == |v.text| ==> CursorColumn(v) == |v.prompt| + |Window(v)|
  {
  }

  /** The text is scrolled by the least that brings the cursor onto the row. */
  predicate IsScroll(v: View, k: nat) {
    && k <= v.pos && |v.prompt| + v.pos - k < v.cols
    && (k == 0 || |v.prompt| + v.pos - k == v.cols - 1)
  }

  /** Under that scroll, which exists and is the only one, each column behind the prompt
      that a byte of the text reaches is in the window, and no other. */
  lemma WindowIsScroll(v: View, k: nat)
    requires v.Valid() && |v.prompt| < v.cols
    ensures exists j: nat :: IsScroll(v, j)
    ensures IsScroll(v, k) ==>
              && CursorColumn(v) == |v.prompt| + v.pos - k
              && |Window(v)| == Min(|v.text| - k, v.cols - |v.prompt|)
              && forall i :: 0 <= i < |Window(v)| ==> Window(v)[i] == if v.mask then '*' else v.text[k + i]
  {
    assert IsScroll(v, Skip(v));
  }

  /** The row as it should be, column by column: prompt, then the scrolled text, a star for
      each byte of a masked one, then blanks; the cursor on the edited position. */
  lemma IdealRow(t: Screen, v: View, k: nat, p: Pos)
    requires v.Valid() && |v.prompt| < v.cols == t.cols && IsScroll(v, k)
    ensures var u, n := Ideal(t, v), |v.prompt|;
            && (u.row, u.col, u.top) == (t.row, n + v.pos - k, t.top)
            && (p.row != t.row ==> (p in u.cells <==> p in t.cells) && (p in t.cells ==> u.cells[p] == t.cells[p]))
            && (p.row == t.row ==>
                  && (p in u.cells <==> p.col < v.cols && p.col < n + |v.text| - k)
                  && (p in u.cells ==>
                        u.cells[p] == if p.col < n then v.prompt[p.col] else if v.mask then '*'
                                      else v.text[k + p.col - n]))
  {
    hide Layout, Window;
    WindowIsScroll(v, k);
    OneRow(v.prompt + Window(v), t.cols, t.row);
  }

  /** The row as it is lacks the last column, when text reaches it, and has the cursor on
      column 1 for 0; nothing else is different. */
  lemma ActualRow(t: Screen, v: View, k: nat, p: Pos)
    requires v.Valid() && |v.prompt| < v.cols == t.cols && IsScroll(v, k)
    ensures var a, u := Actual(t, v), Ideal(t, v);
            && a.(cells := u.cells, col := u.col) == u
            && a.col == (if |v.prompt| + v.pos - k == 0 && v.cols > 1 then 1 else |v.prompt| + v.pos - k)
            && (p in a.cells <==> p in u.cells && !(p.row == t.row && p.col == v.cols - 1
                                                    && |v.prompt| + |v.text| - k >= v.cols))
            && (p in a.cells ==> a.cells[p] == u.cells[p])
  {
    hide Layout, Window;
    WindowIsScroll(v, k);
    var s := v.prompt + Window(v);
    OneRow(s, t.cols, t.row);
    OneRow(Kept(s, t.cols), t.cols, t.row);
  }

  /** What is written for a masked line tells nothing of its text but the length. */
  lemma MaskHidesRow(u: View, v: View, write: bool, c: char, d: char)
    requires u.Valid() && v.Valid() && |u.prompt| < u.cols
    requires u.mask && v.mask && u.prompt == v.prompt && u.cols == v.cols && u.pos == v.pos
    requires |u.text| == |v.text|
    ensures RowBytes(u, write) == RowBytes(v, write) && Echo(u, c) == Echo(v, d) == '*'
  {
    assert u.Shown() == v.Shown();
    hide Seq, Stars, MultiLine.View.Shown;
    assert Window(u) == Window(v) && CursorColumn(u) == CursorColumn(v);
  }

  /** The row is filled to its last column when the text reaches it, unless the cursor
      behind the text needs that column. */
  lemma WindowFillsIff(v: View)
    requires v.Valid() && |v.prompt| < v.cols
    ensures |v.prompt + Window(v)| == v.cols <==> |v.prompt| + |v.text| >= v.cols && v.pos < |v.text|
    ensures |v.prompt + Window(v)| <= v.cols
  {
  }

  lemma CursorMissesIff(v: View)
    requires v.Valid() && |v.prompt| < v.cols
    ensures MovedTo(CursorColumn(v), v.cols) == CursorColumn(v) <==> |v.prompt| + v.pos > 0 || v.cols == 1
  {
  }

  /** Dropping the last column of a row changes it exactly when the row is full. */
  lemma KeptIff(g: Grid, s: string, cols: Width, row: int)
    requires |s| <= cols
    ensures OffRow(g, row) + Layout(Kept(s, cols), cols, row) == OffRow(g, row) + Layout(s, cols, row)
            <==> |s| < cols
  {
    hide Layout;
    OneRow(s, cols, row);
    OneRow(Kept(s, cols), cols, row);
    if |s| == cols {
      assert At(row, |s| - 1) in OffRow(g, row) + Layout(s, cols, row);
      assert At(row, |s| - 1) !in OffRow(g, row) + Layout(Kept(s, cols), cols, row);
    }
  }

  /** The repaint is right exactly when the row is not filled to its last column
      and the cursor is not asked to stay on column 0 of a wider terminal. */
  lemma RepaintRightIff(t: Screen, v: View)
    requires v.Valid() && |v.prompt| < v.cols == t.cols
    ensures Actual(t, v) == Ideal(t, v) <==>
            (|v.prompt| + |v.text| < v.cols || v.pos == |v.text|) &&
            (|v.prompt| + v.pos > 0 || v.cols == 1)
  {
    hide Layout, Window, CursorColumn, Kept, OffRow;
    WindowFillsIff(v);
    CursorMissesIff(v);
    KeptIff(t.cells, v.prompt + Window(v), t.cols, t.row);
  }

  lemma ActualKeepsOthers(t: Screen, v: View)
    requires v.Valid() && |v.prompt| < v.cols == t.cols && t.Valid()
    ensures Actual(t, v).Valid()
    ensures OffRow(Actual(t, v).cells, t.row) == OffRow(t.cells, t.row)
    ensures Around(t, Actual(t, v))
  {
    hide Layout, Window, CursorColumn;
    OneRow(Kept(v.prompt + Window(v), t.cols), t.cols, t.row);
  }

  /** The prompt alone is the row of the empty line as it should be. */
  lemma StartIdeal(t: Screen, prompt: string, mask: bool)
    requires Canvas(t) && Printable(prompt) && |prompt| < t.cols
    ensures Feed(t, prompt) == Ideal(t, View(prompt, [], 0, t.cols, mask))
  {
    hide Feed, Layout;
    var v := View(prompt, [], 0, t.cols, mask);
    FeedText(t, prompt);
    DivSmall(Max(0, |prompt| - 1), t.cols);
    DivSmall(|prompt|, t.cols);
    if prompt != [] { DivUnique(0, |prompt|, t.cols); }
    assert OffRow(t.cells, t.row) == t.cells;
    assert v.prompt + Window(v) == prompt;
  }

  /** After any number of repaints the row shows the last one alone. */
  lemma RepaintForgets(t: Screen, u: View, v: View)
    requires u.Valid() && |u.prompt| < u.cols == t.cols
    requires v.Valid() && |v.prompt| < v.cols == t.cols
    ensures Actual(Actual(t, u), v) == Actual(t, v)
    ensures Actual(Ideal(t, u), v) == Actual(t, v)
  {
    hide Layout, Window;
    var s := u.prompt + Window(u);
    OneRow(s, t.cols, t.row);
    OneRow(Kept(s, t.cols), t.cols, t.row);
    assert OffRow(Actual(t, u).cells, t.row) == OffRow(t.cells, t.row);
    assert OffRow(Ideal(t, u).cells, t.row) == OffRow(t.cells, t.row);
  }

  /** Hiding empties the row; showing then paints it as a repaint would. */
  lemma HideThenShowRow(t: Screen, v: View)
    requires v.Valid() && v.Clean() && |v.prompt| < v.cols == t.cols
    requires t.Valid() && t.mode == Ground
    ensures var hidden := Feed(t, RowBytes(v, false));
            && hidden == t.(cells := OffRow(t.cells, t.row), col := 0, pending := false)
            && Feed(hidden, RowBytes(v, true)) == Actual(t, v)
  {
    hide Feed, Layout, Seq, Window, CursorColumn, Kept;
    var t1 := t.(col := 0, pending := false);
    assert RowBytes(v, false) == [CR] + Seq(0, 'K');
    FeedConcat(t, [CR], Seq(0, 'K'));
    FeedPlain(t);
    FeedEraseRight(t1);
    ErasedWhole(t.cells, t.row);
    hide OffRow;
    RepaintRow(Feed(t1, Seq(0, 'K')), v);
  }

  /** Erasing a row from column 0. */
  lemma ErasedWhole(g: Grid, row: int)
    ensures (map p | p in g && !(p.row == row && 0 <= p.col) :: g[p]) == OffRow(g, row)
    ensures OffRow(OffRow(g, row), row) == OffRow(g, row)
  {
  }

  // ---- Typing at the end ----

  function Typed(v: View, c: char): View { v.(text := v.text + [c], pos := v.pos + 1) }

  /** The byte the shortcut writes. */
  function Echo(v: View, c: char): char { if v.mask then '*' else c }

  lemma TypedWindow(v: View, c: char)
    requires v.Valid() && v.pos == |v.text| && |v.prompt| + |v.text| + 1 < v.cols
    ensures v.prompt + Window(Typed(v, c)) == v.prompt + Window(v) + [Echo(v, c)]
    ensures Window(v) == v.Shown() && CursorColumn(v) == |v.prompt| + |v.text|
    ensures CursorColumn(Typed(v, c)) == |v.prompt| + |v.text| + 1
  {
  }

  /** One more glyph on a row: it extends the row's text only when written next to it. */
  lemma GlyphOnRow(g: Grid, s: string, d: char, col: nat, cols: Width, row: int)
    requires |s| + 1 < cols
    ensures var g' := OffRow(g, row) + Layout(s, cols, row);
            g'[At(row, col) := d] == OffRow(g', row) + Layout(s + [d], cols, row) <==> col == |s|
  {
    hide Layout;
    OneRow(s, cols, row);
    OneRow(s + [d], cols, row);
    var g' := OffRow(g, row) + Layout(s, cols, row);
    var fast, full := g'[At(row, col) := d], OffRow(g', row) + Layout(s + [d], cols, row);
    if col > |s| {
      assert At(row, col) in fast && At(row, col) !in full;
    } else if col < |s| {
      assert At(row, |s|) !in fast && At(row, |s|) in full;
    }
  }

  /** Where the cursor stands when the shortcut is taken decides where it writes. */
  lemma EchoWrites(t: Screen, u: Screen, v: View, c: char)
    requires v.Valid() && v.Clean() && Glyph(c) && v.pos == |v.text|
    requires |v.prompt| + |v.text| + 1 < v.cols == t.cols
    requires u.Valid() && u == Ideal(t, v).(col := u.col)
    ensures Feed(u, [Echo(v, c)]) == Actual(u, Typed(v, c)) <==> u.col == CursorColumn(v)
  {
    hide Feed, Layout, Window, OffRow, CursorColumn;
    var s := v.prompt + Window(v);
    TypedWindow(v, c);
    FeedOne(u, Echo(v, c));
    StepGlyph(u, Echo(v, c));
    GlyphOnRow(t.cells, s, Echo(v, c), u.col, t.cols, t.row);
    assert Kept(s + [Echo(v, c)], t.cols) == s + [Echo(v, c)];
  }

  /** On a row that is right, writing the one byte gives the very screen, cursor
      included, that repainting the longer text would. */
  lemma ShortcutIsRepaint(t: Screen, v: View, c: char)
    requires v.Valid() && v.Clean() && Glyph(c) && v.pos == |v.text|
    requires |v.prompt| + |v.text| + 1 < v.cols == t.cols
    requires t.Valid() && t == Ideal(t, v)
    ensures Feed(t, [Echo(v, c)]) == Feed(t, RowBytes(Typed(v, c), true))
    ensures Feed(t, [Echo(v, c)]) == Ideal(t, Typed(v, c))
  {
    hide Feed, RowBytes, Actual, Ideal, Window, CursorColumn;
    EchoWrites(t, t, v, c);
    IdealColumn(t, v);
    RepaintRow(t, Typed(v, c));
    RepaintRightIff(t, Typed(v, c));
  }

  lemma IdealColumn(t: Screen, v: View)
    requires v.Valid() && |v.prompt| < v.cols == t.cols
    ensures Ideal(t, v).col == CursorColumn(v) && Ideal(t, v).cols == t.cols
    ensures Ideal(t, v).mode == Ground
  {
  }

  /** Straight after a repaint the shortcut agrees with a further repaint exactly
      when something, prompt or text, is on the row already. */
  lemma ShortcutAfterRepaintIff(t: Screen, v: View, c: char)
    requires v.Valid() && v.Clean() && Glyph(c) && v.pos == |v.text|
    requires |v.prompt| + |v.text| + 1 < v.cols == t.cols
    requires t.Valid() && t == Actual(t, v)
    ensures Feed(t, [Echo(v, c)]) == Feed(t, RowBytes(Typed(v, c), true))
            <==> |v.prompt| + |v.text| > 0
  {
    hide Feed, RowBytes, Window, CursorColumn, Actual, Ideal;
    ShortRow(t, v);
    EchoWrites(t, t, v, c);
    RepaintRow(t, Typed(v, c));
  }

  /** A short row after a repaint is right but for the column of the cursor. */
  lemma ShortRow(t: Screen, v: View)
    requires v.Valid() && v.pos == |v.text| && |v.prompt| + |v.text| + 1 < v.cols == t.cols
    ensures Actual(t, v) == Ideal(t, v).(col := Actual(t, v).col) && Actual(t, v).mode == Ground
    ensures Actual(t, v).col == CursorColumn(v) <==> |v.prompt| + |v.text| > 0
  {
    hide Layout, OffRow, Window, CursorColumn;
    TypedWindow(v, ' ');
    CursorMissesIff(v);
    WindowFillsIff(v);
  }

  // ---- The row over a whole session ----

  /** How the row stands: the empty line as printed at the start, the line as a repaint
      leaves it, or text that was typed one column too far to the right. */
  datatype Row = Unpainted | Repainted | Shifted

  /** The row of screen `u`, on canvas `t`, stands so. */
  predicate RowIs(t: Screen, u: Screen, v: View, row: Row)
    requires v.Valid() && |v.prompt| < v.cols == t.cols
  {
    match row
    case Unpainted => v.text == [] && u == Ideal(t, v)
    case Repainted => u == Actual(t, v)
    case Shifted => v.prompt == [] && v.text != [] && v.pos == |v.text| < v.cols && u == Displaced(t, v)
  }

  /** A row of text that begins in column 1. */
  function Indented(s: string, row: int): Grid {
    map k: nat | 1 <= k <= |s| :: At(row, k) := s[k - 1]
  }

  /** The text, and the cursor behind it, one column too far to the right. */
  function Displaced(t: Screen, v: View): Screen
    requires t.cols == v.cols
  {
    t.(cells := OffRow(t.cells, t.row) + Indented(v.Shown(), t.row),
       col := Min(t.cols - 1, |v.text| + 1), pending := |v.text| + 1 == t.cols, mode := Ground)
  }

  /** The screen is the canvas but for the cursor's row. */
  predicate Around(t: Screen, u: Screen) {
    && u.Valid() && u.cols == t.cols && u.top == t.top && u.mode == Ground && u.row == t.row
    && OffRow(u.cells, t.row) == OffRow(t.cells, t.row)
  }

  lemma RowAround(t: Screen, u: Screen, v: View, row: Row)
    requires v.Valid() && |v.prompt| < v.cols == t.cols && t.Valid() && RowIs(t, u, v, row)
    ensures Around(t, u)
  {
    hide Actual, Ideal, Displaced, Around, Window, CursorColumn;
    ActualKeepsOthers(t, v);
    IdealKeepsOthers(t, v);
    if row.Shifted? { DisplacedAround(t, v); }
  }

  lemma DisplacedAround(t: Screen, v: View)
    requires |v.text| < v.cols == t.cols && t.Valid()
    ensures Around(t, Displaced(t, v)) && At(t.row, 0) !in Displaced(t, v).cells
  {
  }

  /** What the shortcut makes of the row; `bare` tells that nothing was on it. */
  function EchoRow(row: Row, bare: bool): Row {
    if row.Shifted? || (row.Repainted? && bare) then Shifted else Repainted
  }

  lemma EchoOnIdeal(t: Screen, u: Screen, v: View, c: char)
    requires v.Valid() && v.Clean() && Glyph(c) && v.pos == |v.text|
    requires |v.prompt| + |v.text| + 1 < v.cols == t.cols
    requires t.Valid() && u == Ideal(t, v)
    ensures Feed(u, [Echo(v, c)]) == Actual(t, Typed(v, c))
  {
    hide Feed, Actual, Ideal, Window, CursorColumn;
    IdealKeepsOthers(t, v);
    EchoWrites(t, u, v, c);
    RepaintForgets(t, v, Typed(v, c));
  }

  lemma IdealKeepsOthers(t: Screen, v: View)
    requires v.Valid() && |v.prompt| < v.cols == t.cols && t.Valid()
    ensures Around(t, Ideal(t, v)) && Ideal(t, v).col == CursorColumn(v)
  {
    hide Layout, Window, CursorColumn;
    OneRow(v.prompt + Window(v), t.cols, t.row);
  }

  lemma IndentedGrows(g: Grid, s: string, d: char, row: int)
    ensures (OffRow(g, row) + Indented(s, row))[At(row, |s| + 1) := d] == OffRow(g, row) + Indented(s + [d], row)
  {
    IndentedAt(s, row);
    IndentedAt(s + [d], row);
    hide Indented;
    var a, b := (OffRow(g, row) + Indented(s, row))[At(row, |s| + 1) := d], OffRow(g, row) + Indented(s + [d], row);
    forall p: Pos
      ensures p in a <==> p in b
      ensures p in a ==> a[p] == b[p]
    {
      if p.row == row && 1 <= p.col <= |s| { assert (s + [d])[p.col - 1] == s[p.col - 1]; }
    }
  }

  lemma IndentedAt(s: string, row: int)
    ensures forall p :: p in Indented(s, row) <==> p.row == row && 1 <= p.col <= |s|
    ensures forall p :: p in Indented(s, row) ==> Indented(s, row)[p] == s[p.col - 1]
  {
    forall p: Pos | p.row == row && 1 <= p.col <= |s|
      ensures p in Indented(s, row)
    {
      assert At(row, p.col) in Indented(s, row);
    }
  }

  /** A glyph written behind displaced text is displaced itself. */
  lemma EchoOnDisplaced(t: Screen, u: Screen, v: View, c: char)
    requires v.Valid() && v.Clean() && Glyph(c) && v.pos == |v.text| && |v.text| + 1 < v.cols == t.cols
    requires t.Valid() && u == Displaced(t, v)
    ensures Feed(u, [Echo(v, c)]) == Displaced(t, Typed(v, c))
  {
    hide Feed, OffRow, Indented;
    DisplacedAround(t, v);
    FeedOne(u, Echo(v, c));
    StepGlyph(u, Echo(v, c));
    IndentedGrows(t.cells, v.Shown(), Echo(v, c), t.row);
    assert Typed(v, c).Shown() == v.Shown() + [Echo(v, c)];
  }

  /** A repaint of nothing leaves the cursor one column too far to the right. */
  lemma BareIsDisplaced(t: Screen, v: View)
    requires v.Valid() && v.prompt == [] && v.text == [] && 1 < v.cols == t.cols && t.Valid()
    ensures Actual(t, v) == Displaced(t, v)
  {
    hide Layout;
    OneRow([], t.cols, t.row);
    assert v.prompt + Window(v) == [] && v.Shown() == [];
    assert Indented([], t.row) == map[];
  }

  /** The shortcut takes the row from one standing to the next. */
  lemma EchoSteps(t: Screen, u: Screen, v: View, c: char, row: Row)
    requires v.Valid() && v.Clean() && Glyph(c) && v.pos == |v.text|
    requires |v.prompt| + |v.text| + 1 < v.cols == t.cols
    requires t.Valid() && u.Valid() && RowIs(t, u, v, row)
    ensures RowIs(t, Feed(u, [Echo(v, c)]), Typed(v, c), EchoRow(row, v.prompt == [] && v.text == []))
  {
    hide Feed, Actual, Ideal, Displaced;
    match row {
      case Unpainted => EchoOnIdeal(t, u, v, c);
      case Repainted =>
        if v.prompt == [] && v.text == [] {
          BareIsDisplaced(t, v);
          EchoOnDisplaced(t, u, v, c);
        } else {
          RepaintRightIff(t, v);
          EchoOnIdeal(t, u, v, c);
        }
      case Shifted => EchoOnDisplaced(t, u, v, c);
    }
  }

  /** Displaced text is not where it should be, nor where a repaint puts it. */
  lemma DisplacedIsWrong(t: Screen, v: View)
    requires v.Valid() && v.prompt == [] && v.text != [] && |v.text| < v.cols == t.cols && t.Valid()
    ensures Displaced(t, v) != Ideal(t, v) && Displaced(t, v) != Actual(t, v)
  {
    hide Layout, Displaced;
    var s := v.prompt + Window(v);
    DisplacedAround(t, v);
    OneRow(s, t.cols, t.row);
    OneRow(Kept(s, t.cols), t.cols, t.row);
    WindowFillsIff(v);
    assert At(t.row, 0) in Ideal(t, v).cells;
    assert At(t.row, 0) in Actual(t, v).cells;
  }

  /** The row is as it should be exactly in these standings and positions. */
  lemma RowRightIff(t: Screen, u: Screen, v: View, row: Row)
    requires v.Valid() && |v.prompt| < v.cols == t.cols && t.Valid() && RowIs(t, u, v, row)
    ensures u == Ideal(t, v) <==>
            row.Unpainted? ||
            (row.Repainted? && (|v.prompt| + |v.text| < v.cols || v.pos == |v.text|) &&
             (|v.prompt| + v.pos > 0 || v.cols == 1))
  {
    hide Ideal, Actual, Displaced;
    RepaintRightIff(t, v);
    if row.Shifted? { DisplacedIsWrong(t, v); }
  }
}

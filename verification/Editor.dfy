/** The editor itself: a fixed buffer edited in place, the memo of the last repaint,
    and the terminal every repaint is written to. */
module Editor {
  import opened Arith
  import opened Ascii
  import opened Memory
  import opened Terminal
  import opened MultiLine
  import opened LineText
  import opened Keys
  import HistoryNav
  import SingleLine
  import History

  type Row = SingleLine.Row

  class LineState {
    const prompt: string
    const cols: Width
    const multi: bool
    const mask: bool
    const buf: array<char>
    const buflen: nat
    const hist: History.Store
    var pos: nat
    var len: nat
    var oldpos: nat
    var oldrows: nat
    var index: nat
    /** The terminal, as the bytes written so far have left it. */
    var screen: Screen
    /** The terminal as it was before the line was first shown on it. */
    ghost var canvas: Screen

    ghost predicate Valid()
      reads this, buf, hist
    {
      && Bounds() && buf[len] == NUL && buf as object != hist.slots
      && hist.Valid() && screen.Valid() && screen.cols == cols
      && (multi || |prompt| < cols)
    }

    /** The edited line is one of the history's slots. */
    ghost predicate InSession()
      reads this, hist
    {
      index < hist.len
    }

    predicate Bounds()
      reads this`pos, this`len
    {
      buf.Length == buflen + 1 && pos <= len <= buflen
    }

    ghost function Line(): Line
      reads this`pos, this`len, buf
      requires Bounds()
    {
      LineAt(buf[..len], pos)
    }

    ghost function Edit(): Edit
      reads this, buf, hist, hist.slots
      requires Valid()
    {
      Keys.Edit(Line(), hist.Lines(), index)
    }

    function View(): (v: View)
      reads this`pos, this`len, buf
      requires Bounds()
      ensures v.Valid() && v.cols == cols && v.prompt == prompt
    {
      MultiLine.View(prompt, buf[..len], pos, cols, mask)
    }

    function Memory(): Memo
      reads this`oldpos, this`oldrows
    {
      Memo(oldpos, oldrows)
    }

    /** The settings that decide how a key is shown. */
    function Settings(): Setup { Setup(buflen, multi, |prompt|, cols) }

    /** The canvas can show the prompt. */
    ghost predicate OnCanvas()
      reads this`canvas
    {
      && canvas.Valid() && canvas.mode == Ground && canvas.cols == cols
      && Printable(prompt) && (multi || |prompt| < cols)
    }

    /** The terminal is the canvas with the line on it as a repaint leaves it, and the
        memo fits; RightIff tells when that is as it should be. */
    ghost predicate InSync()
      reads this, buf
      requires Bounds()
    {
      && OnCanvas()
      && if multi then
           && screen == Painted(canvas, View(), canvas.row)
           && Ready(screen, |prompt|, Memory(), canvas.row)
         else
           screen == SingleLine.Actual(canvas, View())
    }

    /** The line stands on the canvas in one of three ways; no text is ever shifted in
        multi-line mode. */
    ghost predicate Stands(row: Row)
      reads this, buf
      requires Bounds()
    {
      OnCanvas() && if multi then MultiStands(row) else SingleLine.RowIs(canvas, screen, View(), row)
    }

    /** An empty line that was never repainted is as a repaint leaves it behind a prompt
        shorter than a row; behind a longer one it is only good for a repaint. */
    ghost predicate MultiStands(row: Row)
      reads this, buf
      requires Bounds()
    {
      match row
      case Unpainted =>
        && len == 0 && CanRefresh() && Memory() == Memo(0, 0)
        && (|prompt| < cols ==> screen == Painted(canvas, View(), canvas.row))
      case Repainted => InSync()
      case Shifted => false
    }

    lemma SyncIsRepainted()
      requires Bounds()
      ensures InSync() <==> Stands(SingleLine.Repainted)
    {
    }

    /** The canvas with the line on it as it should be. */
    ghost function Wanted(): Screen
      reads this, buf
      requires Bounds() && OnCanvas()
    {
      if multi then MultiLine.Ideal(canvas, View(), canvas.row) else SingleLine.Ideal(canvas, View())
    }

    /** Something keeps a line that stands so from being shown as it should: in multi-line
        mode a prompt that fills its rows with nothing behind it, or the first printing
        of one that fills a row; in single-line mode text that is shifted, a row that a
        repaint has filled, or a cursor that was to stay on column 0. */
    predicate Flawed(row: Row)
      reads this`pos, this`len
    {
      match row
      case Unpainted => multi && |prompt| >= cols
      case Repainted =>
        if multi then len == 0 && prompt != [] && |prompt| % cols == 0
        else (|prompt| + len >= cols && pos < len) || (|prompt| + pos == 0 && cols > 1)
      case Shifted => true
    }

    /** The terminal shows what it should, cursor included, exactly when nothing of the
        kind is the case. */
    lemma RightIff(row: Row)
      requires Bounds() && Stands(row)
      ensures screen == Wanted() <==> !Flawed(row)
    {
      hide Painted, MultiLine.Ideal, SingleLine.Ideal, SingleLine.RowIs, Ready;
      if multi {
        PaintedRightIff(canvas, View(), canvas.row);
        if row.Unpainted? {
          if |prompt| < cols {
            if prompt != [] { FillsRow(|prompt|, cols); }
          } else {
            UnpaintedIsWrong(canvas, screen, View(), canvas.row);
          }
        }
      } else {
        SingleLine.RowRightIff(canvas, screen, View(), row);
      }
    }

    /** A repaint will bring the terminal in step, whatever the line has become. */
    ghost predicate CanRefresh()
      reads this`screen, this`canvas, this`oldpos, this`oldrows
    {
      && OnCanvas() && screen.Valid() && screen.cols == cols && screen.mode == Ground
      && screen.top == canvas.top
      && if multi then
           && Ready(screen, |prompt|, Memory(), canvas.row)
           && RowsAbove(screen.cells, canvas.row) == RowsAbove(canvas.cells, canvas.row)
         else
           && screen.row == canvas.row
           && SingleLine.OffRow(screen.cells, canvas.row) == SingleLine.OffRow(canvas.cells, canvas.row)
    }

    lemma StandsRefresh(row: Row)
      requires Valid() && Stands(row)
      ensures CanRefresh()
    {
      hide Layout, RestRow, SingleLine.CursorColumn, SingleLine.Window, SingleLine.Actual, SingleLine.Ideal;
      if multi {
        if row.Repainted? { PaintedAbove(canvas, View()); }
      } else {
        SingleLine.RowAround(canvas, screen, View(), row);
      }
    }

    /** linenoiseEditStart: an empty line in a new history slot, after the prompt. */
    constructor (prompt: string, buf: array<char>, cols: Width, multi: bool, mask: bool,
                 hist: History.Store, t: Screen)
      requires buf.Length >= 1 && hist.Valid() && hist.max > 0
      requires t.Valid() && t.cols == cols && (multi || |prompt| < cols)
      modifies buf, hist`len, hist.slots
      ensures Valid() && InSession()
      ensures this.prompt == prompt && this.buf == buf && this.hist == hist
      ensures this.multi == multi && this.cols == cols && this.mask == mask && buflen == buf.Length - 1
      ensures hist.slots == old(hist.slots) && hist.max == old(hist.max)
      ensures Edit() == Keys.Edit(LineText.Line([], []), History.Push(old(hist.Lines()), [], hist.max), 0)
      ensures screen == Feed(t, prompt) && canvas == if multi then StartCanvas(t, prompt) else t
      ensures Canvas(t) && Printable(prompt) ==> Stands(SingleLine.Unpainted)
    {
      this.prompt, this.cols, this.multi, this.mask := prompt, cols, multi, mask;
      this.buf, this.hist := buf, hist;
      buflen := buf.Length - 1;
      pos, len, oldpos, oldrows, index := 0, 0, 0, 0, 0;
      screen, canvas := Feed(t, prompt), if multi then StartCanvas(t, prompt) else t;
      new;
      buf[0] := NUL;
      var _ := hist.Add([]);
      hide StartCanvas, Feed, Painted, SingleLine.Ideal, Ready;
      if Canvas(t) && Printable(prompt) {
        assert View() == MultiLine.View(prompt, [], 0, cols, mask);
        if multi { StartRefreshes(t, prompt, mask); } else { SingleLine.StartIdeal(t, prompt, mask); }
      }
    }

    method Write(s: string)
      requires screen.Valid()
      modifies this`screen
      ensures screen == Feed(old(screen), s)
    {
      screen := Feed(screen, s);
    }

    /** The moves and erasures that clear the rows used before. */
    method AppendClean(prev: nat, rpos: nat) returns (ab: string)
      requires rpos == CursorLine(|prompt|, oldpos, cols)
      ensures ab == CleanBytes(|prompt|, Memo(oldpos, prev), cols)
    {
      hide Seq, CursorLine;
      ab := [];
      if prev - rpos > 0 { ab := Seq(prev - rpos, 'B'); }
      ghost var go := ab;
      var j := 0;
      assert ab == go + ClearUp(0);
      while j < prev - 1
        invariant 0 <= j <= Max(0, prev - 1) && ab == go + ClearUp(j)
      {
        ghost var was := ClearUp(j);
        ab := ab + ([CR] + Seq(0, 'K') + Seq(1, 'A'));
        assert ab == go + (was + (CLEAR_LINE + Seq(1, 'A')));
        j := j + 1;
      }
    }

    /** The prompt and a stretch of the text, as stars in mask mode. */
    method AppendText(skip: nat, n: nat) returns (ab: string)
      requires Bounds() && skip + n <= len
      ensures ab == prompt + View().Shown()[skip..skip + n]
    {
      ab := prompt;
      if mask {
        var i := 0;
        while i < n
          invariant 0 <= i <= n && ab == prompt + Stars(i)
        {
          assert Stars(i) + "*" == Stars(i + 1);
          ab := ab + "*";
          i := i + 1;
        }
        assert Stars(n) == View().Shown()[skip..skip + n];
      } else {
        ab := ab + buf[skip..skip + n];
        assert buf[skip..skip + n] == buf[..len][skip..skip + n];
      }
    }

    /** Back from the end of the text to the edited position. */
    method AppendPlace(rows: nat) returns (ab: string)
      requires Bounds()
      requires rows == PaintedRows(View())
      ensures ab == PlaceBytes(View())
    {
      hide Seq, PaintedRows;
      var rpos2 := (|prompt| + pos + cols) / cols;
      ab := [];
      if rows - rpos2 > 0 { ab := Seq(rows - rpos2, 'A'); }
      var col := (|prompt| + pos) % cols;
      if col > 0 { ab := ab + ([CR] + Seq(col, 'C')); } else { ab := ab + [CR]; }
    }

    method RefreshMultiLine(f: Flags)
      requires Valid()
      modifies this`oldpos, this`oldrows, this`screen
      ensures Valid()
      ensures screen == Feed(old(screen), Output(View(), Memo(old(oldpos), old(oldrows)), f))
      ensures Memory() == NewMemo(View(), f)
    {
      hide Seq, CleanBytes, PlaceBytes, Feed;
      ghost var v, m := View(), Memory();
      var rows := (|prompt| + len + cols - 1) / cols;
      var rpos := (|prompt| + oldpos + cols) / cols;
      var prev := oldrows;
      oldrows := rows;
      var ab := [];
      if f.clean { ab := AppendClean(prev, rpos); }
      if f.clean || f.write { ab := ab + ([CR] + Seq(0, 'K')); }
      if f.write {
        ghost var head := ab;
        var text := AppendText(0, len);
        assert v.Shown()[0..len] == v.Shown();
        if pos > 0 && pos == len && (pos + |prompt|) % cols == 0 {
          text := text + [LF, CR];
          rows := rows + 1;
          if rows > oldrows { oldrows := rows; }
        }
        assert text == v.prompt + v.Shown() + (if NeedsNewline(v) then [LF, CR] else []);
        var place := AppendPlace(rows);
        ab := ab + (text + place);
        assert ab == head + WriteBytes(v);
      }
      oldpos := pos;
      assert ab == Output(v, m, f);
      Write(ab);
    }

    method RefreshSingleLine(write: bool)
      requires Valid() && |prompt| < cols
      modifies this`screen
      ensures Valid()
      ensures screen == Feed(old(screen), SingleLine.RowBytes(View(), write))
    {
      hide Seq, Feed;
      ghost var v := View();
      var skip, n, p := FindWindow();
      hide SingleLine.CursorColumn;
      var ab := [CR];
      if write {
        var text := AppendText(skip, n);
        assert text == v.prompt + SingleLine.Window(v);
        ab := ab + text;
      }
      ab := ab + Seq(0, 'K');
      if write { ab := ab + ([CR] + Seq(p + |prompt|, 'C')); }
      assert ab == SingleLine.RowBytes(v, write);
      Write(ab);
    }

    /** The two loops that shorten the text until it fits beside the prompt. */
    method FindWindow() returns (skip: nat, n: nat, p: nat)
      requires Bounds() && |prompt| < cols
      ensures skip + n <= len && SingleLine.Window(View()) == View().Shown()[skip..skip + n]
      ensures p + |prompt| == SingleLine.CursorColumn(View())
    {
      var plen, left, q := |prompt|, len, pos;
      ghost var v := View();
      skip := 0;
      while plen + q >= cols
        invariant q == pos - skip && left == len - skip && 0 <= skip <= SingleLine.Skip(v) && q >= 0 && left >= 0
      {
        skip, left, q := skip + 1, left - 1, q - 1;
      }
      ghost var tail := left;
      while plen + left > cols
        invariant 0 <= left <= tail && (left < tail ==> plen + left >= cols)
      {
        left := left - 1;
      }
      n, p := left, q;
    }

    method Refresh()
      requires Valid()
      modifies this`oldpos, this`oldrows, this`screen
      ensures Valid()
      ensures old(CanRefresh()) && View().Clean() ==> InSync()
    {
      ghost var v, before := View(), screen;
      if CanRefresh() && v.Clean() {
        if multi {
          RepaintPaints(screen, v, Memory(), canvas.row);
          PaintedSame(screen, canvas, v, canvas.row);
          PaintedIsReady(screen, v, canvas.row);
        } else {
          SingleLine.RepaintRow(screen, v);
        }
      }
      hide Output, NewMemo, Painted, Ready, RestRow;
      if multi { RefreshMultiLine(ALL); } else { RefreshSingleLine(true); }
    }

    /** The canvas with nothing of the line on it, the cursor where the prompt began. */
    ghost function Hidden(): Screen
      reads this`canvas
    {
      if multi then Wiped(canvas, canvas.row)
      else canvas.(cells := SingleLine.OffRow(canvas.cells, canvas.row), col := 0, pending := false)
    }

    lemma Hides()
      requires Valid() && CanRefresh() && View().Clean()
      ensures multi ==> Feed(screen, Output(View(), Memory(), Flags(true, false))) == Hidden()
      ensures !multi ==> Feed(screen, SingleLine.RowBytes(View(), false)) == Hidden()
    {
      hide Feed, Output, SingleLine.RowBytes, Layout, RestRow, SingleLine.Window, SingleLine.CursorColumn;
      if multi {
        hide Ready;
        HideWipes(screen, View(), Memory(), canvas.row);
      } else {
        SingleLine.HideThenShowRow(screen, View());
      }
    }

    /** linenoiseHide. */
    method Hide()
      requires Valid()
      modifies this`oldpos, this`oldrows, this`screen
      ensures Valid()
      ensures old(CanRefresh()) && View().Clean() ==> screen == Hidden()
    {
      hide CanRefresh, Output, SingleLine.RowBytes, Feed, Hidden;
      if CanRefresh() && View().Clean() { Hides(); }
      if multi { RefreshMultiLine(Flags(true, false)); } else { RefreshSingleLine(false); }
    }

    /** Nothing is left on the rows below the cursor. */
    ghost predicate CanShow()
      reads this`screen
    {
      && screen.Valid() && screen.mode == Ground && screen.cols == cols
      && Printable(prompt) && (multi || |prompt| < cols)
      && forall p :: p in screen.cells ==> p.row <= screen.row
    }

    /** linenoiseShow: the line is painted where the cursor now stands, which becomes
        its place, whatever was printed since it was hidden. */
    method Show()
      requires Valid()
      modifies this`oldpos, this`oldrows, this`screen, this`canvas
      ensures Valid() && canvas == old(screen)
      ensures old(CanShow()) && View().Clean() ==> InSync()
    {
      canvas := screen;
      ghost var v := View();
      if CanShow() && v.Clean() {
        if multi {
          ShowPaints(screen, v, Memory());
          PaintedIsReady(screen, v, screen.row);
        } else {
          SingleLine.RepaintRow(screen, v);
        }
      }
      hide Output, Painted, Ready, SingleLine.RowBytes, SingleLine.Actual;
      if multi { RefreshMultiLine(Flags(false, true)); } else { RefreshSingleLine(true); }
    }

    /** linenoiseEditInsert: typing at the end of a short line writes just the byte. */
    method Insert(c: char, ghost row: Row)
      requires Valid()
      modifies this`pos, this`len, this`oldpos, this`oldrows, this`screen, buf
      ensures Valid() && Line() == LineText.Insert(old(Line()), c, buflen)
      ensures if old(len) >= buflen then unchanged(this, buf)
              else if Echoes(old(Line()), Settings())
              then old(Stands(row)) && View().Clean() ==>
                     Stands(SingleLine.EchoRow(row, prompt == [] && old(len) == 0))
              else old(CanRefresh()) && View().Clean() ==> InSync()
    {
      Cursor();
      if len < buflen {
        InsertAt(buf[..len], pos, c, buflen);
        hide InSync, CanRefresh, Stands, LineText.Insert;
        if len == pos {
          assert buf[..len][..pos] + [c] + buf[..len][pos..] == buf[..len] + [c];
          TypeAtEnd(c, row);
        } else {
          OpenGap(c);
          hide Line, View;
          Refresh();
        }
      }
    }

    /** Shift the bytes from the cursor on and put `c` in front of them. */
    method OpenGap(c: char)
      requires Bounds() && len < buflen
      modifies this`pos, this`len, buf
      ensures Bounds() && buf[len] == NUL && pos == old(pos) + 1
      ensures buf[..len] == old(buf[..len][..pos] + [c] + buf[..len][pos..])
    {
      ghost var was := buf[..];
      MemMove(buf, pos + 1, pos, len - pos);
      Opened(was, buf[..], c, pos, len);
      ghost var moved := buf[..];
      buf[pos] := c;
      assert buf[..] == moved[pos := c];
      len := len + 1;
      pos := pos + 1;
      assert buf[..len] == moved[pos - 1 := c][..len];
      buf[len] := NUL;
    }

    method TypeAtEnd(c: char, ghost row: Row)
      requires Valid() && len == pos < buflen
      modifies this`pos, this`len, this`oldpos, this`oldrows, this`screen, buf
      ensures Valid() && pos == len && buf[..len] == old(buf[..len]) + [c]
      ensures if !multi && |prompt| + len < cols
              then old(Stands(row)) && View().Clean() ==>
                     Stands(SingleLine.EchoRow(row, prompt == [] && old(len) == 0))
              else old(CanRefresh()) && View().Clean() ==> InSync()
    {
      hide InSync, CanRefresh;
      ghost var v, before, stood := View(), screen, Stands(row);
      buf[pos] := c;
      pos := pos + 1;
      len := len + 1;
      buf[len] := NUL;
      assert buf[..len] == v.text + [c];
      if !multi && |prompt| + len < cols {
        hide Feed, SingleLine.RowIs;
        Write([if mask then '*' else c]);
        assert View() == SingleLine.Typed(v, c);
        if stood && View().Clean() {
          assert (v.text + [c])[|v.text|] == c && v.text == (v.text + [c])[..|v.text|];
          SingleLine.EchoSteps(canvas, before, v, c, row);
        }
      } else {
        hide Line, View;
        Refresh();
      }
    }

    /** The line and the position say the same. */
    lemma Cursor()
      requires Bounds()
      ensures Line().Text() == buf[..len]
      ensures (Line().before != [] <==> pos > 0) && (Line().after != [] <==> pos < len)
    {
      TextAt(buf[..len], pos);
    }

    method MoveLeft()
      requires Valid()
      modifies this`pos, this`oldpos, this`oldrows, this`screen
      ensures Valid() && Line() == Left(old(Line()))
      ensures if old(pos) > 0 then old(CanRefresh()) && View().Clean() ==> InSync() else unchanged(this, buf)
    {
      if pos > 0 {
        hide InSync, CanRefresh;
        MovesAt(buf[..len], pos);
        pos := pos - 1;
        hide Line, View;
        Refresh();
      }
    }

    method MoveRight()
      requires Valid()
      modifies this`pos, this`oldpos, this`oldrows, this`screen
      ensures Valid() && Line() == LineText.Right(old(Line()))
      ensures if old(pos) < len then old(CanRefresh()) && View().Clean() ==> InSync() else unchanged(this, buf)
    {
      if pos != len {
        hide InSync, CanRefresh;
        MovesAt(buf[..len], pos);
        pos := pos + 1;
        hide Line, View;
        Refresh();
      }
    }

    method MoveHome()
      requires Valid()
      modifies this`pos, this`oldpos, this`oldrows, this`screen
      ensures Valid() && Line() == LineText.Home(old(Line()))
      ensures if old(pos) > 0 then old(CanRefresh()) && View().Clean() ==> InSync() else unchanged(this, buf)
    {
      MovesAt(buf[..len], pos);
      if pos != 0 {
        hide InSync, CanRefresh;
        pos := 0;
        hide Line, View;
        Refresh();
      }
    }

    method MoveEnd()
      requires Valid()
      modifies this`pos, this`oldpos, this`oldrows, this`screen
      ensures Valid() && Line() == End(old(Line()))
      ensures if old(pos) < len then old(CanRefresh()) && View().Clean() ==> InSync() else unchanged(this, buf)
    {
      MovesAt(buf[..len], pos);
      if pos != len {
        hide InSync, CanRefresh;
        pos := len;
        hide Line, View;
        Refresh();
      }
    }

    /** Take out byte `p`, and close the string behind it. */
    method RemoveAt(p: nat)
      requires buf.Length == buflen + 1 && p < len <= buflen
      modifies this`len, buf
      ensures len == old(len) - 1 && buf[len] == NUL
      ensures buf[..len] == old(buf[..len][..p] + buf[..len][p + 1..])
    {
      ghost var was := buf[..];
      MemMove(buf, p, p + 1, len - p - 1);
      MovedLeft(was, buf[..], p, p + 1, len);
      len := len - 1;
      buf[len] := NUL;
    }

    /** Take out bytes `p` to `q`; the closing NUL moves along. */
    method RemoveRange(p: nat, q: nat)
      requires buf.Length == buflen + 1 && p <= q <= len <= buflen && buf[len] == NUL
      modifies this`len, buf
      ensures len == old(len) - (q - p) && buf[len] == NUL
      ensures buf[..len] == old(buf[..len][..p] + buf[..len][q..])
    {
      ghost var was := buf[..];
      MemMove(buf, p, q, len - q + 1);
      CutOut(was, buf[..], p, q, len);
      len := len - (q - p);
    }

    method Delete()
      requires Valid()
      modifies this`len, this`oldpos, this`oldrows, this`screen, buf
      ensures Valid() && Line() == LineText.Delete(old(Line()))
      ensures if old(pos < len) then old(CanRefresh()) && View().Clean() ==> InSync() else unchanged(this, buf)
    {
      if len > 0 && pos < len {
        hide InSync, CanRefresh, LineText.Delete;
        CutHere();
        hide Line, View;
        Refresh();
      }
    }

    method CutHere()
      requires Bounds() && pos < len
      modifies this`len, buf
      ensures Bounds() && buf[len] == NUL && Line() == LineText.Delete(old(Line()))
    {
      hide LineText.Delete;
      CutsAt(buf[..len], pos);
      RemoveAt(pos);
    }

    method Backspace()
      requires Valid()
      modifies this`pos, this`len, this`oldpos, this`oldrows, this`screen, buf
      ensures Valid() && Line() == LineText.Backspace(old(Line()))
      ensures if old(pos) > 0 then old(CanRefresh()) && View().Clean() ==> InSync() else unchanged(this, buf)
    {
      if pos > 0 && len > 0 {
        hide InSync, CanRefresh, LineText.Backspace;
        CutsAt(buf[..len], pos);
        RemoveAt(pos - 1);
        pos := pos - 1;
        hide Line, View;
        Refresh();
      }
    }

    method DeletePrevWord()
      requires Valid()
      modifies this`pos, this`len, this`oldpos, this`oldrows, this`screen, buf
      ensures Valid() && Line() == LineText.DeletePrevWord(old(Line()))
      ensures old(CanRefresh()) && View().Clean() ==> InSync()
    {
      hide InSync, CanRefresh, LineText.DeletePrevWord;
      CutWord();
      hide Line, View;
      Refresh();
    }

    method CutWord()
      requires Bounds() && buf[len] == NUL
      modifies this`pos, this`len, buf
      ensures Bounds() && buf[len] == NUL && Line() == LineText.DeletePrevWord(old(Line()))
    {
      hide LineText.DeletePrevWord, DropWord, DropSpaces;
      var oldPos := pos;
      StepBackWord();
      WordCutAt(buf[..len], oldPos, pos);
      RemoveRange(pos, oldPos);
    }

    /** Move the position back over blanks, then over the word before them. */
    method StepBackWord()
      requires Bounds()
      modifies this`pos
      ensures pos <= old(pos)
      ensures buf[..len][..pos] == DropWord(DropSpaces(buf[..len][..old(pos)]))
    {
      hide DropSpaces, DropWord;
      ghost var s, from := buf[..len], pos;
      EmptyDrops();
      assert s[..0] == [];
      while pos > 0 && buf[pos - 1] == ' '
        invariant pos <= from && DropSpaces(s[..pos]) == DropSpaces(s[..from])
      {
        DropStep(s, pos);
        pos := pos - 1;
      }
      if pos > 0 { DropStep(s, pos); }
      while pos > 0 && buf[pos - 1] != ' '
        invariant pos <= from && DropWord(s[..pos]) == DropWord(DropSpaces(s[..from]))
      {
        DropStep(s, pos);
        pos := pos - 1;
      }
      if pos > 0 { DropStep(s, pos); }
    }

    /** Ctrl-T. */
    method Exchange()
      requires Valid()
      modifies this`pos, this`oldpos, this`oldrows, this`screen, buf
      ensures Valid() && Line() == Transpose(old(Line()))
      ensures if 0 < old(pos) < len then old(CanRefresh()) && View().Clean() ==> InSync() else unchanged(this, buf)
    {
      if pos > 0 && pos < len {
        hide InSync, CanRefresh, Transpose;
        SwapBytes();
        hide Line, View;
        Refresh();
      }
    }

    method SwapBytes()
      requires Bounds() && 0 < pos < len && buf[len] == NUL
      modifies this`pos, buf
      ensures Bounds() && buf[len] == NUL && Line() == Transpose(old(Line()))
    {
      hide Transpose;
      ghost var s, p := buf[..len], pos;
      TransposeAt(s, p);
      var aux := buf[pos - 1];
      buf[pos - 1] := buf[pos];
      buf[pos] := aux;
      assert buf[..len] == s[p - 1 := s[p]][p := s[p - 1]];
      if pos != len - 1 { pos := pos + 1; }
    }

    /** Ctrl-U. */
    method KillWhole()
      requires Valid()
      modifies this`pos, this`len, this`oldpos, this`oldrows, this`screen, buf
      ensures Valid() && Line() == KillLine()
      ensures old(CanRefresh()) && View().Clean() ==> InSync()
    {
      hide InSync, CanRefresh;
      EmptyLine();
      hide Line, View;
      Refresh();
    }

    method EmptyLine()
      requires Bounds()
      modifies this`pos, this`len, buf
      ensures Bounds() && buf[len] == NUL && Line() == KillLine()
    {
      buf[0] := NUL;
      pos, len := 0, 0;
      assert buf[..len] == [];
    }

    /** Ctrl-K. */
    method KillTail()
      requires Valid()
      modifies this`len, this`oldpos, this`oldrows, this`screen, buf
      ensures Valid() && Line() == KillEnd(old(Line()))
      ensures old(CanRefresh()) && View().Clean() ==> InSync()
    {
      hide InSync, CanRefresh;
      CutTail();
      hide Line, View;
      Refresh();
    }

    method CutTail()
      requires Bounds()
      modifies this`len, buf
      ensures Bounds() && buf[len] == NUL && Line() == KillEnd(old(Line()))
    {
      hide KillEnd;
      ghost var s := buf[..len];
      CutsAt(s, pos);
      buf[pos] := NUL;
      len := pos;
      assert buf[..len] == s[..pos];
    }

    /** linenoiseEditHistoryNext. */
    method HistoryNext(prev: bool) returns (ok: bool)
      requires Valid() && InSession()
      modifies this`pos, this`len, this`index, this`oldpos, this`oldrows, this`screen, buf, hist.slots
      ensures Valid() && InSession() && hist.slots == old(hist.slots)
      ensures (Edit(), if ok then More else OutOfBounds) == Walks(old(Edit()), prev, buflen)
      ensures if 0 < buflen && old(HistoryNav.Turns(Edit().Nav(), prev))
              then old(CanRefresh()) && View().Clean() ==> InSync()
              else unchanged(this, buf)
    {
      hide InSync, CanRefresh, Line, View, LineText.Line.Text;
      ghost var e := Edit();
      WalkedCases(e, prev, buflen);
      hide Walked, Keys.Edit.Nav, HistoryNav.Turns, Keys.Edit.Saved, Keys.Edit.Shows;
      if hist.len > 1 {
        SaveSlot();
        var next := if prev then index + 1 else index - 1;
        if next < 0 {
          return true;
        } else if next >= hist.len {
          return true;
        }
        if buflen == 0 { return false; }
        GoTo(next);
      }
      return true;
    }

    /** Write the text back to the slot it stands for. */
    method SaveSlot()
      requires Valid() && InSession()
      modifies hist.slots
      ensures Valid()
      ensures Edit() == old(Edit().Saved())
    {
      TextAt(buf[..len], pos);
      hist.slots[hist.len - 1 - index] := CString(buf[..len]);
    }

    /** Edit another slot. */
    method GoTo(next: nat)
      requires Valid() && InSession() && next < hist.len && 0 < buflen
      modifies this`pos, this`len, this`index, this`oldpos, this`oldrows, this`screen, buf
      ensures Valid() && InSession()
      ensures Edit() == old(Edit().Shows(next, buflen))
      ensures old(CanRefresh()) && View().Clean() ==> InSync()
    {
      hide InSync, CanRefresh;
      index := next;
      ShowLine(hist.slots[hist.len - 1 - index]);
    }

    /** Replace the text by a line of the history, the cursor at its end. */
    method ShowLine(line: string)
      requires Valid() && 0 < buflen
      modifies this`pos, this`len, this`oldpos, this`oldrows, this`screen, buf
      ensures Valid() && Line() == LineText.Line(HistoryNav.Fit(line, buflen), [])
      ensures old(CanRefresh()) && View().Clean() ==> InSync()
    {
      hide InSync, CanRefresh;
      CopyLine(line);
      hide Line, View;
      Refresh();
    }

    /** Copy a C string into the buffer and put the position at its end. */
    method CopyLine(line: string)
      requires Bounds() && 0 < buflen
      modifies this`pos, this`len, buf
      ensures Bounds() && buf[len] == NUL && Line() == LineText.Line(HistoryNav.Fit(line, buflen), [])
    {
      StrNCpy(buf, CString(line), buflen);
      buf[buflen - 1] := NUL;
      ghost var text := HistoryNav.Fit(line, buflen);
      assert buf[..|text|] == text && buf[|text|] == NUL;
      BeforeAt(buf[..], NUL, |text|);
      len := |CString(buf[..])|;
      pos := len;
      assert buf[..len] == text;
    }

    /** Ctrl-L: the cleared display becomes the canvas, with what is above its top row. */
    method RedrawScreen()
      requires Valid()
      modifies this`oldpos, this`oldrows, this`screen, this`canvas
      ensures Valid()
      ensures canvas == Wiped(old(screen), old(screen).top)
      ensures old(CanRefresh()) ==> canvas == Wiped(old(canvas), old(canvas).top)
      ensures old(CanRefresh()) && View().Clean() ==> InSync()
    {
      if CanRefresh() {
        WipesCanvas();
        ClearScreenIsReady(screen, |prompt|, Memory());
      }
      hide InSync, Ready, Feed;
      canvas := Wiped(screen, screen.top);
      Write(CLEAR_SCREEN);
      Refresh();
    }

    lemma WipesCanvas()
      requires Valid() && CanRefresh()
      ensures Wiped(screen, screen.top) == Wiped(canvas, canvas.top)
    {
      hide Ready;
      forall p: Pos | p.row < screen.top
        ensures p in screen.cells <==> p in canvas.cells
        ensures p in screen.cells ==> screen.cells[p] == canvas.cells[p]
      {
        if multi {
          assert p in RowsAbove(screen.cells, canvas.row) <==> p in RowsAbove(canvas.cells, canvas.row);
        } else {
          assert p in SingleLine.OffRow(screen.cells, canvas.row) <==> p in SingleLine.OffRow(canvas.cells, canvas.row);
        }
      }
    }

    /** Enter: the line leaves the history and is returned. */
    method Accept() returns (outcome: Outcome)
      requires Valid() && InSession()
      modifies this`pos, this`oldpos, this`oldrows, this`screen, hist`len
      ensures Valid() && (Edit(), outcome) == Apply(old(Edit()), Enter, buflen, multi)
      ensures if multi && old(pos) < len then old(CanRefresh()) && View().Clean() ==> InSync()
              else unchanged(this, buf)
    {
      hide InSync, CanRefresh, View, Line, End;
      Cursor();
      hist.Pop();
      var text := CString(buf[..len]);
      if multi { MoveEnd(); }
      outcome := Done(text);
    }

    /** Ctrl-D: erase a byte, or end the input on an empty line. */
    method DeleteOrEof() returns (outcome: Outcome)
      requires Valid() && InSession()
      modifies this`len, this`oldpos, this`oldrows, this`screen, buf, hist`len
      ensures Valid() && (outcome.More? ==> InSession())
      ensures (Edit(), outcome) == Apply(old(Edit()), EraseHereOrEof, buflen, multi)
      ensures if old(pos < len) then old(CanRefresh()) && View().Clean() ==> InSync() else unchanged(this, buf)
    {
      hide InSync, CanRefresh, View, Line, LineText.Delete;
      Cursor();
      outcome := More;
      if len > 0 {
        Delete();
      } else {
        hist.Pop();
        outcome := EndOfFile;
      }
    }

    /** The keys that only move. */
    method MoveCursor(k: Key)
      requires Valid() && (k.GoLeft? || k.GoRight? || k.GoHome? || k.GoEnd?)
      modifies this`pos, this`oldpos, this`oldrows, this`screen
      ensures Valid() && Line() == LineAfter(old(Line()), k, buflen)
      ensures if ActsOn(old(Line()), k) then old(CanRefresh()) && View().Clean() ==> InSync() else unchanged(this, buf)
    {
      hide InSync, CanRefresh, View, Line, LineText.Left, LineText.Right, LineText.Home, End;
      Cursor();
      match k {
        case GoLeft => MoveLeft();
        case GoRight => MoveRight();
        case GoHome => MoveHome();
        case GoEnd => MoveEnd();
      }
    }

    /** The keys that only cut or exchange. */
    method CutText(k: Key)
      requires Valid()
      requires k.EraseLeft? || k.EraseHere? || k.Exchange? || k.KillAll? || k.KillRest? || k.EraseWord?
      modifies this`pos, this`len, this`oldpos, this`oldrows, this`screen, buf
      ensures Valid() && Line() == LineAfter(old(Line()), k, buflen)
      ensures if ActsOn(old(Line()), k) then old(CanRefresh()) && View().Clean() ==> InSync() else unchanged(this, buf)
    {
      hide InSync, CanRefresh, View, Line, LineText.Delete, LineText.Backspace,
        LineText.DeletePrevWord, Transpose, KillEnd;
      Cursor();
      match k {
        case EraseLeft => Backspace();
        case EraseHere => Delete();
        case Exchange => Exchange();
        case KillAll => KillWhole();
        case KillRest => KillTail();
        case EraseWord => DeletePrevWord();
      }
    }

    /** The keys that leave the display as a whole alone. */
    method Dispatch(k: Key, ghost row: Row) returns (outcome: Outcome)
      requires Valid() && InSession() && !k.Redraw?
      modifies this`pos, this`len, this`index, this`oldpos, this`oldrows, this`screen
      modifies buf, hist`len, hist.slots
      ensures Valid() && hist.slots == old(hist.slots) && (outcome.More? ==> InSession())
      ensures (Edit(), outcome) == Apply(old(Edit()), k, buflen, multi)
      ensures if Repaints(old(Edit()), k, Settings()) then old(CanRefresh()) && View().Clean() ==> InSync()
              else if k.Typed? && Echoes(old(Line()), Settings())
              then old(Stands(row)) && View().Clean() ==>
                     Stands(SingleLine.EchoRow(row, prompt == [] && old(len) == 0))
              else unchanged(this, buf)
    {
      hide InSync, CanRefresh, Stands, View, Line, Walked, LineText.Insert, LineText.Delete, LineText.Line.Text,
        End, ActsOn, Walks, CString, HistoryNav.Turns, SingleLine.EchoRow, Keys.Edit.Nav;
      Cursor();
      outcome := More;
      match k {
        case Enter => outcome := Accept();
        case Interrupt => outcome := Interrupted;
        case EraseHereOrEof => outcome := DeleteOrEof();
        case GoLeft | GoRight | GoHome | GoEnd => MoveCursor(k);
        case EraseLeft | EraseHere | Exchange | KillAll | KillRest | EraseWord => CutText(k);
        case Older | Newer =>
          var ok := HistoryNext(k.Older?);
          if !ok { outcome := OutOfBounds; }
        case Ignored =>
        case Typed(c) => Insert(c, row);
      }
    }

    /** One key; `row` is how the line stands on the terminal. */
    method Press(k: Key, ghost row: Row) returns (outcome: Outcome)
      requires Valid() && InSession()
      modifies this`pos, this`len, this`index, this`oldpos, this`oldrows, this`screen, this`canvas
      modifies buf, hist`len, hist.slots
      ensures Valid() && hist.slots == old(hist.slots) && (outcome.More? ==> InSession())
      ensures (Edit(), outcome) == Apply(old(Edit()), k, buflen, multi)
      ensures old(Stands(row)) && View().Clean() ==> Stands(RowAfter(old(Edit()), row, k, Settings()))
      ensures canvas == if k.Redraw? then Wiped(old(screen), old(screen).top) else old(canvas)
      ensures old(Stands(row)) && k.Redraw? ==> canvas == Wiped(old(canvas), old(canvas).top)
    {
      hide InSync, CanRefresh, Stands, View, Line, Wiped, Echoes, SingleLine.EchoRow, Walked, LineText.Line.Text;
      Cursor();
      if Stands(row) { StandsRefresh(row); }
      if k.Redraw? {
        RedrawScreen();
        outcome := More;
      } else {
        outcome := Dispatch(k, row);
      }
      SyncIsRepainted();
    }

    /** The bytes of one key, read as the switch of linenoiseEditFeed reads them. */
    method ReadKey(input: string) returns (k: Key, used: nat)
      requires input != []
      ensures (k, used) == Decode(input)
    {
      var c := input[0];
      if c != ESC {
        used := 1;
        if c == 13 as char { k := Enter; }
        else if c == 3 as char { k := Interrupt; }
        else if c == DEL || c == 8 as char { k := EraseLeft; }
        else if c == 4 as char { k := EraseHereOrEof; }
        else if c == 20 as char { k := Key.Exchange; }
        else if c == 2 as char { k := GoLeft; }
        else if c == 6 as char { k := GoRight; }
        else if c == 16 as char { k := Older; }
        else if c == 14 as char { k := Newer; }
        else if c == 21 as char { k := KillAll; }
        else if c == 11 as char { k := KillRest; }
        else if c == 1 as char { k := GoHome; }
        else if c == 5 as char { k := GoEnd; }
        else if c == 12 as char { k := Redraw; }
        else if c == 23 as char { k := EraseWord; }
        else { k := Typed(c); }
        return;
      }
      if |input| < 3 { return Ignored, |input|; }
      k, used := Ignored, 3;
      if input[1] == '[' {
        if '0' <= input[2] <= '9' {
          if |input| < 4 { return; }
          used := 4;
          if input[3] == '~' && input[2] == '3' { k := EraseHere; }
        } else {
          match input[2] {
            case 'A' => k := Older;
            case 'B' => k := Newer;
            case 'C' => k := GoRight;
            case 'D' => k := GoLeft;
            case 'H' => k := GoHome;
            case 'F' => k := GoEnd;
            case _ =>
          }
        }
      } else if input[1] == 'O' {
        match input[2] {
          case 'H' => k := GoHome;
          case 'F' => k := GoEnd;
          case _ =>
        }
      }
    }

    /** linenoiseEditFeed: the next key of the input. */
    method EditFeed(input: string, ghost row: Row) returns (used: nat, outcome: Outcome)
      requires Valid() && InSession()
      modifies this`pos, this`len, this`index, this`oldpos, this`oldrows, this`screen, this`canvas
      modifies buf, hist`len, hist.slots
      ensures Valid() && hist.slots == old(hist.slots) && (outcome.More? ==> InSession())
      ensures input == [] ==> used == 0 && outcome == Closed && Edit() == old(Edit()) && unchanged(this, buf)
      ensures input != [] ==>
                && used == Decode(input).1
                && (Edit(), outcome) == Apply(old(Edit()), Decode(input).0, buflen, multi)
                && (old(Stands(row)) && View().Clean() ==>
                      Stands(RowAfter(old(Edit()), row, Decode(input).0, Settings())))
      ensures canvas == if input != [] && Decode(input).0.Redraw? then Wiped(old(screen), old(screen).top)
                        else old(canvas)
      ensures old(Stands(row)) ==>
                canvas == if input != [] && Decode(input).0.Redraw? then Wiped(old(canvas), old(canvas).top)
                          else old(canvas)
    {
      hide Stands, View, Line, Decode, Apply, RowAfter, Wiped;
      if input == [] { return 0, Closed; }
      var k, n := ReadKey(input);
      outcome := Press(k, row);
      used := n;
    }

    /** linenoiseBlockingEdit: keys until the session ends. As long as what is typed is
        printable, the keys alone decide how the line then stands on the terminal, on
        the canvas it began on, cleared if Ctrl-L was among them. */
    method BlockingEdit(input: string, ghost row: Row) returns (outcome: Outcome)
      requires Valid() && InSession()
      modifies this`pos, this`len, this`index, this`oldpos, this`oldrows, this`screen, this`canvas
      modifies buf, hist`len, hist.slots
      ensures Valid() && hist.slots == old(hist.slots)
      ensures var end := Session(old(Edit()), row, false, input, Settings());
              && (Edit(), outcome) == (end.edit, end.outcome)
              && (old(Stands(row)) && old(Visible(Edit())) && TypesVisibly(old(Edit()), input, Settings()) ==>
                    Stands(end.row) && canvas == Cleared(old(canvas), end.cleared))
              && (!end.cleared ==> canvas == old(canvas))
    {
      ghost var e0, c0, w := Edit(), canvas, Settings();
      ghost var good := Stands(row) && Visible(e0) && TypesVisibly(e0, input, w);
      ghost var now, cleared := row, false;
      var rest := input;
      outcome := More;
      hide Stands, View, Line, Session, AfterKey, TypesVisibly, Visible, Cleared;
      while outcome.More?
        invariant Valid() && hist.slots == old(hist.slots) && (outcome.More? ==> InSession())
        invariant Session(e0, row, false, input, w)
               == if outcome.More? then Session(Edit(), now, cleared, rest, w)
                  else Course(Edit(), outcome, now, cleared)
        invariant good ==> Stands(now) && Visible(Edit()) && canvas == Cleared(c0, cleared)
        invariant good && outcome.More? ==> TypesVisibly(Edit(), rest, w)
        invariant !cleared ==> canvas == c0
        decreases |rest|, outcome.More?
      {
        var used;
        used, outcome, now, cleared := Turn(rest, now, cleared, good, c0);
        rest := rest[used..];
      }
    }

    /** The display was cleared down to what lies above its top row, or not. */
    static ghost function Cleared(c: Screen, cleared: bool): Screen {
      if cleared then Wiped(c, c.top) else c
    }

    static lemma ClearedTwice(c: Screen, cleared: bool)
      ensures var d := Cleared(c, cleared);
              Wiped(d, d.top) == Cleared(c, true)
    {
      assert RowsAbove(RowsAbove(c.cells, c.top), c.top) == RowsAbove(c.cells, c.top);
    }

    /** One round of the loop. */
    method Turn(rest: string, ghost row: Row, ghost cleared: bool, ghost good: bool, ghost c0: Screen)
      returns (used: nat, outcome: Outcome, ghost row': Row, ghost cleared': bool)
      requires Valid() && InSession()
      requires good ==> Stands(row) && Visible(Edit()) && TypesVisibly(Edit(), rest, Settings())
      requires good ==> canvas == Cleared(c0, cleared)
      modifies this`pos, this`len, this`index, this`oldpos, this`oldrows, this`screen, this`canvas
      modifies buf, hist`len, hist.slots
      ensures Valid() && hist.slots == old(hist.slots) && (outcome.More? ==> InSession())
      ensures used <= |rest| && (outcome.More? ==> used > 0)
      ensures Session(old(Edit()), row, cleared, rest, Settings())
           == if outcome.More? then Session(Edit(), row', cleared', rest[used..], Settings())
              else Course(Edit(), outcome, row', cleared')
      ensures good ==> Stands(row') && Visible(Edit()) && canvas == Cleared(c0, cleared')
      ensures good && outcome.More? ==> TypesVisibly(Edit(), rest[used..], Settings())
      ensures !cleared' ==> !cleared && canvas == old(canvas)
    {
      ghost var e := Edit();
      hide Stands, View, Line, Decode, Apply, RowAfter, Visible;
      ghost var c := canvas;
      used, outcome := EditFeed(rest, row);
      row', cleared' := row, cleared;
      hide Valid, Wiped;
      if rest != [] {
        ghost var k := Decode(rest).0;
        row', cleared' := RowAfter(e, row, k, Settings()), cleared || k.Redraw?;
        if good {
          ApplyVisible(e, k, buflen, multi);
          VisibleView();
          ClearedTwice(c0, cleared);
        }
      }
    }

    lemma VisibleView()
      requires Valid() && Visible(Edit()) && Printable(prompt)
      ensures View().Clean()
    {
      Cursor();
    }
  }
}

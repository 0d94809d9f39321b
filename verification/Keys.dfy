/** The keys of the line editor: how input bytes spell them and what they do to the
    edited line and the history. */
module Keys {
  import opened Ascii
  import opened Memory
  import opened LineText
  import opened HistoryNav
  import Decimal
  import SingleLine
  import Terminal

  datatype Key =
    | Enter | Interrupt | EraseLeft | EraseHere | EraseHereOrEof | Exchange
    | GoLeft | GoRight | GoHome | GoEnd | Older | Newer
    | KillAll | KillRest | EraseWord | Redraw | Ignored | Typed(c: char)

  /** ESC and what follows it; a sequence that is cut short is dropped. */
  function DecodeEscape(input: string): (r: (Key, nat))
    requires input != [] && input[0] == ESC
    ensures 0 < r.1 <= |input| && !r.0.Typed?
  {
    if |input| < 3 then (Ignored, |input|)
    else if input[1] == '[' then
      if Decimal.IsDigit(input[2]) then
        if |input| < 4 then (Ignored, 3)
        else if input[3] == '~' && input[2] == '3' then (EraseHere, 4)
        else (Ignored, 4)
      else
        match input[2]
        case 'A' => (Older, 3)
        case 'B' => (Newer, 3)
        case 'C' => (GoRight, 3)
        case 'D' => (GoLeft, 3)
        case 'H' => (GoHome, 3)
        case 'F' => (GoEnd, 3)
        case _ => (Ignored, 3)
    else if input[1] == 'O' && input[2] == 'H' then (GoHome, 3)
    else if input[1] == 'O' && input[2] == 'F' then (GoEnd, 3)
    else (Ignored, 3)
  }

  /** The key the input starts with, and the bytes it takes. */
  function Decode(input: string): (r: (Key, nat))
    requires input != []
    ensures 0 < r.1 <= |input|
  {
    var c := input[0];
    var b := c as int;
    if c == ESC then DecodeEscape(input)
    else if c == DEL || b == 8 then (EraseLeft, 1)
    else match b
      case 1 => (GoHome, 1)
      case 2 => (GoLeft, 1)
      case 3 => (Interrupt, 1)
      case 4 => (EraseHereOrEof, 1)
      case 5 => (GoEnd, 1)
      case 6 => (GoRight, 1)
      case 11 => (KillRest, 1)
      case 12 => (Redraw, 1)
      case 13 => (Enter, 1)
      case 14 => (Newer, 1)
      case 16 => (Older, 1)
      case 20 => (Exchange, 1)
      case 21 => (KillAll, 1)
      case 23 => (EraseWord, 1)
      case _ => (Typed(c), 1)
  }

  /** The keys by the bytes terminals send for them. */
  const SPELLINGS: seq<(string, Key)> := [
    ([1 as char], GoHome), ([2 as char], GoLeft), ([3 as char], Interrupt), ([4 as char], EraseHereOrEof),
    ([5 as char], GoEnd), ([6 as char], GoRight), ([8 as char], EraseLeft), ([11 as char], KillRest),
    ([12 as char], Redraw), ([13 as char], Enter), ([14 as char], Newer), ([16 as char], Older),
    ([20 as char], Exchange), ([21 as char], KillAll), ([23 as char], EraseWord), ([DEL], EraseLeft),
    ([ESC, '[', 'A'], Older), ([ESC, '[', 'B'], Newer), ([ESC, '[', 'C'], GoRight), ([ESC, '[', 'D'], GoLeft),
    ([ESC, '[', 'H'], GoHome), ([ESC, '[', 'F'], GoEnd), ([ESC, 'O', 'H'], GoHome), ([ESC, 'O', 'F'], GoEnd),
    ([ESC, '[', '3', '~'], EraseHere)]

  /** Each spelling is read as its key, whole, whatever comes after it. */
  lemma SpellingsDecode(i: nat, rest: string)
    requires i < |SPELLINGS|
    ensures Decode(SPELLINGS[i].0 + rest) == (SPELLINGS[i].1, |SPELLINGS[i].0|)
  {
    var input := SPELLINGS[i].0 + rest;
    assert input[0] == SPELLINGS[i].0[0];
    if i < 16 {
    } else {
      assert input[1] == SPELLINGS[i].0[1] && input[2] == SPELLINGS[i].0[2];
      if i == 24 { assert input[3] == SPELLINGS[24].0[3]; }
    }
  }

  /** A byte is typed into the line exactly when it is not the first of a spelling. */
  lemma TypedIff(c: char, rest: string)
    ensures Decode([c] + rest).0.Typed? <==> forall i :: 0 <= i < |SPELLINGS| ==> SPELLINGS[i].0[0] != c
    ensures Decode([c] + rest).0.Typed? ==> Decode([c] + rest) == (Typed(c), 1)
  {
    var input := [c] + rest;
    assert input[0] == c;
    assert forall i :: 0 <= i < |SPELLINGS| ==>
      SPELLINGS[i].0[0] as int in {1, 2, 3, 4, 5, 6, 8, 11, 12, 13, 14, 16, 20, 21, 23, 27, 127};
    var k := c as int;
    var at := match k
      case 1 => 0 case 2 => 1 case 3 => 2 case 4 => 3 case 5 => 4 case 6 => 5 case 8 => 6 case 11 => 7
      case 12 => 8 case 13 => 9 case 14 => 10 case 16 => 11 case 20 => 12 case 21 => 13 case 23 => 14
      case 127 => 15 case _ => 16;
    assert k == 27 || at < 16 ==> SPELLINGS[at].0[0] == c;
  }

  /** What a call of linenoiseEditFeed reports; `OutOfBounds` is a write in front of the
      buffer, after which nothing is known. */
  datatype Outcome = More | Done(line: string) | Interrupted | EndOfFile | Closed | OutOfBounds

  datatype Edit = Edit(line: Line, slots: seq<string>, index: nat)
  {
    predicate Valid() { index < |slots| }

    function Nav(): Nav { HistoryNav.Nav(slots, index, line.Text()) }

    /** The text is written back to its slot. */
    function Saved(): (e: Edit)
      requires Valid()
      ensures e.Valid() && |e.slots| == |slots|
    {
      this.(slots := slots[|slots| - 1 - index := CString(line.Text())])
    }

    /** Another slot is shown, the cursor at its end. */
    function Shows(i: nat, cap: nat): Edit
      requires i < |slots|
    {
      Edit(Line(Fit(slots[|slots| - 1 - i], cap), []), slots, i)
    }
  }

  function Walked(e: Edit, prev: bool, cap: nat): Edit
    requires e.Valid()
  {
    var n := Move(e.Nav(), prev, cap);
    Edit(if Turns(e.Nav(), prev) then Line(n.text, []) else e.line, n.slots, n.index)
  }

  lemma WalkedCases(e: Edit, prev: bool, cap: nat)
    requires e.Valid()
    ensures var i := if prev then e.index + 1 else e.index - 1;
            Walked(e, prev, cap) ==
            if |e.slots| <= 1 then e
            else if i < 0 || i >= |e.slots| then e.Saved()
            else e.Saved().Shows(i, cap)
    ensures var i := if prev then e.index + 1 else e.index - 1;
            Turns(e.Nav(), prev) <==> |e.slots| > 1 && 0 <= i < |e.slots|
  {
  }

  /** What the keys that only move, cut or type do to the line. */
  function LineAfter(l: Line, k: Key, cap: nat): Line {
    match k
    case EraseLeft => Backspace(l)
    case EraseHere => Delete(l)
    case Exchange => Transpose(l)
    case GoLeft => Left(l)
    case GoRight => Right(l)
    case GoHome => Home(l)
    case GoEnd => End(l)
    case KillAll => KillLine()
    case KillRest => KillEnd(l)
    case EraseWord => DeletePrevWord(l)
    case Typed(c) => Insert(l, c, cap)
    case _ => l
  }

  /** A history key. The line copied in is closed at the last byte but one, which a buffer
      of one byte does not have. */
  function Walks(e: Edit, prev: bool, cap: nat): (Edit, Outcome)
    requires e.Valid()
  {
    if cap == 0 && Turns(e.Nav(), prev) then (e.Saved(), OutOfBounds) else (Walked(e, prev, cap), More)
  }

  function Apply(e: Edit, k: Key, cap: nat, multi: bool): (Edit, Outcome)
    requires e.Valid()
  {
    match k
    case Enter =>
      (Edit(if multi then End(e.line) else e.line, e.slots[..|e.slots| - 1], e.index),
       Done(CString(e.line.Text())))
    case EraseHereOrEof =>
      if e.line.Text() != [] then (e.(line := Delete(e.line)), More)
      else (e.(slots := e.slots[..|e.slots| - 1]), EndOfFile)
    case Older => Walks(e, true, cap)
    case Newer => Walks(e, false, cap)
    case Interrupt => (e, Interrupted)
    case _ => (e.(line := LineAfter(e.line, k, cap)), More)
  }

  /** No key makes a line outgrow the buffer. */
  lemma LineAfterFits(l: Line, k: Key, cap: nat)
    requires |l.Text()| <= cap
    ensures |LineAfter(l, k, cap).Text()| <= cap
  {
    if k.EraseWord? {
      DropSpacesSplits(l.before);
      DropWordSplits(DropSpaces(l.before));
    }
  }

  /** While the session goes on no key adds or removes a slot, leaves the focus out of
      range, or lets the line outgrow the buffer. */
  lemma ApplyKeeps(e: Edit, k: Key, cap: nat, multi: bool)
    requires e.Valid()
    ensures var (e', o) := Apply(e, k, cap, multi);
            && (o.More? ==> e'.Valid() && |e'.slots| == |e.slots|)
            && (|e.line.Text()| <= cap ==> |e'.line.Text()| <= cap)
  {
    WalksKeeps(e, k.Older?, cap);
    ApplyFits(e, k, cap, multi);
    hide LineAfter, Walks, Delete, End, Line.Text;
  }

  lemma ApplyFits(e: Edit, k: Key, cap: nat, multi: bool)
    requires e.Valid()
    ensures |e.line.Text()| <= cap ==> |Apply(e, k, cap, multi).0.line.Text()| <= cap
  {
    if |e.line.Text()| <= cap {
      match k {
        case Enter => assert |End(e.line).Text()| == |e.line.Text()|;
        case EraseHereOrEof => assert |Delete(e.line).Text()| <= |e.line.Text()|;
        case Older => WalksKeeps(e, true, cap);
        case Newer => WalksKeeps(e, false, cap);
        case _ =>
          LineAfterFits(e.line, k, cap);
          hide LineAfter, Line.Text;
      }
    }
  }

  lemma WalksKeeps(e: Edit, prev: bool, cap: nat)
    requires e.Valid()
    ensures var (e', o) := Walks(e, prev, cap);
            && e'.Valid() && |e'.slots| == |e.slots|
            && (|e.line.Text()| <= cap ==> |e'.line.Text()| <= cap)
  {
  }

  /** Everything in sight is printable. */
  predicate Visible(e: Edit) {
    Terminal.Printable(e.line.Text()) && forall s :: s in e.slots ==> Terminal.Printable(s)
  }

  predicate ClearLine(l: Line) { Terminal.Printable(l.before) && Terminal.Printable(l.after) }

  lemma VisibleParts(l: Line)
    ensures Terminal.Printable(l.Text()) <==> ClearLine(l)
  {
    var s := l.Text();
    assert forall i :: 0 <= i < |l.before| ==> s[i] == l.before[i];
    assert forall i :: 0 <= i < |l.after| ==> s[|l.before| + i] == l.after[i];
  }

  /** The operations on a line add nothing but the byte inserted. */
  lemma EditsClear(l: Line, c: char, cap: nat)
    requires ClearLine(l)
    ensures ClearLine(Backspace(l)) && ClearLine(Delete(l)) && ClearLine(KillEnd(l))
    ensures ClearLine(Left(l)) && ClearLine(Right(l)) && ClearLine(Transpose(l))
    ensures Terminal.Glyph(c) ==> ClearLine(Insert(l, c, cap))
  {
  }

  lemma MovesClear(l: Line)
    requires ClearLine(l)
    ensures ClearLine(Home(l)) && ClearLine(End(l)) && ClearLine(DeletePrevWord(l))
  {
    VisibleParts(l);
    DropSpacesSplits(l.before);
    DropWordSplits(DropSpaces(l.before));
    hide DropSpaces, DropWord;
  }

  /** No key but an unprintable one typed makes anything unprintable. */
  lemma ApplyVisible(e: Edit, k: Key, cap: nat, multi: bool)
    requires e.Valid() && Visible(e) && (k.Typed? ==> Terminal.Glyph(k.c))
    ensures Visible(Apply(e, k, cap, multi).0)
  {
    VisibleParts(e.line);
    if k.Older? || k.Newer? {
      WalkedVisible(e, k.Older?, cap);
    } else {
      LineAfterClear(e.line, k, cap);
      EditsClear(e.line, ' ', cap);
      MovesClear(e.line);
      var e' := Apply(e, k, cap, multi).0;
      assert ClearLine(e'.line) && forall s :: s in e'.slots ==> s in e.slots by {
        hide Line.Text, Delete, End, LineAfter, ClearLine, Walks;
      }
      VisibleParts(e'.line);
      hide *;
      VisibleFrom(e, e');
    }
  }

  lemma VisibleFrom(e: Edit, e': Edit)
    requires Visible(e) && Terminal.Printable(e'.line.Text()) && forall s :: s in e'.slots ==> s in e.slots
    ensures Visible(e')
  {
  }

  lemma LineAfterClear(l: Line, k: Key, cap: nat)
    requires ClearLine(l) && (k.Typed? ==> Terminal.Glyph(k.c))
    ensures ClearLine(LineAfter(l, k, cap))
  {
    EditsClear(l, if k.Typed? then k.c else ' ', cap);
    MovesClear(l);
    hide Insert, Delete, Backspace, DeletePrevWord, Transpose, Left, Right, Home, End, KillEnd;
  }

  lemma WalkedVisible(e: Edit, prev: bool, cap: nat)
    requires e.Valid() && Visible(e)
    ensures Visible(Walked(e, prev, cap)) && Visible(e.Saved())
  {
    var n, n' := e.Nav(), Move(e.Nav(), prev, cap);
    var s := n.slots[n.Focus() := CString(n.text)];
    forall i | 0 <= i < |s|
      ensures Terminal.Printable(s[i])
    {
      if i != n.Focus() { assert n.slots[i] in n.slots; }
    }
    assert Terminal.Printable(n'.text);
    VisibleParts(Line(n'.text, []));
  }

  // ---- What a key makes of the terminal ----

  /** The editor's settings that decide between a repaint and the one-byte shortcut. */
  datatype Setup = Setup(cap: nat, multi: bool, plen: nat, cols: nat)

  /** Typing a byte takes the shortcut: it goes to the end of a line that stays short
      of the right edge. */
  predicate Echoes(l: Line, w: Setup) {
    |l.Text()| < w.cap && !w.multi && l.after == [] && w.plen + |l.Text()| + 1 < w.cols
  }

  /** A key that only moves or cuts has something to act on. */
  predicate ActsOn(l: Line, k: Key) {
    match k
    case EraseLeft | GoLeft | GoHome => l.before != []
    case EraseHere | GoRight | GoEnd => l.after != []
    case Exchange => l.before != [] && l.after != []
    case _ => true
  }

  /** The key ends in a repaint of the line. */
  predicate Repaints(e: Edit, k: Key, w: Setup)
    requires e.Valid()
  {
    match k
    case Enter => w.multi && e.line.after != []
    case EraseHereOrEof => e.line.after != []
    case Older => w.cap > 0 && Turns(e.Nav(), true)
    case Newer => w.cap > 0 && Turns(e.Nav(), false)
    case Typed(_) => |e.line.Text()| < w.cap && !Echoes(e.line, w)
    case Redraw => true
    case Interrupt | Ignored => false
    case _ => ActsOn(e.line, k)
  }

  /** How the row stands after a key. */
  function RowAfter(e: Edit, row: SingleLine.Row, k: Key, w: Setup): SingleLine.Row
    requires e.Valid()
  {
    if Repaints(e, k, w) then SingleLine.Repainted
    else if k.Typed? && Echoes(e.line, w) then SingleLine.EchoRow(row, w.plen == 0 && e.line.Text() == [])
    else row
  }

  // ---- Whole sessions ----

  /** What a session comes to: line and history, what it reports, how the row stands,
      and whether the display was cleared. */
  datatype Course = Course(edit: Edit, outcome: Outcome, row: SingleLine.Row, cleared: bool)

  /** Keys are taken from the input until one ends the session. */
  function Session(e: Edit, row: SingleLine.Row, cleared: bool, input: string, w: Setup): Course
    requires e.Valid()
    decreases |input|
  {
    if input == [] then Course(e, Closed, row, cleared)
    else
      var (k, used) := Decode(input);
      ApplyKeeps(e, k, w.cap, w.multi);
      var next := AfterKey(e, row, cleared, k, w);
      if next.outcome.More? then Session(next.edit, next.row, next.cleared, input[used..], w) else next
  }

  function AfterKey(e: Edit, row: SingleLine.Row, cleared: bool, k: Key, w: Setup): Course
    requires e.Valid()
  {
    var (e', outcome) := Apply(e, k, w.cap, w.multi);
    Course(e', outcome, RowAfter(e, row, k, w), cleared || k.Redraw?)
  }

  /** Every key typed into the line is printable. */
  predicate TypesVisibly(e: Edit, input: string, w: Setup)
    requires e.Valid()
    decreases |input|
  {
    input != [] ==>
      var (k, used) := Decode(input);
      ApplyKeeps(e, k, w.cap, w.multi);
      var (e', outcome) := Apply(e, k, w.cap, w.multi);
      && (k.Typed? ==> Terminal.Glyph(k.c))
      && (outcome.More? ==> TypesVisibly(e', input[used..], w))
  }

  /** Behind a prompt no text is ever shifted. */
  lemma {:induction false} PromptKeepsRow(e: Edit, row: SingleLine.Row, cleared: bool, input: string, w: Setup)
    requires e.Valid() && (w.multi || w.plen > 0) && !row.Shifted?
    ensures !Session(e, row, cleared, input, w).row.Shifted?
    decreases |input|
  {
    if input != [] {
      var (k, used) := Decode(input);
      ApplyKeeps(e, k, w.cap, w.multi);
      var next := AfterKey(e, row, cleared, k, w);
      hide Apply, Decode;
      if next.outcome.More? { PromptKeepsRow(next.edit, next.row, next.cleared, input[used..], w); }
    }
  }

  /** Without one, erasing the only byte of a line and typing another shifts it. */
  lemma EraseThenTypeShifts(w: Setup, slots: seq<string>, a: char, b: char)
    requires !w.multi && w.plen == 0 && w.cols > 2 && w.cap > 0 && slots != []
    requires Terminal.Glyph(a) && Terminal.Glyph(b)
    ensures Session(Edit(Line([], []), slots, 0), SingleLine.Unpainted, false, [a, DEL, b], w)
         == Course(Edit(Line([b], []), slots, 0), Closed, SingleLine.Shifted, false)
  {
    var none: string := [];
    var e0, e1, e2 := Edit(Line([], []), slots, 0), Edit(Line([a], []), slots, 0), Edit(Line([b], []), slots, 0);
    TypedFirst(slots, SingleLine.Unpainted, a, w);
    TypedFirst(slots, SingleLine.Repainted, b, w);
    ErasedLast(slots, SingleLine.Repainted, a, w);
    GlyphTyped([a, DEL, b]);
    GlyphTyped([b]);
    hide Session, AfterKey, Decode;
    assert [a, DEL, b][1..] == [DEL, b] && [DEL, b][1..] == [b] && [b][1..] == none;
    OneKey(e0, SingleLine.Unpainted, [a, DEL, b], w, Typed(a), Course(e1, More, SingleLine.Repainted, false));
    DelErases([DEL, b]);
    OneKey(e1, SingleLine.Repainted, [DEL, b], w, EraseLeft, Course(e0, More, SingleLine.Repainted, false));
    OneKey(e0, SingleLine.Repainted, [b], w, Typed(b), Course(e2, More, SingleLine.Shifted, false));
    NoKey(e2, SingleLine.Shifted, w);
  }

  lemma GlyphTyped(input: string)
    requires input != [] && Terminal.Glyph(input[0])
    ensures Decode(input) == (Typed(input[0]), 1)
  {
  }

  lemma DelErases(input: string)
    requires input != [] && input[0] == DEL
    ensures Decode(input) == (EraseLeft, 1)
  {
  }

  lemma TypedFirst(slots: seq<string>, row: SingleLine.Row, c: char, w: Setup)
    requires !w.multi && w.plen == 0 && w.cols > 2 && w.cap > 0 && slots != []
    ensures AfterKey(Edit(Line([], []), slots, 0), row, false, Typed(c), w)
         == Course(Edit(Line([c], []), slots, 0), More, SingleLine.EchoRow(row, true), false)
  {
    var none: string := [];
    assert none + [c] == [c] && none + none == none;
  }

  lemma ErasedLast(slots: seq<string>, row: SingleLine.Row, c: char, w: Setup)
    requires slots != []
    ensures AfterKey(Edit(Line([c], []), slots, 0), row, false, EraseLeft, w)
         == Course(Edit(Line([], []), slots, 0), More, SingleLine.Repainted, false)
  {
    assert [c][..0] == [];
  }

  lemma OneKey(e: Edit, row: SingleLine.Row, input: string, w: Setup, k: Key, next: Course)
    requires e.Valid() && input != [] && Decode(input) == (k, 1)
    requires AfterKey(e, row, false, k, w) == next && next.outcome.More? && next.edit.Valid()
    ensures Session(e, row, false, input, w) == Session(next.edit, next.row, next.cleared, input[1..], w)
  {
    hide AfterKey, Decode;
  }

  lemma NoKey(e: Edit, row: SingleLine.Row, w: Setup)
    requires e.Valid()
    ensures Session(e, row, false, [], w) == Course(e, Closed, row, false)
  {
  }
}

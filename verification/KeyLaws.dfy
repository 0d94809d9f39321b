/** What each key does, from the bytes read to the text and the position in it. */
module KeyLaws {
  import opened Arith
  import opened Ascii
  import opened HistoryNav
  import opened Keys
  import opened LineText
  import opened Memory
  import SingleLine
  import Terminal

  /** What the key at the front of the input makes of an edit. */
  function Pressed(e: Edit, input: string, w: Setup): (Edit, Outcome)
    requires e.Valid() && input != []
  {
    Apply(e, Decode(input).0, w.cap, w.multi)
  }

  /** Editing goes on with this text, this position, and the history as it was. */
  predicate Becomes(e: Edit, r: (Edit, Outcome), text: string, pos: int) {
    && r.1 == More && r.0.line.Text() == text && |r.0.line.before| == pos
    && r.0.slots == e.slots && r.0.index == e.index
  }

  predicate Starts(input: string, bytes: string) { bytes <= input }

  // ---- Moving ----

  lemma MovingKeys(e: Edit, input: string, w: Setup)
    requires e.Valid() && input != []
    ensures var t, p, b, r := e.line.Text(), |e.line.before|, input[0] as int, Pressed(e, input, w);
            && (b == 1 || Starts(input, [ESC, '[', 'H']) || Starts(input, [ESC, 'O', 'H']) ==> Becomes(e, r, t, 0))
            && (b == 5 || Starts(input, [ESC, '[', 'F']) || Starts(input, [ESC, 'O', 'F']) ==> Becomes(e, r, t, |t|))
            && (b == 2 || Starts(input, [ESC, '[', 'D']) ==> Becomes(e, r, t, Max(p - 1, 0)))
            && (b == 6 || Starts(input, [ESC, '[', 'C']) ==> Becomes(e, r, t, Min(p + 1, |t|)))
            && (b == 12 ==> Becomes(e, r, t, p))
  {
    MoveTexts(e.line);
    DecodesMoves(input);
    hide Decode, Starts, Left, Right, Home, End, Line.Text;
  }

  lemma DecodesMoves(input: string)
    requires input != []
    ensures var b, k := input[0] as int, Decode(input).0;
            && (b == 1 || Starts(input, [ESC, '[', 'H']) || Starts(input, [ESC, 'O', 'H']) ==> k == GoHome)
            && (b == 5 || Starts(input, [ESC, '[', 'F']) || Starts(input, [ESC, 'O', 'F']) ==> k == GoEnd)
            && (b == 2 || Starts(input, [ESC, '[', 'D']) ==> k == GoLeft)
            && (b == 6 || Starts(input, [ESC, '[', 'C']) ==> k == GoRight)
            && (b == 16 || Starts(input, [ESC, '[', 'A']) ==> k == Older)
            && (b == 14 || Starts(input, [ESC, '[', 'B']) ==> k == Newer)
            && (b == 12 ==> k == Redraw)
  {
    if |input| >= 3 && input[0] == ESC {
      assert input[..3] == [ESC, input[1], input[2]];
      assert forall c, d :: Starts(input, [ESC, c, d]) ==> input[..3] == [ESC, c, d] && input[1] == c && input[2] == d;
    }
  }

  lemma MoveTexts(l: Line)
    ensures Home(l).Text() == End(l).Text() == Left(l).Text() == Right(l).Text() == l.Text()
    ensures |Home(l).before| == 0 && |End(l).before| == |l.Text()|
    ensures |Left(l).before| == Max(|l.before| - 1, 0)
    ensures |Right(l).before| == Min(|l.before| + 1, |l.Text()|)
  {
    MovesUndone(l);
  }

  // ---- Cutting and typing ----

  /** Deleting one byte of a text. */
  function Without(t: string, i: nat): string
    requires i < |t|
  {
    t[..i] + t[i + 1..]
  }

  /** Ctrl-U empties the line, Ctrl-K drops what is behind the cursor, Ctrl-T exchanges
      the bytes on either side of it. */
  lemma CuttingKeys(e: Edit, input: string, w: Setup)
    requires e.Valid() && input != []
    ensures var t, p, b, r := e.line.Text(), |e.line.before|, input[0] as int, Pressed(e, input, w);
            && (b == 21 ==> Becomes(e, r, [], 0))
            && (b == 11 ==> Becomes(e, r, t[..p], p))
            && (b == 20 ==>
                  if 0 < p < |t| then
                    Becomes(e, r, t[p - 1 := t[p]][p := t[p - 1]], if p == |t| - 1 then p else p + 1)
                  else Becomes(e, r, t, p))
  {
    KillTexts(e.line);
    ExchangeText(e.line);
    DecodesCuts(input);
    LineKeyBecomes(e, Decode(input).0, w);
    hide Becomes, Decode, Starts, Apply, Transpose, KillEnd, Line.Text;
  }

  /** Backspace and Ctrl-H take the byte before the cursor. */
  lemma BackspaceKeys(e: Edit, input: string, w: Setup)
    requires e.Valid() && input != [] && (input[0] as int == 8 || input[0] as int == 127)
    ensures var t, p := e.line.Text(), |e.line.before|;
            Becomes(e, Pressed(e, input, w), if p > 0 then Without(t, p - 1) else t, Max(p - 1, 0))
  {
    EraseTexts(e.line);
    DecodesCuts(input);
    LineKeyBecomes(e, EraseLeft, w);
    hide Becomes, Decode, Starts, Apply, Backspace, Delete, Line.Text, Without;
  }

  /** Ctrl-D, on a line that is not empty, and the Delete key take the byte at the cursor. */
  lemma DeleteKeys(e: Edit, input: string, w: Setup)
    requires e.Valid() && input != []
    requires (input[0] as int == 4 && e.line.Text() != []) || Starts(input, [ESC, '[', '3', '~'])
    ensures var t, p := e.line.Text(), |e.line.before|;
            Becomes(e, Pressed(e, input, w), if p < |t| then Without(t, p) else t, p)
  {
    EraseTexts(e.line);
    DecodesCuts(input);
    LineKeyBecomes(e, Decode(input).0, w);
    hide Becomes, Decode, Starts, Apply, Backspace, Delete, Line.Text, Without;
  }

  lemma LineKeyBecomes(e: Edit, k: Key, w: Setup)
    requires e.Valid()
    ensures var r := Apply(e, k, w.cap, w.multi);
            && (k.EraseHereOrEof? && e.line.Text() != [] ==>
                  Becomes(e, r, Delete(e.line).Text(), |Delete(e.line).before|))
            && (k.EraseLeft? || k.EraseHere? || k.Exchange? || k.KillAll? || k.KillRest? ==>
                  Becomes(e, r, LineAfter(e.line, k, w.cap).Text(), |LineAfter(e.line, k, w.cap).before|))
  {
    hide LineAfter, Delete, Line.Text;
  }

  lemma DecodesCuts(input: string)
    requires input != []
    ensures var b, k := input[0] as int, Decode(input).0;
            && (b == 21 ==> k == KillAll) && (b == 11 ==> k == KillRest) && (b == 20 ==> k == Exchange)
            && (b == 8 || b == 127 ==> k == EraseLeft) && (b == 4 ==> k == EraseHereOrEof)
            && (Starts(input, [ESC, '[', '3', '~']) ==> k == EraseHere)
  {
    StartsFour(input, ESC, '[', '3', '~');
    hide Starts;
  }

  lemma KillTexts(l: Line)
    ensures KillLine().Text() == [] && KillLine().before == []
    ensures KillEnd(l).Text() == l.Text()[..|l.before|] && KillEnd(l).before == l.before
  {
  }

  lemma EraseTexts(l: Line)
    ensures var t, p := l.Text(), |l.before|;
            && Backspace(l).Text() == (if p > 0 then Without(t, p - 1) else t)
            && |Backspace(l).before| == Max(p - 1, 0)
            && Delete(l).Text() == (if p < |t| then Without(t, p) else t) && |Delete(l).before| == p
  {
    var t, p := l.Text(), |l.before|;
    assert LineAt(t, p) == l;
    CutsAt(t, p);
    AtEnds(l);
    if p > 0 {
      TextAt(Without(t, p - 1), p - 1);
      BeforeLength(Without(t, p - 1), p - 1);
    }
    if p < |t| {
      TextAt(Without(t, p), p);
      BeforeLength(Without(t, p), p);
    }
    hide Backspace, Delete, LineAt;
  }

  lemma ExchangeText(l: Line)
    ensures var t, p := l.Text(), |l.before|;
            && Transpose(l).Text() == (if 0 < p < |t| then t[p - 1 := t[p]][p := t[p - 1]] else t)
            && |Transpose(l).before| == if 0 < p < |t| - 1 then p + 1 else p
  {
    var t, p := l.Text(), |l.before|;
    assert LineAt(t, p) == l;
    AtEnds(l);
    if 0 < p < |t| {
      TransposeAt(t, p);
      var u, q := t[p - 1 := t[p]][p := t[p - 1]], if p == |t| - 1 then p else p + 1;
      hide Transpose, LineAt;
      TextAt(u, q);
      BeforeLength(u, q);
    }
  }

  lemma BeforeLength(s: string, p: nat)
    requires p <= |s|
    ensures |LineAt(s, p).before| == p
  {
  }

  lemma AtEnds(l: Line)
    ensures l.before == [] ==> Backspace(l) == l && Transpose(l) == l
    ensures l.after == [] ==> Delete(l) == l && Transpose(l) == l
  {
  }

  /** Ctrl-W removes the word that ends at the cursor and the blanks behind it, and
      nothing else: what is left of the cursor ends between words. */
  lemma WordKey(e: Edit, input: string, w: Setup, kept: string)
    requires e.Valid() && input != [] && input[0] as int == 23
    ensures var t, p := e.line.Text(), |e.line.before|;
            Becomes(e, Pressed(e, input, w), kept + t[p..], |kept|) <==>
            exists word, gap :: WordCut(t[..p], kept, word, gap)
  {
    var t, p := e.line.Text(), |e.line.before|;
    assert t[..p] == e.line.before && t[p..] == e.line.after;
    DeleteWordIff(e.line, kept);
    var l := DeletePrevWord(e.line);
    assert Decode(input).0 == EraseWord && l.after == e.line.after;
    hide DeletePrevWord, WordCut, Decode, Line.Text;
    KeptIs(l, kept, e.line.after);
  }

  lemma KeptIs(l: Line, kept: string, after: string)
    requires l.after == after
    ensures l == Line(kept, after) <==> l.Text() == kept + after && |l.before| == |kept|
  {
    if l.Text() == kept + after && |l.before| == |kept| {
      assert l.Text()[..|kept|] == l.before && (kept + after)[..|kept|] == kept;
    }
  }

  /** The bytes that are keys of their own. */
  const CONTROLS: set<int> := {1, 2, 3, 4, 5, 6, 8, 11, 12, 13, 14, 16, 20, 21, 23, 27, 127}

  /** Any other byte is put at the cursor, if the buffer has room. */
  lemma TypingKey(e: Edit, input: string, w: Setup)
    requires e.Valid() && input != [] && input[0] as int !in CONTROLS
    ensures var t, p := e.line.Text(), |e.line.before|;
            if |t| < w.cap then Becomes(e, Pressed(e, input, w), t[..p] + [input[0]] + t[p..], p + 1)
            else Becomes(e, Pressed(e, input, w), t, p)
  {
    var t, p, c := e.line.Text(), |e.line.before|, input[0];
    assert t[..p] == e.line.before && t[p..] == e.line.after;
    assert Decode(input).0 == Typed(c);
  }

  // ---- Keys that end, keys that do nothing ----

  lemma EndingKeys(e: Edit, input: string, w: Setup)
    requires e.Valid() && input != []
    ensures var t, p, n, b, r := e.line.Text(), |e.line.before|, |e.slots|, input[0] as int, Pressed(e, input, w);
            && (b == 3 ==> r == (e, Interrupted))
            && (b == 4 && t == [] ==> r == (e.(slots := e.slots[..n - 1]), EndOfFile))
            && (b == 13 ==>
                  && r.1.Done? && r.0.slots == e.slots[..n - 1] && r.0.index == e.index
                  && r.0.line.Text() == t && |r.0.line.before| == (if w.multi then |t| else p)
                  && r.1.line <= t && NUL !in r.1.line && (r.1.line != t ==> t[|r.1.line|] == NUL))
  {
    MoveTexts(e.line);
  }

  /** An escape sequence that spells no key is dropped. */
  lemma OtherEscapes(e: Edit, input: string, w: Setup)
    requires e.Valid() && input != [] && input[0] == ESC
    requires forall c :: c in "ABCDHF" ==> !Starts(input, [ESC, '[', c])
    requires !Starts(input, [ESC, 'O', 'H']) && !Starts(input, [ESC, 'O', 'F'])
    requires !Starts(input, [ESC, '[', '3', '~'])
    ensures Pressed(e, input, w) == (e, More)
  {
    forall c, d
      ensures Starts(input, [ESC, c, d]) <==> |input| >= 3 && input[1] == c && input[2] == d
    {
      StartsThree(input, ESC, c, d);
    }
    StartsFour(input, ESC, '[', '3', '~');
    var finals := "ABCDHF";
    assert 'A' in finals && 'B' in finals && 'C' in finals && 'D' in finals && 'H' in finals && 'F' in finals;
    hide Starts;
  }

  lemma StartsThree(input: string, a: char, b: char, c: char)
    ensures Starts(input, [a, b, c]) <==> |input| >= 3 && input[0] == a && input[1] == b && input[2] == c
  {
    if |input| >= 3 { assert input[..3] == [input[0], input[1], input[2]]; }
  }

  lemma StartsFour(input: string, a: char, b: char, c: char, d: char)
    ensures Starts(input, [a, b, c, d]) <==>
            |input| >= 4 && input[0] == a && input[1] == b && input[2] == c && input[3] == d
  {
    if |input| >= 4 { assert input[..4] == [input[0], input[1], input[2], input[3]]; }
  }

  /** How many bytes a key takes: one, or an escape sequence as far as it is there. */
  lemma KeyLength(input: string)
    requires input != []
    ensures Decode(input).1 ==
            if input[0] != ESC then 1
            else if |input| < 3 then |input|
            else if input[1] == '[' && '0' <= input[2] <= '9' then Min(4, |input|)
            else 3
  {
  }

  // ---- The history keys ----

  /** The text is kept in its slot and the next older or newer slot is shown, cut to what
      the buffer holds, with the cursor at its end; at either end only the first is done. */
  lemma HistoryKeys(e: Edit, input: string, w: Setup)
    requires e.Valid() && input != [] && w.cap > 0 && NUL !in e.line.Text()
    requires forall s :: s in e.slots ==> NUL !in s
    ensures var older := input[0] as int == 16 || Starts(input, [ESC, '[', 'A']);
            var newer := input[0] as int == 14 || Starts(input, [ESC, '[', 'B']);
            older || newer ==>
              var r, n := Pressed(e, input, w), |e.slots|;
              var kept := e.slots[n - 1 - e.index := e.line.Text()];
              var i := if older then e.index + 1 else e.index - 1;
              r.1 == More &&
              if n <= 1 then r.0 == e
              else if i < 0 || i >= n then r.0 == e.(slots := kept)
              else
                && r.0.slots == kept && r.0.index == i
                && r.0.line.Text() == kept[n - 1 - i][..Min(|kept[n - 1 - i]|, w.cap - 1)]
                && r.0.line.after == []
  {
    DecodesMoves(input);
    HistoryEffect(e, true, w);
    HistoryEffect(e, false, w);
    hide Decode, Starts, Apply, LineText.Line.Text;
  }

  lemma HistoryEffect(e: Edit, older: bool, w: Setup)
    requires e.Valid() && w.cap > 0 && NUL !in e.line.Text() && forall s :: s in e.slots ==> NUL !in s
    ensures var r, n := Apply(e, if older then Older else Newer, w.cap, w.multi), |e.slots|;
            var kept := e.slots[n - 1 - e.index := e.line.Text()];
            var i := if older then e.index + 1 else e.index - 1;
            r.1 == More &&
            if n <= 1 then r.0 == e
            else if i < 0 || i >= n then r.0 == e.(slots := kept)
            else
              && r.0.slots == kept && r.0.index == i
              && r.0.line.Text() == kept[n - 1 - i][..Min(|kept[n - 1 - i]|, w.cap - 1)]
              && r.0.line.after == []
  {
    WalkedCases(e, older, w.cap);
    ShownSlot(e, if older then e.index + 1 else e.index - 1, w.cap);
    hide Walked, HistoryNav.Turns, Edit.Nav, Edit.Saved, Edit.Shows, LineText.Line.Text;
  }

  /** Slot `i` after the text was written back to its own. */
  lemma ShownSlot(e: Edit, i: int, cap: nat)
    requires e.Valid() && cap > 0 && NUL !in e.line.Text() && forall s :: s in e.slots ==> NUL !in s
    ensures var kept := e.slots[|e.slots| - 1 - e.index := e.line.Text()];
            && e.Saved() == e.(slots := kept)
            && (0 <= i < |e.slots| ==>
                  var r := e.Saved().Shows(i, cap);
                  && r.slots == kept && r.index == i && r.line.after == []
                  && r.line.Text() == kept[|kept| - 1 - i][..Min(|kept[|kept| - 1 - i]|, cap - 1)])
  {
    var kept := e.slots[|e.slots| - 1 - e.index := e.line.Text()];
    assert CString(e.line.Text()) == e.line.Text();
    if 0 <= i < |e.slots| {
      var s := kept[|kept| - 1 - i];
      assert NUL !in s;
      assert CString(s) == s;
    }
  }

  // ---- Sessions ----

  /** A session goes on behind the bytes of a key that does not end it. */
  lemma SessionGoesOn(e: Edit, row: SingleLine.Row, cleared: bool, input: string, w: Setup)
    requires e.Valid() && input != [] && Pressed(e, input, w).1 == More
    ensures Pressed(e, input, w).0.Valid()
    ensures var row', cleared' := RowAfter(e, row, Decode(input).0, w), cleared || input[0] as int == 12;
            Session(e, row, cleared, input, w)
            == Session(Pressed(e, input, w).0, row', cleared', input[Decode(input).1..], w)
  {
    ApplyKeeps(e, Decode(input).0, w.cap, w.multi);
    assert Decode(input).0.Redraw? <==> input[0] as int == 12;
    hide Decode, Apply, RowAfter;
  }

  lemma SessionStops(e: Edit, row: SingleLine.Row, cleared: bool, input: string, w: Setup)
    requires e.Valid()
    ensures input == [] ==> Session(e, row, cleared, input, w) == Course(e, Closed, row, cleared)
    ensures input != [] && Pressed(e, input, w).1 != More ==>
              var end := Session(e, row, cleared, input, w);
              (end.edit, end.outcome) == Pressed(e, input, w)
  {
    hide Decode, Apply, RowAfter;
  }

  /** What is typed behind a line and entered is returned, byte for byte, as long as the
      buffer has room for it. */
  lemma {:induction false} TypedIsReturned(e: Edit, row: SingleLine.Row, cleared: bool, s: string, w: Setup)
    requires e.Valid() && e.line.after == [] && |e.line.Text()| + |s| <= w.cap
    requires NUL !in e.line.Text() && forall i :: 0 <= i < |s| ==> Terminal.Glyph(s[i])
    ensures Session(e, row, cleared, s + [13 as char], w).outcome == Done(e.line.Text() + s)
    decreases |s|
  {
    var input := s + [13 as char];
    if s == [] {
      EndingKeys(e, input, w);
      SessionStops(e, row, cleared, input, w);
      assert e.line.Text() + s == e.line.Text();
    } else {
      TypedOne(e, s, w);
      SessionGoesOn(e, row, cleared, input, w);
      var e', row', cleared' := Pressed(e, input, w).0, RowAfter(e, row, Decode(input).0, w),
                                cleared || input[0] as int == 12;
      assert Terminal.Glyph(s[0]) && forall i :: 0 <= i < |s[1..]| ==> s[1..][i] == s[i + 1];
      hide Session, Pressed, RowAfter, Decode, LineText.Line.Text;
      TypedIsReturned(e', row', cleared', s[1..], w);
    }
  }

  /** One more byte behind the line. */
  lemma TypedOne(e: Edit, s: string, w: Setup)
    requires e.Valid() && e.line.after == [] && s != [] && |e.line.Text()| + |s| <= w.cap
    requires NUL !in e.line.Text() && Terminal.Glyph(s[0])
    ensures var input, t := s + [13 as char], e.line.Text();
            var e' := Pressed(e, input, w).0;
            && Pressed(e, input, w).1 == More && e'.line.after == [] && e'.line.Text() == t + [s[0]]
            && Decode(input).1 == 1 && input[1..] == s[1..] + [13 as char]
            && t + [s[0]] + s[1..] == t + s && NUL !in t + [s[0]]
  {
    var input, t, p := s + [13 as char], e.line.Text(), |e.line.before|;
    TypingKey(e, input, w);
    KeyLength(input);
    assert t[p..] == [] && t[..p] == t;
    assert s == [s[0]] + s[1..];
    var l := Pressed(e, input, w).0.line;
    hide Pressed, Decode;
    assert |l.before| == |l.Text()|;
  }

  /** When a key that moves or cuts repaints the line: when there is something for it to
      act on, and a few of them always. */
  lemma RepaintingKeys(e: Edit, input: string, w: Setup)
    requires e.Valid() && input != []
    ensures var t, p, b, r := e.line.Text(), |e.line.before|, input[0] as int, Repaints(e, Decode(input).0, w);
            && (b in {1, 2, 8, 127} ==> (r <==> p > 0))
            && (b in {4, 5, 6} ==> (r <==> p < |t|))
            && (b == 20 ==> (r <==> 0 < p < |t|))
            && (b in {11, 12, 21, 23} ==> r)
            && (b == 3 ==> !r)
            && (b == 13 ==> (r <==> w.multi && p < |t|))
  {
  }

  /** When the one-byte shortcut is taken, and what it makes of the row. */
  lemma TypingRow(e: Edit, row: SingleLine.Row, c: char, w: Setup)
    requires e.Valid() && |e.line.Text()| < w.cap
    ensures var n := |e.line.Text()|;
            var short := !w.multi && |e.line.before| == n && w.plen + n + 1 < w.cols;
            RowAfter(e, row, Typed(c), w) ==
            if !short then SingleLine.Repainted
            else if row.Shifted? || (row.Repainted? && w.plen + n == 0) then SingleLine.Shifted
            else SingleLine.Repainted
  {
  }
}

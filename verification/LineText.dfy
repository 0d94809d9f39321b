/** What the editing keys mean, on the text before and after the cursor. */
module LineText {

  datatype Line = Line(before: string, after: string)
  {
    function Text(): string { before + after }
  }

  const SPACE: char := ' '

  function Insert(l: Line, c: char, cap: nat): Line {
    if |l.Text()| < cap then Line(l.before + [c], l.after) else l
  }

  function Left(l: Line): Line {
    if l.before == [] then l
    else Line(l.before[..|l.before| - 1], [l.before[|l.before| - 1]] + l.after)
  }

  function Right(l: Line): Line {
    if l.after == [] then l else Line(l.before + [l.after[0]], l.after[1..])
  }

  function Home(l: Line): Line { Line([], l.Text()) }

  function End(l: Line): Line { Line(l.Text(), []) }

  function Backspace(l: Line): Line {
    if l.before == [] then l else Line(l.before[..|l.before| - 1], l.after)
  }

  function Delete(l: Line): Line {
    if l.after == [] then l else Line(l.before, l.after[1..])
  }

  /** Exchange the characters around the cursor; step over them unless at the end. */
  function Transpose(l: Line): Line {
    if l.before == [] || l.after == [] then l
    else
      var k := |l.before| - 1;
      var a, x, y := l.before[..k], l.before[k], l.after[0];
      if |l.after| == 1 then Line(a + [y], [x]) else Line(a + [y] + [x], l.after[1..])
  }

  function KillLine(): Line { Line([], []) }

  function KillEnd(l: Line): Line { Line(l.before, []) }

  function DropSpaces(s: string): string {
    if s != [] && s[|s| - 1] == SPACE then DropSpaces(s[..|s| - 1]) else s
  }

  function DropWord(s: string): string {
    if s != [] && s[|s| - 1] != SPACE then DropWord(s[..|s| - 1]) else s
  }

  function DeletePrevWord(l: Line): Line { Line(DropWord(DropSpaces(l.before)), l.after) }

  // ---- The same on one string and a position in it ----

  function LineAt(s: string, p: nat): Line
    requires p <= |s|
  {
    Line(s[..p], s[p..])
  }

  lemma TextAt(s: string, p: nat)
    requires p <= |s|
    ensures LineAt(s, p).Text() == s
  {
  }

  lemma InsertAt(s: string, p: nat, c: char, cap: nat)
    requires p <= |s| < cap
    ensures Insert(LineAt(s, p), c, cap) == LineAt(s[..p] + [c] + s[p..], p + 1)
  {
    TextAt(s, p);
    var t := s[..p] + [c] + s[p..];
    assert t[..p + 1] == s[..p] + [c] && t[p + 1..] == s[p..];
  }

  lemma MovesAt(s: string, p: nat)
    requires p <= |s|
    ensures p > 0 ==> Left(LineAt(s, p)) == LineAt(s, p - 1)
    ensures p < |s| ==> Right(LineAt(s, p)) == LineAt(s, p + 1)
    ensures Home(LineAt(s, p)) == LineAt(s, 0) && End(LineAt(s, p)) == LineAt(s, |s|)
  {
    TextAt(s, p);
    if p > 0 {
      assert s[..p][..p - 1] == s[..p - 1] && s[p - 1..] == [s[p - 1]] + s[p..];
    }
    if p < |s| {
      assert s[p..][1..] == s[p + 1..] && s[..p + 1] == s[..p] + [s[p]];
    }
  }

  lemma CutsAt(s: string, p: nat)
    requires p <= |s|
    ensures p > 0 ==> Backspace(LineAt(s, p)) == LineAt(s[..p - 1] + s[p..], p - 1)
    ensures p < |s| ==> Delete(LineAt(s, p)) == LineAt(s[..p] + s[p + 1..], p)
    ensures KillEnd(LineAt(s, p)) == LineAt(s[..p], p)
  {
    if p > 0 {
      var t := s[..p - 1] + s[p..];
      assert s[..p][..p - 1] == s[..p - 1] == t[..p - 1] && t[p - 1..] == s[p..];
    }
    if p < |s| {
      var t := s[..p] + s[p + 1..];
      assert s[p..][1..] == s[p + 1..] == t[p..] && t[..p] == s[..p];
    }
  }

  lemma TransposeAt(s: string, p: nat)
    requires 0 < p < |s|
    ensures var t := s[p - 1 := s[p]][p := s[p - 1]];
            Transpose(LineAt(s, p)) == LineAt(t, if p == |s| - 1 then p else p + 1)
  {
    var t := s[p - 1 := s[p]][p := s[p - 1]];
    assert s[..p][..p - 1] == s[..p - 1] && s[p..][1..] == s[p + 1..];
    if p == |s| - 1 {
      assert t[..p] == s[..p - 1] + [s[p]] && t[p..] == [s[p - 1]];
    } else {
      assert t[..p + 1] == s[..p - 1] + [s[p]] + [s[p - 1]] && t[p + 1..] == s[p + 1..];
    }
  }

  lemma EmptyDrops()
    ensures DropSpaces([]) == [] && DropWord([]) == []
  {
  }

  lemma DropStep(s: string, p: nat)
    requires 0 < p <= |s|
    ensures s[p - 1] == SPACE ==> DropSpaces(s[..p]) == DropSpaces(s[..p - 1]) && DropWord(s[..p]) == s[..p]
    ensures s[p - 1] != SPACE ==> DropWord(s[..p]) == DropWord(s[..p - 1]) && DropSpaces(s[..p]) == s[..p]
  {
    assert s[..p][..p - 1] == s[..p - 1];
  }

  lemma WordCutAt(s: string, p: nat, q: nat)
    requires q <= p <= |s| && DropWord(DropSpaces(s[..p])) == s[..q]
    ensures DeletePrevWord(LineAt(s, p)) == LineAt(s[..q] + s[p..], q)
  {
    var t := s[..q] + s[p..];
    assert t[..q] == s[..q] && t[q..] == s[p..];
  }

  // ---- Laws ----

  predicate AllSpaces(s: string) { forall i :: 0 <= i < |s| ==> s[i] == SPACE }

  predicate NoSpaces(s: string) { forall i :: 0 <= i < |s| ==> s[i] != SPACE }

  lemma {:induction false} DropSpacesSplits(s: string)
    ensures var k := DropSpaces(s);
            k <= s && AllSpaces(s[|k|..]) && (k != [] ==> k[|k| - 1] != SPACE)
  {
    if s != [] && s[|s| - 1] == SPACE {
      var n, k := |s| - 1, |DropSpaces(s)|;
      DropSpacesSplits(s[..n]);
      assert s[k..] == s[..n][k..] + [s[n]];
    }
  }

  lemma {:induction false} DropWordSplits(s: string)
    ensures var k := DropWord(s);
            k <= s && NoSpaces(s[|k|..]) && (k != [] ==> k[|k| - 1] == SPACE)
  {
    if s != [] && s[|s| - 1] != SPACE {
      var n, k := |s| - 1, |DropWord(s)|;
      DropWordSplits(s[..n]);
      assert s[k..] == s[..n][k..] + [s[n]];
    }
  }

  /** `before` is `kept`, then a word, then blanks; `kept` ends between words. */
  predicate WordCut(before: string, kept: string, word: string, gap: string) {
    && before == kept + word + gap && NoSpaces(word) && AllSpaces(gap)
    && (kept != [] ==> kept[|kept| - 1] == SPACE)
    && (word == [] ==> kept == [])
  }

  /** Deleting a word removes exactly one maximal run of non-blanks and the blanks
      behind it, up to the cursor; what is kept is the only text with that property. */
  lemma DeleteWordIff(l: Line, kept: string)
    ensures DeletePrevWord(l) == Line(kept, l.after) <==>
            exists word, gap :: WordCut(l.before, kept, word, gap)
  {
    var m := DropSpaces(l.before);
    var k := DropWord(m);
    DropSpacesSplits(l.before);
    DropWordSplits(m);
    hide DropSpaces, DropWord;
    assert l.before == k + m[|k|..] + l.before[|m|..];
    assert WordCut(l.before, k, m[|k|..], l.before[|m|..]);
    forall word, gap | WordCut(l.before, kept, word, gap)
      ensures k == kept
    {
      SplitUnique(l.before, kept, word, gap, m, k);
    }
  }

  /** A string as text, a word from `j` to `n`, and blanks. */
  predicate SplitAt(s: string, j: nat, n: nat) {
    && j <= n <= |s|
    && (forall i :: n <= i < |s| ==> s[i] == SPACE) && (n > 0 ==> s[n - 1] != SPACE)
    && (forall i :: j <= i < n ==> s[i] != SPACE) && (j > 0 ==> s[j - 1] == SPACE)
  }

  lemma SplitAtUnique(s: string, j: nat, n: nat, k: nat, m: nat)
    requires SplitAt(s, j, n) && SplitAt(s, k, m)
    ensures j == k && n == m
  {
  }

  lemma CutSplits(s: string, kept: string, word: string, gap: string)
    requires WordCut(s, kept, word, gap)
    ensures kept <= s && SplitAt(s, |kept|, |kept| + |word|)
  {
    var n := |kept| + |word|;
    assert forall i :: |kept| <= i < n ==> word[i - |kept|] == s[i];
    assert forall i :: n <= i < |s| ==> gap[i - n] == s[i];
  }

  lemma DropSplits(s: string, m: string, k: string)
    requires m <= s && AllSpaces(s[|m|..]) && (m != [] ==> m[|m| - 1] != SPACE)
    requires k <= m && NoSpaces(m[|k|..]) && (k != [] ==> k[|k| - 1] == SPACE)
    ensures k <= s && SplitAt(s, |k|, |m|)
  {
    assert forall i :: |m| <= i < |s| ==> s[|m|..][i - |m|] == s[i];
    assert forall i :: |k| <= i < |m| ==> m[|k|..][i - |k|] == s[i];
  }

  lemma SplitUnique(s: string, kept: string, word: string, gap: string, m: string, k: string)
    requires WordCut(s, kept, word, gap)
    requires m <= s && AllSpaces(s[|m|..]) && (m != [] ==> m[|m| - 1] != SPACE)
    requires k <= m && NoSpaces(m[|k|..]) && (k != [] ==> k[|k| - 1] == SPACE)
    ensures k == kept
  {
    CutSplits(s, kept, word, gap);
    DropSplits(s, m, k);
    SplitAtUnique(s, |kept|, |kept| + |word|, |k|, |m|);
  }

  /** Ctrl-T exchanges the two bytes at the cursor, and so conserves the text's bytes. */
  lemma TransposeConserves(l: Line)
    requires l.before != [] && l.after != []
    ensures var k := |l.before| - 1;
            Transpose(l).Text() == l.before[..k] + [l.after[0]] + [l.before[k]] + l.after[1..]
    ensures multiset(Transpose(l).Text()) == multiset(l.Text())
  {
    var k := |l.before| - 1;
    var a, x, y, b := l.before[..k], l.before[k], l.after[0], l.after[1..];
    assert l.before == a + [x];
    assert l.after == [y] + b;
    assert |l.after| == 1 ==> b == [];
    TextsOfExchange(a, x, y, b);
  }

  lemma TextsOfExchange(a: string, x: char, y: char, b: string)
    ensures a + [y] + ([x] + b) == a + [y] + [x] + b
    ensures multiset(a + [y] + [x] + b) == multiset((a + [x]) + ([y] + b))
    ensures a + [y] + [x] == a + [y] + [x] + []
  {
    assert (a + [x]) + ([y] + b) == a + [x] + [y] + b;
  }

  /** Backspace and Delete undo an insertion from either side of it. */
  lemma InsertUndone(l: Line, c: char, cap: nat)
    requires |l.Text()| < cap
    ensures Backspace(Insert(l, c, cap)) == l
    ensures Delete(Left(Insert(l, c, cap))) == l
  {
    var b := l.before + [c];
    assert b[..|b| - 1] == l.before;
  }

  /** The two moves are inverse and keep the text. */
  lemma MovesUndone(l: Line)
    ensures l.before != [] ==> Right(Left(l)) == l && Left(l).Text() == l.Text()
    ensures l.after != [] ==> Left(Right(l)) == l && Right(l).Text() == l.Text()
  {
    if l.before != [] { MovePair(l.before[..|l.before| - 1], l.before[|l.before| - 1], l.after); }
    if l.after != [] { MovePair(l.before, l.after[0], l.after[1..]); }
    assert l.before != [] ==> l.before == l.before[..|l.before| - 1] + [l.before[|l.before| - 1]];
    assert l.after != [] ==> l.after == [l.after[0]] + l.after[1..];
  }

  lemma MovePair(a: string, c: char, b: string)
    ensures Right(Line(a, [c] + b)) == Line(a + [c], b)
    ensures Left(Line(a + [c], b)) == Line(a, [c] + b)
    ensures a + ([c] + b) == (a + [c]) + b
  {
    assert (a + [c])[..|a|] == a;
    assert ([c] + b)[1..] == b;
  }

  /** Deleting ahead is stepping over the byte and deleting behind. */
  lemma DeleteIsBackspaceAhead(l: Line)
    requires l.after != []
    ensures Backspace(Right(l)) == Delete(l)
  {
    assert (l.before + [l.after[0]])[..|l.before|] == l.before;
  }
}

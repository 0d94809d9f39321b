/** Moving through the history while editing: the line in the buffer stands for one
    slot, which is written back before another is shown. */
module HistoryNav {
  import opened Arith
  import opened Ascii
  import opened Memory

  /** `index` counts from the newest slot; `text` is what the buffer holds. */
  datatype Nav = Nav(slots: seq<string>, index: nat, text: string)
  {
    predicate Valid() { index < |slots| }

    function Focus(): nat
      requires Valid()
    {
      |slots| - 1 - index
    }
  }

  /** A line as the buffer can hold it after strncpy and the closing NUL. */
  function Fit(line: string, cap: nat): string {
    var s := CString(line);
    s[..Min(|s|, Max(0, cap - 1))]
  }

  /** There is a slot to go to. */
  predicate Turns(n: Nav, prev: bool)
    requires n.Valid()
  {
    |n.slots| > 1 && if prev then n.index + 1 < |n.slots| else n.index > 0
  }

  /** linenoiseEditHistoryNext in either direction. */
  function Move(n: Nav, prev: bool, cap: nat): (n': Nav)
    requires n.Valid()
    ensures n'.Valid() && |n'.slots| == |n.slots|
  {
    if |n.slots| <= 1 then n
    else
      var s := n.slots[n.Focus() := CString(n.text)];
      if !Turns(n, prev) then Nav(s, n.index, n.text)
      else
        var i := if prev then n.index + 1 else n.index - 1;
        Nav(s, i, Fit(s[|s| - 1 - i], cap))
  }

  // ---- The vector it refines ----

  /** Lines that can all be edited, and the one in focus (0 is the newest). */
  datatype Vector = Vector(lines: seq<string>, focus: nat)

  datatype Action = Rewrite(text: string) | Walk(prev: bool)

  function Meaning(n: Nav): Vector
    requires n.Valid()
  {
    Vector(n.slots[n.Focus() := n.text], n.index)
  }

  function Act(n: Nav, a: Action, cap: nat): (n': Nav)
    requires n.Valid()
    ensures n'.Valid() && |n'.slots| == |n.slots|
  {
    match a
    case Rewrite(t) => n.(text := t)
    case Walk(prev) => Move(n, prev, cap)
  }

  function ActAll(n: Nav, actions: seq<Action>, cap: nat): (n': Nav)
    requires n.Valid()
    ensures n'.Valid() && |n'.slots| == |n.slots|
  {
    if actions == [] then n
    else Act(ActAll(n, actions[..|actions| - 1], cap), actions[|actions| - 1], cap)
  }

  lemma {:induction false} ActAllFirst(n: Nav, a: Action, rest: seq<Action>, cap: nat)
    requires n.Valid()
    ensures ActAll(n, [a] + rest, cap) == ActAll(Act(n, a, cap), rest, cap)
  {
    var all := [a] + rest;
    if rest == [] {
      assert all == [a] && all[..0] == [];
    } else {
      var k := |rest| - 1;
      assert all[..k + 1] == [a] + rest[..k];
      ActAllFirst(n, a, rest[..k], cap);
    }
  }

  /** On the vector an edit writes one line and a walk moves the focus, clamped. */
  function VectorAct(v: Vector, a: Action): (v': Vector)
    requires v.focus < |v.lines|
    ensures v'.focus < |v'.lines| == |v.lines|
  {
    match a
    case Rewrite(t) => v.(lines := v.lines[|v.lines| - 1 - v.focus := t])
    case Walk(true) => v.(focus := Min(v.focus + 1, |v.lines| - 1))
    case Walk(false) => v.(focus := Max(v.focus - 1, 0))
  }

  function VectorActAll(v: Vector, actions: seq<Action>): (v': Vector)
    requires v.focus < |v.lines|
    ensures v'.focus < |v'.lines| == |v.lines|
  {
    if actions == [] then v
    else VectorAct(VectorActAll(v, actions[..|actions| - 1]), actions[|actions| - 1])
  }

  /** What survives a trip through the history. */
  predicate Keeps(s: string, cap: nat) { NUL !in s && |s| < cap }

  predicate AllKeep(n: Nav, cap: nat) {
    Keeps(n.text, cap) && forall s :: s in n.slots ==> Keeps(s, cap)
  }

  lemma ActRefines(n: Nav, a: Action, cap: nat)
    requires n.Valid() && AllKeep(n, cap) && (a.Rewrite? ==> Keeps(a.text, cap))
    ensures AllKeep(Act(n, a, cap), cap)
    ensures Meaning(Act(n, a, cap)) == VectorAct(Meaning(n), a)
  {
    var n' := Act(n, a, cap);
    assert CString(n.text) == n.text;
    if a.Walk? && |n.slots| > 1 {
      var s := n.slots[n.Focus() := n.text];
      forall i | 0 <= i < |s|
        ensures Keeps(s[i], cap) && Fit(s[i], cap) == s[i]
      {
        if i != n.Focus() { assert n.slots[i] in n.slots; }
      }
    }
  }

  /** Any interleaving of edits and moves does what it does to the vector: no edit is
      lost, whichever lines are visited in between. */
  lemma {:induction false} NavigationRefines(n: Nav, actions: seq<Action>, cap: nat)
    requires n.Valid() && AllKeep(n, cap)
    requires forall i :: 0 <= i < |actions| && actions[i].Rewrite? ==> Keeps(actions[i].text, cap)
    ensures AllKeep(ActAll(n, actions, cap), cap)
    ensures Meaning(ActAll(n, actions, cap)) == VectorActAll(Meaning(n), actions)
  {
    if actions != [] {
      var k := |actions| - 1;
      NavigationRefines(n, actions[..k], cap);
      ActRefines(ActAll(n, actions[..k], cap), actions[k], cap);
    }
  }

  /** Going to an older line and back gives the text again exactly when it holds no
      NUL and leaves the last byte of the buffer unused. */
  lemma PrevNextRestoresIff(n: Nav, cap: nat)
    requires n.Valid() && n.index + 1 < |n.slots| && |n.text| <= cap && cap > 0
    ensures Move(Move(n, true, cap), false, cap).text == n.text <==> Keeps(n.text, cap)
  {
    var n1 := Move(n, true, cap);
    var n2 := Move(n1, false, cap);
    assert n2.text == Fit(CString(n.text), cap);
  }
}

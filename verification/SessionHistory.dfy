/** What a session of the line editor does to the history: its keys act on a vector of
    lines, and its own slot comes and goes. */
module SessionHistory {
  import opened Ascii
  import opened Memory
  import opened HistoryNav
  import opened Keys
  import History
  import LineText
  import SingleLine

  /** A key as the history sees it. */
  function ActionOf(e: Edit, k: Key, w: Setup): Action
    requires e.Valid()
  {
    if k.Older? || k.Newer? then Walk(k.Older?)
    else Rewrite(Apply(e, k, w.cap, w.multi).0.line.Text())
  }

  lemma KeyActs(e: Edit, k: Key, w: Setup)
    requires e.Valid() && Apply(e, k, w.cap, w.multi).1.More?
    ensures Apply(e, k, w.cap, w.multi).0.Nav() == Act(e.Nav(), ActionOf(e, k, w), w.cap)
  {
    hide LineAfter, LineText.Delete;
  }

  /** The keys of a session up to the one that ends it. */
  function ActionsOf(e: Edit, input: string, w: Setup): seq<Action>
    requires e.Valid()
    decreases |input|
  {
    if input == [] then []
    else
      var (k, used) := Decode(input);
      ApplyKeeps(e, k, w.cap, w.multi);
      var (e', outcome) := Apply(e, k, w.cap, w.multi);
      if outcome.More? then [ActionOf(e, k, w)] + ActionsOf(e', input[used..], w) else []
  }

  /** How a session that has come to `n` can end: as it stands, or with the newest slot
      taken out and the text returned. */
  predicate EndsAt(end: Course, n: Nav, cap: nat)
    requires n.Valid()
  {
    match end.outcome
    case More => false
    case Closed | Interrupted => end.edit.Nav() == n
    case Done(line) => end.edit.slots == n.slots[..|n.slots| - 1] && line == CString(n.text)
    case EndOfFile => end.edit.slots == n.slots[..|n.slots| - 1] && n.text == []
    case OutOfBounds => cap == 0
  }

  lemma LastKeyEnds(e: Edit, row: SingleLine.Row, cleared: bool, k: Key, w: Setup)
    requires e.Valid() && !AfterKey(e, row, cleared, k, w).outcome.More?
    ensures EndsAt(AfterKey(e, row, cleared, k, w), e.Nav(), w.cap)
  {
    hide RowAfter, LineAfter, LineText.Delete, LineText.End;
  }

  /** A whole session acts on the history as its keys do, one after the other. */
  lemma {:induction false} SessionNavigates(e: Edit, row: SingleLine.Row, cleared: bool, input: string, w: Setup)
    requires e.Valid()
    ensures EndsAt(Session(e, row, cleared, input, w), ActAll(e.Nav(), ActionsOf(e, input, w), w.cap), w.cap)
    decreases |input|
  {
    if input != [] {
      var (k, used) := Decode(input);
      ApplyKeeps(e, k, w.cap, w.multi);
      var next := AfterKey(e, row, cleared, k, w);
      hide Decode, Apply, RowAfter, Act, EndsAt, ActionOf;
      if next.outcome.More? {
        KeyActs(e, k, w);
        SessionNavigates(next.edit, next.row, next.cleared, input[used..], w);
        ActAllFirst(e.Nav(), ActionOf(e, k, w), ActionsOf(next.edit, input[used..], w), w.cap);
      } else {
        LastKeyEnds(e, row, cleared, k, w);
      }
    }
  }

  /** So a session edits a vector of lines with a clamped focus: what is returned is the
      line in focus, and every line but the session's own is left as edited, except that
      what is entered while another line is in focus is not written back to it. */
  lemma SessionEditsVector(e: Edit, row: SingleLine.Row, cleared: bool, input: string, w: Setup)
    requires e.Valid() && AllKeep(e.Nav(), w.cap)
    requires forall a :: a in ActionsOf(e, input, w) && a.Rewrite? ==> Keeps(a.text, w.cap)
    ensures var end := Session(e, row, cleared, input, w);
            var v := VectorActAll(Meaning(e.Nav()), ActionsOf(e, input, w));
            var focus := |v.lines| - 1 - v.focus;
            && !end.outcome.OutOfBounds?
            && (end.outcome.Closed? || end.outcome.Interrupted? ==>
                  end.edit.Valid() && Meaning(end.edit.Nav()) == v)
            && (end.outcome.Done? || end.outcome.EndOfFile? ==>
                  && |end.edit.slots| == |v.lines| - 1
                  && (forall i :: 0 <= i < |v.lines| - 1 && i != focus ==> end.edit.slots[i] == v.lines[i])
                  && v.lines[focus] == if end.outcome.Done? then end.outcome.line else [])
  {
    var actions := ActionsOf(e, input, w);
    assert forall i :: 0 <= i < |actions| ==> actions[i] in actions;
    SessionNavigates(e, row, cleared, input, w);
    NavigationRefines(e.Nav(), actions, w.cap);
    var n := ActAll(e.Nav(), actions, w.cap);
    hide Session, ActionsOf, ActAll, VectorActAll;
    assert NUL !in n.text;
  }

  // ---- From start to end ----

  lemma {:induction false} RewritesKeepSlots(n: Nav, actions: seq<Action>, cap: nat)
    requires n.Valid() && forall a :: a in actions ==> a.Rewrite?
    ensures ActAll(n, actions, cap).slots == n.slots
  {
    if actions != [] {
      assert actions[|actions| - 1] in actions;
      RewritesKeepSlots(n, actions[..|actions| - 1], cap);
    }
  }

  predicate EndsEmpty(h: seq<string>) { h != [] && h[|h| - 1] == [] }

  /** The edit a session starts on, given the history before it. */
  function Started(h: seq<string>, max: nat): Edit { Edit(LineText.Line([], []), History.Push(h, [], max), 0) }

  /** A session without history moves leaves the history as it was exactly when, ended by
      Enter or end of file, there was room for its slot and the newest line was not empty
      (a full history loses its oldest line, an empty newest line is taken for the slot);
      ended by Ctrl-C or a closed terminal, only when the newest line was empty. */
  lemma HistoryKeptIff(h: seq<string>, max: nat, row: SingleLine.Row, input: string, w: Setup)
    requires max > 0 && |h| <= max
    requires forall a :: a in ActionsOf(Started(h, max), input, w) ==> a.Rewrite?
    ensures var end := Session(Started(h, max), row, false, input, w);
            end.outcome.OutOfBounds? ||
            (end.edit.slots == h <==>
            if end.outcome.Done? || end.outcome.EndOfFile? then |h| < max && !EndsEmpty(h) else EndsEmpty(h))
  {
    var e := Started(h, max);
    SessionNavigates(e, row, false, input, w);
    RewritesKeepSlots(e.Nav(), ActionsOf(e, input, w), w.cap);
    hide Session, ActionsOf, ActAll;
    var p := History.Push(h, [], max);
    if EndsEmpty(h) {
      assert p == h;
    } else if |h| < max {
      assert p[..|p| - 1] == h;
    }
  }
}

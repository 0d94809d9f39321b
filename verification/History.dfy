/** The bounded history of lines: adding and resizing. */
module History {
  import opened Arith
  import opened Memory

  const DEFAULT_MAX_LEN := 100

  // ---- Specification ----

  function Push(h: seq<string>, line: string, max: nat): seq<string> {
    if max == 0 || (h != [] && h[|h| - 1] == line) then h
    else if |h| == max then h[1..] + [line]
    else h + [line]
  }

  function LastN<T>(s: seq<T>, n: nat): (r: seq<T>)
    ensures |r| == Min(|s|, n)
  {
    s[|s| - Min(|s|, n)..]
  }

  /** A call made on the history from outside. */
  datatype Op = Add(line: string) | SetMaxLen(n: int)

  datatype Bounded = Bounded(lines: seq<string>, max: nat)

  function Apply(b: Bounded, op: Op): Bounded {
    match op
    case Add(line) => b.(lines := Push(b.lines, line, b.max))
    case SetMaxLen(n) => if n < 1 then b else Bounded(LastN(b.lines, n), n)
  }

  function ApplyAll(b: Bounded, ops: seq<Op>): Bounded {
    if ops == [] then b else Apply(ApplyAll(b, ops[..|ops| - 1]), ops[|ops| - 1])
  }

  function LogAdd(log: seq<string>, line: string): seq<string> {
    if log != [] && log[|log| - 1] == line then log else log + [line]
  }

  /** Every line ever added, consecutive repetitions written once. */
  function Log(ops: seq<Op>): seq<string> {
    if ops == [] then []
    else
      var log := Log(ops[..|ops| - 1]);
      match ops[|ops| - 1]
      case Add(line) => LogAdd(log, line)
      case SetMaxLen(_) => log
  }

  predicate IsSuffix(h: seq<string>, log: seq<string>) {
    |h| <= |log| && h == log[|log| - |h|..]
  }

  /** The history is always the end of the log: nothing is reordered, repeated or
      lost but from the front, and the limit in force is respected. */
  lemma {:induction false} BoundedRefinesLog(max: nat, ops: seq<Op>)
    ensures var b := ApplyAll(Bounded([], max), ops);
            IsSuffix(b.lines, Log(ops)) && |b.lines| <= b.max
  {
    if ops != [] {
      var before, op := ops[..|ops| - 1], ops[|ops| - 1];
      var b, log := ApplyAll(Bounded([], max), before), Log(before);
      assert ApplyAll(Bounded([], max), ops) == Apply(b, op);
      assert Log(ops) == if op.Add? then LogAdd(log, op.line) else log;
      BoundedRefinesLog(max, before);
      hide ApplyAll, Log;
      match op {
        case Add(line) => PushKeepsSuffix(b.lines, log, line, b.max);
        case SetMaxLen(n) => TrimKeepsSuffix(b, log, n);
      }
    }
  }

  lemma PushKeepsSuffix(h: seq<string>, log: seq<string>, line: string, max: nat)
    requires IsSuffix(h, log) && |h| <= max
    ensures IsSuffix(Push(h, line, max), LogAdd(log, line)) && |Push(h, line, max)| <= max
  {
    if h == [] && log != [] && log[|log| - 1] == line && max > 0 {
      assert log[|log| - 1..] == [line];
    }
  }

  lemma TrimKeepsSuffix(b: Bounded, log: seq<string>, n: int)
    requires IsSuffix(b.lines, log) && |b.lines| <= b.max
    ensures var b' := Apply(b, SetMaxLen(n));
            IsSuffix(b'.lines, log) && |b'.lines| <= b'.max
  {
  }

  /** What one call does, line by line: an added line is the newest, unless it was so
      already; only a full history loses a line for it, the oldest. A new limit keeps as
      many of the newest lines as it allows, and one below 1 changes nothing. */
  lemma CallKeeps(b: Bounded, line: string, n: int)
    requires |b.lines| <= b.max
    ensures var h, r := b.lines, Apply(b, Add(line));
            && r.max == b.max
            && (b.max > 0 ==> r.lines != [] && r.lines[|r.lines| - 1] == line)
            && (h != [] && h[|h| - 1] == line ==> r.lines == h)
            && (h == [] || h[|h| - 1] != line ==>
                  && |r.lines| == (if |h| < b.max then |h| + 1 else b.max)
                  && forall i :: 0 <= i < |r.lines| - 1 ==> r.lines[i] == h[i + |h| + 1 - |r.lines|])
    ensures var h, r := b.lines, Apply(b, SetMaxLen(n));
            if n < 1 then r == b
            else r.max == n && |r.lines| == (if |h| < n then |h| else n)
                 && forall i :: 0 <= i < |r.lines| ==> r.lines[i] == h[i + |h| - |r.lines|]
  {
  }

  predicate Deduplicated(log: seq<string>) { forall i :: 0 <= i < |log| - 1 ==> log[i] != log[i + 1] }

  /** The log never says the same twice in a row; an added line is written behind it unless
      it is there already, and a change of the limit writes nothing. */
  lemma {:induction false} LogIsDeduplicated(ops: seq<Op>, line: string, n: int)
    ensures var log, more := Log(ops), Log(ops + [Add(line)]);
            && Deduplicated(log)
            && more == (if log != [] && log[|log| - 1] == line then log else log + [line])
            && Log(ops + [SetMaxLen(n)]) == log
  {
    LogStep(ops, Add(line));
    LogStep(ops, SetMaxLen(n));
    if ops != [] {
      var before, op := ops[..|ops| - 1], ops[|ops| - 1];
      assert ops == before + [op];
      LogIsDeduplicated(before, if op.Add? then op.line else line, if op.SetMaxLen? then op.n else n);
      hide Log;
    }
  }

  lemma LogStep(ops: seq<Op>, op: Op)
    ensures Log(ops + [op]) == if op.Add? then LogAdd(Log(ops), op.line) else Log(ops)
  {
    assert (ops + [op])[..|ops|] == ops;
  }

  /** Until the limit is changed the history is exactly the last `max` lines. */
  lemma {:induction false} FixedLimitIsLastN(max: nat, ops: seq<Op>)
    requires max > 0 && forall i :: 0 <= i < |ops| ==> ops[i].Add?
    ensures ApplyAll(Bounded([], max), ops) == Bounded(LastN(Log(ops), max), max)
  {
    if ops != [] {
      var before, op := ops[..|ops| - 1], ops[|ops| - 1];
      FixedLimitIsLastN(max, before);
      PushLastN(Log(before), op.line, max);
      hide LogAdd, Push, LastN;
    }
  }

  lemma PushLastN(log: seq<string>, line: string, max: nat)
    requires max > 0
    ensures Push(LastN(log, max), line, max) == LastN(LogAdd(log, line), max)
  {
    if |log| >= max {
      assert LastN(log, max)[1..] == log[|log| - max + 1..];
    }
  }

  // ---- The array that holds it ----

  class Store {
    var slots: array<string>
    var len: nat
    var max: nat

    ghost predicate Valid()
      reads this
    {
      len <= max == slots.Length
    }

    ghost function Lines(): seq<string>
      reads this, slots
      requires Valid()
    {
      slots[..len]
    }

    constructor ()
      ensures Valid() && fresh(slots) && Lines() == [] && max == 100
    {
      slots := new string[DEFAULT_MAX_LEN](_ => []);
      len, max := 0, DEFAULT_MAX_LEN;
    }

    /** linenoiseHistoryAdd; `added` is its return value. */
    method Add(line: string) returns (added: bool)
      requires Valid()
      modifies this`len, slots
      ensures Valid() && slots == old(slots) && max == old(max)
      ensures Lines() == Push(old(Lines()), line, max)
      ensures added == (max > 0 && (old(Lines()) == [] || old(Lines())[old(len) - 1] != line))
    {
      if max == 0 { return false; }
      if len > 0 && slots[len - 1] == line { return false; }
      if len == max {
        MemMove(slots, 0, 1, max - 1);
        len := len - 1;
      }
      slots[len] := line;
      len := len + 1;
      return true;
    }

    /** linenoiseHistorySetMaxLen; the newest lines are kept. */
    method SetMaxLen(n: int) returns (ok: bool)
      requires Valid()
      modifies this
      ensures Valid() && (slots == old(slots) || fresh(slots))
      ensures ok == (n >= 1)
      ensures Bounded(Lines(), max) == Apply(Bounded(old(Lines()), old(max)), Op.SetMaxLen(n))
    {
      if n < 1 { return false; }
      var tocopy := len;
      if n < tocopy { tocopy := n; }
      var start := len - tocopy;
      var bigger := new string[n](_ => []);
      forall i | 0 <= i < tocopy {
        bigger[i] := slots[start + i];
      }
      ghost var was := Lines();
      slots := bigger;
      max := n;
      if len > max { len := max; }
      assert slots[..len] == was[start..];
      return true;
    }

    /** Drop the newest line. */
    method Pop()
      requires Valid() && len > 0
      modifies this`len
      ensures Valid() && slots == old(slots) && max == old(max)
      ensures Lines() == old(Lines())[..old(len) - 1]
    {
      len := len - 1;
    }
  }
}

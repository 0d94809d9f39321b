/** Saving the history as lines of text and loading it back through fgets. */
module HistoryFile {
  import opened Ascii
  import opened Memory
  import opened History

  const MAX_LINE := 4096

  function Saved(h: seq<string>): string {
    if h == [] then [] else h[0] + [LF] + Saved(h[1..])
  }

  method Save(h: seq<string>) returns (file: string)
    ensures file == Saved(h)
  {
    file := [];
    var j := 0;
    assert h[0..] == h;
    while j < |h|
      invariant 0 <= j <= |h|
      invariant file + Saved(h[j..]) == Saved(h)
    {
      assert h[j..][1..] == h[j + 1..];
      assert file + (h[j] + [LF] + Saved(h[j + 1..])) == file + (h[j] + [LF]) + Saved(h[j + 1..]);
      file := file + (h[j] + [LF]);
      j := j + 1;
    }
  }

  /** How much fgets takes: up to and with the first LF, at most `room` bytes. */
  function Taken(s: string, room: nat): (n: nat)
    ensures n <= |s| && n <= room && (s != [] && room > 0 ==> n > 0)
    ensures LF !in s[..if n > 0 then n - 1 else 0]
  {
    if s == [] || room == 0 then 0
    else if s[0] == LF then 1
    else
      var n := Taken(s[1..], room - 1);
      assert n > 0 ==> s[..n] == [s[0]] + s[1..][..n - 1];
      1 + n
  }

  /** The line linenoiseHistoryLoad finds in one buffer of fgets. */
  function Cut(chunk: string): string {
    var c := CString(chunk);
    if CR in c then Before(c, CR) else Before(c, LF)
  }

  function Loaded(file: string, h: seq<string>, max: nat): seq<string>
    decreases |file|
  {
    if file == [] then h
    else
      var n := Taken(file, MAX_LINE - 1);
      Loaded(file[n..], Push(h, Cut(file[..n]), max), max)
  }

  method Fgets(file: string, at: nat) returns (end: nat)
    requires at < |file|
    ensures at < end <= |file| && end == at + Taken(file[at..], MAX_LINE - 1)
  {
    end := at;
    var room := MAX_LINE - 1;
    while end < |file| && room > 0
      invariant at <= end <= |file| && 0 <= room == MAX_LINE - 1 - (end - at)
      invariant end - at + Taken(file[end..], room) == Taken(file[at..], MAX_LINE - 1)
    {
      assert file[end..][1..] == file[end + 1..];
      end, room := end + 1, room - 1;
      if file[end - 1] == LF { return; }
    }
  }

  lemma LoadStep(file: string, at: nat, end: nat, h: seq<string>, max: nat)
    requires at < end <= |file| && end == at + Taken(file[at..], MAX_LINE - 1)
    ensures Loaded(file[at..], h, max) == Loaded(file[end..], Push(h, Cut(file[at..end]), max), max)
  {
    hide Push, Taken;
    var n := end - at;
    assert file[at..][..n] == file[at..end] && file[at..][n..] == file[end..];
  }

  method Load(file: string, store: Store)
    requires store.Valid()
    modifies store`len, store.slots
    ensures store.Valid() && store.slots == old(store.slots) && store.max == old(store.max)
    ensures store.Lines() == Loaded(file, old(store.Lines()), store.max)
  {
    var at := 0;
    assert file[0..] == file;
    while at < |file|
      invariant 0 <= at <= |file|
      invariant store.Valid() && store.slots == old(store.slots) && store.max == old(store.max)
      invariant Loaded(file[at..], store.Lines(), store.max) == Loaded(file, old(store.Lines()), store.max)
    {
      var end := Fgets(file, at);
      var n := end - at;
      LoadStep(file, at, end, store.Lines(), store.max);
      var _ := store.Add(Cut(file[at..end]));
      at := end;
    }
  }

  // ---- Round trip ----

  predicate OneLine(s: string) { NUL !in s && CR !in s && LF !in s }

  /** The history survives a save and a load. A line of 4095 bytes fills the
      buffer of fgets and its LF is read as a further, empty line. */
  predicate Loadable(h: seq<string>, max: nat) {
    && |h| <= max
    && (forall i :: 0 <= i < |h| ==> CR !in h[i] && LF !in h[i] && |h[i]| <= 4095)
    && (forall i :: 0 <= i < |h| - 1 ==> h[i] != h[i + 1])
    && (forall i :: 0 <= i < |h| && |h[i]| == 4095 ==> i + 1 < |h| && h[i + 1] == [])
  }

  lemma CutLine(s: string)
    requires OneLine(s)
    ensures Cut(s) == s && Cut(s + [LF]) == s
  {
    assert NUL !in s + [LF] && CR !in s + [LF];
    assert (s + [LF])[..|s|] == s;
    BeforeAt(s + [LF], LF, |s|);
  }

  lemma {:induction false} TakenLine(s: string, rest: string, room: nat)
    requires LF !in s
    ensures |s| < room ==> Taken(s + [LF] + rest, room) == |s| + 1
    ensures |s| >= room ==> Taken(s + [LF] + rest, room) == room
  {
    var f := s + [LF] + rest;
    if s == [] {
      assert f[0] == LF;
    } else if room > 0 {
      assert f[1..] == s[1..] + [LF] + rest;
      TakenLine(s[1..], rest, room - 1);
    }
  }

  /** What arrives of one saved line. */
  function Received(s: string, h: seq<string>, max: nat): seq<string> {
    var h1 := Push(h, s, max);
    if |s| < MAX_LINE - 1 then h1 else Push(h1, [], max)
  }

  /** A saved line that fits is loaded as itself; one that just does not fit is
      followed by an empty line. */
  lemma LoadLine(s: string, rest: string, h: seq<string>, max: nat)
    requires OneLine(s) && |s| <= MAX_LINE - 1
    ensures Loaded(s + [LF] + rest, h, max) == Loaded(rest, Received(s, h, max), max)
  {
    var f := s + [LF] + rest;
    TakenLine(s, rest, MAX_LINE - 1);
    CutLine(s);
    if |s| < MAX_LINE - 1 {
      assert f[..|s| + 1] == s + [LF] && f[|s| + 1..] == rest;
    } else {
      var g := [LF] + rest;
      assert f[..|s|] == s && f[|s|..] == g;
      assert g == [] + [LF] + rest;
      TakenLine([], rest, MAX_LINE - 1);
      CutLine([]);
      assert g[..1] == [] + [LF] && g[1..] == rest;
    }
  }

  /** All lines of `h` are written and read back one by one. */
  function LoadedLines(h: seq<string>, acc: seq<string>, max: nat): seq<string> {
    if h == [] then acc
    else LoadedLines(h[1..], Received(h[0], acc, max), max)
  }

  lemma {:induction false} LoadedSaved(h: seq<string>, acc: seq<string>, max: nat)
    requires forall s :: s in h ==> OneLine(s) && |s| <= MAX_LINE - 1
    ensures Loaded(Saved(h), acc, max) == LoadedLines(h, acc, max)
  {
    if h != [] {
      LoadLine(h[0], Saved(h[1..]), acc, max);
      LoadedSaved(h[1..], Received(h[0], acc, max), max);
    }
  }

  lemma ReceivedNext(h: seq<string>, i: nat, max: nat)
    requires Loadable(h, max) && i < |h|
    ensures |h[i]| < MAX_LINE - 1 ==> Received(h[i], h[..i], max) == h[..i + 1]
    ensures |h[i]| == MAX_LINE - 1 ==>
              i + 1 < |h| && Received(h[i], h[..i], max) == h[..i + 2]
              && Received(h[i + 1], h[..i + 2], max) == h[..i + 2]
  {
    assert h[..i] + [h[i]] == h[..i + 1];
    if |h[i]| == MAX_LINE - 1 {
      assert h[..i + 1] + [h[i + 1]] == h[..i + 2];
    }
  }

  lemma {:induction false} LoadableLoads(h: seq<string>, i: nat, max: nat)
    requires Loadable(h, max) && i <= |h|
    ensures LoadedLines(h[i..], h[..i], max) == h
    decreases |h| - i
  {
    if i == |h| {
      assert h[..i] == h;
    } else {
      ReceivedNext(h, i, max);
      hide Received, Push;
      assert h[i..][1..] == h[i + 1..];
      if |h[i]| < MAX_LINE - 1 {
        LoadableLoads(h, i + 1, max);
      } else {
        assert h[i + 1..][1..] == h[i + 2..];
        LoadableLoads(h, i + 2, max);
      }
    }
  }

  // ---- Files written by others ----

  /** What one buffer gives: all up to its first CR, LF or NUL, whichever comes first;
      fgets leaves an LF only at the end. */
  lemma CutStops(chunk: string)
    requires chunk != [] && LF !in chunk[..|chunk| - 1]
    ensures Cut(chunk) <= chunk && OneLine(Cut(chunk))
    ensures Cut(chunk) != chunk ==> chunk[|Cut(chunk)|] in {CR, LF, NUL}
  {
    var c := CString(chunk);
    if CR in c {
      var k := Before(c, CR);
      assert forall i :: 0 <= i < |k| ==> k[i] == chunk[..|chunk| - 1][i];
    }
  }

  /** A line that ends in CR LF is loaded without either. */
  lemma CrLfLine(s: string, rest: string, h: seq<string>, max: nat)
    requires OneLine(s) && |s| <= 4093
    ensures Loaded(s + [CR, LF] + rest, h, max) == Loaded(rest, Push(h, s, max), max)
  {
    var f, t := s + [CR, LF] + rest, s + [CR];
    assert f == t + [LF] + rest;
    TakenLine(t, rest, MAX_LINE - 1);
    var chunk := t + [LF];
    assert f[..|chunk|] == chunk && f[|chunk|..] == rest;
    CutIs(chunk, s);
    hide Push, Cut, Taken;
  }

  lemma CutIs(chunk: string, s: string)
    requires OneLine(s) && chunk == s + [CR] + [LF]
    ensures Cut(chunk) == s
  {
    assert NUL !in chunk;
    assert chunk[|s|] == CR && chunk[..|s|] == s;
    BeforeAt(chunk, CR, |s|);
  }

  /** A line longer than the buffer of fgets is loaded in pieces of 4095 bytes, and a last
      line needs no LF. */
  lemma LongLine(s: string, rest: string, h: seq<string>, max: nat)
    requires OneLine(s) && |s| == 4095
    ensures Loaded(s + rest, h, max) == Loaded(rest, Push(h, s, max), max)
  {
    TakenAll(s, rest, MAX_LINE - 1);
    var f := s + rest;
    assert f[..4095] == s && f[4095..] == rest;
    CutLine(s);
    hide Push, Cut, Taken;
  }

  lemma LastLine(s: string, h: seq<string>, max: nat)
    requires OneLine(s) && 0 < |s| <= 4095
    ensures Loaded(s, h, max) == Push(h, s, max)
  {
    TakenAll(s, [], MAX_LINE - 1);
    assert s + [] == s && s[..|s|] == s && s[|s|..] == [];
    CutLine(s);
    hide Push, Cut, Taken;
  }

  lemma {:induction false} TakenAll(s: string, rest: string, room: nat)
    requires LF !in s && (|s| == room || (rest == [] && |s| <= room))
    ensures Taken(s + rest, room) == |s|
  {
    if s != [] {
      assert (s + rest)[1..] == s[1..] + rest;
      TakenAll(s[1..], rest, room - 1);
    }
  }

  // ---- Nothing else survives ----

  predicate NoRepeats(h: seq<string>) { forall i :: 0 <= i < |h| - 1 ==> h[i] != h[i + 1] }

  predicate FitLines(h: seq<string>) {
    forall s :: s in h ==> OneLine(s) && |s| <= MAX_LINE - 1
  }

  lemma CutFits(file: string)
    ensures var n := Taken(file, MAX_LINE - 1);
            OneLine(Cut(file[..n])) && |Cut(file[..n])| <= MAX_LINE - 1
  {
    var n := Taken(file, MAX_LINE - 1);
    var c := CString(file[..n]);
    if CR in c {
      var k := Before(c, CR);
      assert LF !in k by {
        assert forall i :: 0 <= i < |k| ==> k[i] == file[..n - 1][i];
      }
    }
  }

  lemma PushFits(h: seq<string>, line: string, max: nat)
    requires FitLines(h) && NoRepeats(h) && |h| <= max && OneLine(line) && |line| <= MAX_LINE - 1
    ensures var r := Push(h, line, max);
            FitLines(r) && NoRepeats(r) && |r| <= max
  {
    PushFitsLines(h, line, max);
    PushRepeatsNothing(h, line, max);
    hide FitLines, NoRepeats;
  }

  lemma PushFitsLines(h: seq<string>, line: string, max: nat)
    requires FitLines(h) && OneLine(line) && |line| <= MAX_LINE - 1
    ensures FitLines(Push(h, line, max))
  {
    hide OneLine;
    forall s | s in Push(h, line, max)
      ensures OneLine(s) && |s| <= MAX_LINE - 1
    {
      assert s in h || s == line;
    }
  }

  lemma PushRepeatsNothing(h: seq<string>, line: string, max: nat)
    requires NoRepeats(h)
    ensures NoRepeats(Push(h, line, max))
  {
  }

  /** Whatever the file holds, loading it yields lines that fit the buffer, without line
      ends, no line twice in a row, and no more lines than the limit. */
  lemma {:induction false} LoadedFits(file: string, h: seq<string>, max: nat)
    requires FitLines(h) && NoRepeats(h) && |h| <= max
    ensures var r := Loaded(file, h, max);
            FitLines(r) && NoRepeats(r) && |r| <= max
    decreases |file|
  {
    if file != [] {
      var n := Taken(file, MAX_LINE - 1);
      CutFits(file);
      PushFits(h, Cut(file[..n]), max);
      hide Push, Cut, Taken, FitLines, NoRepeats;
      LoadedFits(file[n..], Push(h, Cut(file[..n]), max), max);
    }
  }

  function NonEmpty(h: seq<string>): nat {
    if h == [] then 0 else (if h[0] == [] then 0 else 1) + NonEmpty(h[1..])
  }

  lemma {:induction false} NonEmptyConcat(a: seq<string>, b: seq<string>)
    ensures NonEmpty(a + b) == NonEmpty(a) + NonEmpty(b)
  {
    if a == [] {
      assert a + b == b;
    } else {
      assert (a + b)[1..] == a[1..] + b;
      NonEmptyConcat(a[1..], b);
    }
  }

  lemma {:induction false} AllEmpty(a: seq<string>)
    requires NonEmpty(a) == 0
    ensures forall i :: 0 <= i < |a| ==> a[i] == []
  {
    if a != [] { AllEmpty(a[1..]); }
  }

  predicate Overflows(h: seq<string>) { h != [] && |h[0]| >= MAX_LINE - 1 && !(|h| > 1 && h[1] == []) }

  /** Empty lines that loading inserts. */
  function Inserted(h: seq<string>): nat {
    if h == [] then 0 else (if Overflows(h) then 1 else 0) + Inserted(h[1..])
  }

  lemma {:induction false} NoneInserted(h: seq<string>)
    requires Inserted(h) == 0
    ensures forall i :: 0 <= i < |h| && |h[i]| == MAX_LINE - 1 ==> i + 1 < |h| && h[i + 1] == []
  {
    if h != [] {
      NoneInserted(h[1..]);
      forall i | 0 <= i < |h| && |h[i]| == MAX_LINE - 1
        ensures i + 1 < |h| && h[i + 1] == []
      {
        if i > 0 { assert h[1..][i - 1] == h[i]; }
      }
    }
  }

  /** Loading with no limit at all. */
  function Logged(h: seq<string>, log: seq<string>): seq<string> {
    if h == [] then log
    else Logged(h[1..], LogLine(log, h[0]))
  }

  lemma {:induction false} LoadedIsLast(h: seq<string>, log: seq<string>, max: nat)
    requires max > 0
    ensures LoadedLines(h, LastN(log, max), max) == LastN(Logged(h, log), max)
  {
    if h != [] {
      hide Push, LogAdd, LastN;
      PushLastN(log, h[0], max);
      PushLastN(LogAdd(log, h[0]), [], max);
      LoadedIsLast(h[1..], LogLine(log, h[0]), max);
    }
  }

  lemma AppendCounts(log: seq<string>, line: string)
    ensures NonEmpty(log + [line]) == NonEmpty(log) + if line == [] then 0 else 1
  {
    NonEmptyConcat(log, [line]);
    assert [line][1..] == [];
  }

  /** The next line repeats the last of the log: an empty line, just inserted. */
  function Repeated(h: seq<string>, log: seq<string>): nat {
    if h != [] && log != [] && log[|log| - 1] == h[0] then 1 else 0
  }

  function LogLine(log: seq<string>, line: string): seq<string> {
    var a := LogAdd(log, line);
    if |line| < MAX_LINE - 1 then a else LogAdd(a, [])
  }

  lemma LogLineCounts(h: seq<string>, log: seq<string>)
    requires h != [] && NoRepeats(h) && NoRepeats(log) && (Repeated(h, log) == 1 ==> h[0] == [])
    ensures var next := LogLine(log, h[0]);
            && NoRepeats(next) && (Repeated(h[1..], next) == 1 ==> h[1] == [])
            && NonEmpty(next) == NonEmpty(log) + (if h[0] == [] then 0 else 1)
            && next != [] && next[0] == (log + h)[0]
            && |next| - Repeated(h[1..], next)
            == |log| - Repeated(h, log) + 1 + (if Overflows(h) then 1 else 0)
  {
    AppendCounts(log, h[0]);
    AppendCounts(log + [h[0]], []);
  }

  lemma {:induction false} LoggedCounts(h: seq<string>, log: seq<string>)
    requires NoRepeats(h) && NoRepeats(log) && (Repeated(h, log) == 1 ==> h[0] == [])
    ensures var r := Logged(h, log);
            && |r| == |log| + |h| + Inserted(h) - Repeated(h, log)
            && NonEmpty(r) == NonEmpty(log) + NonEmpty(h)
            && NoRepeats(r)
            && (r != [] ==> r[0] == (log + h)[0])
    decreases |h|
  {
    if h == [] {
      assert log + h == log;
    } else {
      LogLineCounts(h, log);
      hide LogLine, Repeated, Overflows, NoRepeats;
      LoggedCounts(h[1..], LogLine(log, h[0]));
    }
  }

  /** Saving and loading gives the history back exactly when it is loadable. */
  lemma RoundTripIff(h: seq<string>, max: nat)
    requires forall s :: s in h ==> NUL !in s
    ensures Loaded(Saved(h), [], max) == h <==> Loadable(h, max)
  {
    if Loadable(h, max) {
      LoadedSaved(h, [], max);
      LoadableLoads(h, 0, max);
      assert h[0..] == h && h[..0] == [];
    }
    if Loaded(Saved(h), [], max) == h {
      LoadedFits(Saved(h), [], max);
      LoadedSaved(h, [], max);
      hide Loaded, Saved;
      if max > 0 { OnlyLoadableLoads(h, max); }
    }
  }

  lemma OnlyLoadableLoads(h: seq<string>, max: nat)
    requires max > 0 && FitLines(h) && NoRepeats(h) && |h| <= max
    requires LoadedLines(h, [], max) == h
    ensures Loadable(h, max)
  {
    InsertsNothing(h, max);
    NoneInserted(h);
  }

  lemma LoadedAfresh(h: seq<string>, max: nat)
    requires max > 0
    ensures LoadedLines(h, [], max) == LastN(Logged(h, []), max)
  {
    hide Logged, LoadedLines, LogLine;
    var none: seq<string> := [];
    assert LastN(none, max) == none;
    LoadedIsLast(h, none, max);
  }

  lemma LoggedAfresh(h: seq<string>)
    requires NoRepeats(h)
    ensures var log := Logged(h, []);
            && |log| == |h| + Inserted(h) && NonEmpty(log) == NonEmpty(h) && NoRepeats(log)
            && (h != [] ==> log[0] == h[0]) && (h == [] ==> Inserted(h) == 0)
  {
    hide Logged, LogLine;
    var none: seq<string> := [];
    assert none + h == h && NonEmpty(none) == 0;
    hide NonEmpty, Overflows;
    LoggedCounts(h, none);
  }

  lemma InsertsNothing(h: seq<string>, max: nat)
    requires max > 0 && NoRepeats(h)
    requires LoadedLines(h, [], max) == h
    ensures Inserted(h) == 0
  {
    hide *;
    LoadedAfresh(h, max);
    LoggedAfresh(h);
    LimitHidesNothing(h, Logged(h, []), max, Inserted(h));
  }

  lemma LimitHidesNothing(h: seq<string>, log: seq<string>, max: nat, b: nat)
    requires NoRepeats(log) && NonEmpty(log) == NonEmpty(h) && |log| == |h| + b
    requires h != [] ==> log[0] == h[0]
    requires LastN(log, max) == h && (h == [] ==> b == 0)
    ensures b == 0
  {
    hide NonEmpty, NoRepeats;
    if b > 0 {
      assert log[b..] == LastN(log, max);
      InsertedLost(h, log, b);
    }
  }

  /** Dropping as many lines from the front as were inserted does not restore `h`. */
  lemma InsertedLost(h: seq<string>, log: seq<string>, b: nat)
    requires 0 < b < |log| && h != [] && NoRepeats(log) && NonEmpty(log) == NonEmpty(h)
    requires log[0] == h[0]
    ensures log[b..] != h
  {
    if log[b..] == h {
      assert log == log[..b] + h;
      NonEmptyConcat(log[..b], h);
      AllEmpty(log[..b]);
    }
  }
}

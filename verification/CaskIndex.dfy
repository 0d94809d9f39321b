/** The directory of the key-value store, what it promises about the log, and runs of
    stores and loads over the file with its one cursor. */
module CaskIndex {
  import opened Arith
  import opened CaskLog
  import opened Sequences

  type Index = map<Bytes, Loc>

  /** buildIndex: later entries of a key replace earlier ones. */
  function IndexOf(found: seq<Found>): Index {
    if found == [] then map[]
    else
      var last := found[|found| - 1];
      IndexOf(found[..|found| - 1])[last.key := last.loc]
  }

  /** The store as a map: the last value stored under each key. */
  function Values(rs: seq<Record>): map<Bytes, Bytes> {
    if rs == [] then map[]
    else
      var last := rs[|rs| - 1];
      Values(rs[..|rs| - 1])[last.key := last.value]
  }

  /** The location is in the file, holds the value, and names the active file. */
  predicate Holds(b: Bytes, l: Loc, value: Bytes, id: nat) {
    && l.fileID == id && l.valuePos + l.valueSize <= |b|
    && b[l.valuePos..l.valuePos + l.valueSize] == value
  }

  /** The directory has the keys stored and no others, and the location under each holds
      the last value stored under it. */
  lemma {:induction false} IndexFindsValues(rs: seq<Record>, id: nat)
    requires AllValid(rs)
    ensures IndexOf(FoundIn(rs, id)).Keys == Values(rs).Keys
    ensures forall k :: k in Values(rs) ==>
              k in IndexOf(FoundIn(rs, id)) && Holds(Log(rs), IndexOf(FoundIn(rs, id))[k], Values(rs)[k], id)
  {
    if rs != [] {
      var before, r := rs[..|rs| - 1], rs[|rs| - 1];
      assert rs == before + [r];
      IndexFindsValues(before, id);
      LogAppend(before, r, id);
      assert Values(rs) == Values(before)[r.key := r.value];
      hide Log, FoundIn, IndexOf, Values, Encode, Holds;
      HoldsNew(Log(before), r, id);
      forall k | k in Values(before)
        ensures Holds(Log(rs), IndexOf(FoundIn(before, id))[k], Values(before)[k], id)
      {
        HoldsOld(Log(before), Encode(r), IndexOf(FoundIn(before, id))[k], Values(before)[k], id);
      }
    }
  }

  lemma HoldsOld(a: Bytes, b: Bytes, l: Loc, value: Bytes, id: nat)
    requires Holds(a, l, value, id)
    ensures Holds(a + b, l, value, id)
  {
    assert (a + b)[l.valuePos..l.valuePos + l.valueSize] == a[l.valuePos..l.valuePos + l.valueSize];
  }

  lemma HoldsNew(a: Bytes, r: Record, id: nat)
    requires r.Size() <= U32_MAX
    ensures Holds(a + Encode(r), FoundAt(r, |a|, id).loc, r.value, id)
  {
    var e := Encode(r);
    assert (a + e)[|a| + 8 + |r.key|..|a| + r.Size()] == e[8 + |r.key|..] == r.value;
  }

  lemma LogAppend(rs: seq<Record>, r: Record, id: nat)
    requires AllValid(rs) && r.Valid()
    ensures AllValid(rs + [r]) && Log(rs + [r]) == Log(rs) + Encode(r)
    ensures FoundIn(rs + [r], id) == FoundIn(rs, id) + [FoundAt(r, |Log(rs)|, id)]
    ensures IndexOf(FoundIn(rs + [r], id)) == IndexOf(FoundIn(rs, id))[r.key := FoundAt(r, |Log(rs)|, id).loc]
  {
    assert (rs + [r])[..|rs|] == rs;
    var f, g := FoundIn(rs, id), FoundIn(rs + [r], id);
    assert g[..|g| - 1] == f;
  }

  // ---- The file and its cursor ----

  function Zeros(n: nat): (b: Bytes)
    ensures |b| == n
  {
    seq(n, _ => 0)
  }

  /** Writing at a position: what is there is overwritten, a gap is filled with zeros. */
  function WriteAt(b: Bytes, at: nat, data: Bytes): (r: Bytes)
    ensures |r| == Max(|b|, at + |data|)
  {
    (if at <= |b| then b[..at] else b + Zeros(at - |b|)) + data +
    (if at + |data| <= |b| then b[at + |data|..] else [])
  }

  /** The file byte by byte after a write. */
  lemma WriteAtByte(b: Bytes, at: nat, data: Bytes, i: nat)
    requires i < Max(|b|, at + |data|)
    ensures WriteAt(b, at, data)[i] == if at <= i < at + |data| then data[i - at] else if i < |b| then b[i] else 0
  {
  }

  /** The active file, the position its writer keeps, and the directory. */
  datatype Cask = Cask(bytes: Bytes, cursor: nat, lastPos: nat, index: Index, id: nat)
  {
    /** The next write goes where the writer thinks it goes. */
    predicate AtEnd() { cursor == lastPos }
  }

  /** A store that the integer widths allow. */
  predicate CanStore(c: Cask, r: Record) {
    r.Size() <= U32_MAX && c.lastPos + 8 + |r.key| <= U32_MAX
  }

  function Stored(c: Cask, r: Record): Cask
    requires CanStore(c, r)
  {
    Cask(WriteAt(c.bytes, c.cursor, Encode(r)), c.cursor + r.Size(), c.lastPos + r.Size(),
         c.index[r.key := FoundAt(r, c.lastPos, c.id).loc], c.id)
  }

  datatype Loading = Value(value: Bytes) | NotFound | ShortRead

  /** `load` moves the cursor, and only the cursor. */
  function Loaded(c: Cask, key: Bytes): (Cask, Loading) {
    if key !in c.index then (c, NotFound)
    else
      var l := c.index[key];
      var end := l.valuePos + l.valueSize;
      if end <= |c.bytes| then (c.(cursor := end), Value(c.bytes[l.valuePos..end]))
      else (c.(cursor := Max(l.valuePos, |c.bytes|)), if l.valueSize == 0 then Value([]) else ShortRead)
  }

  /** The file is the log of `rs`, and the directory and the writer agree with it. */
  predicate Agrees(c: Cask, rs: seq<Record>) {
    && AllValid(rs) && c.bytes == Log(rs) && c.lastPos == |c.bytes|
    && c.index == IndexOf(FoundIn(rs, c.id))
  }

  /** Opening scans the file; it leaves the cursor where the scan ended, and lastPos
      where the file does. */
  function Opened(b: Bytes, id: nat): (c: Cask)
    requires Scanned(b, id).Entries?
  {
    var s := Scanned(b, id);
    Cask(b, s.end, |b|, IndexOf(s.found), id)
  }

  /** Replay equals incremental: a log that is opened gives the directory that the
      stores built step by step, and a cursor ready for the next store; it can be opened
      exactly when positions can count it, and traps the scan otherwise. */
  lemma OpenLogIff(rs: seq<Record>, id: nat)
    requires AllValid(rs)
    ensures Scanned(Log(rs), id).Entries? <==> |Log(rs)| <= 0xFFFF_FFFF
    ensures if Scanned(Log(rs), id).Entries?
            then Agrees(Opened(Log(rs), id), rs) && Opened(Log(rs), id).AtEnd()
            else Scanned(Log(rs), id) == Overflow
  {
    if |Log(rs)| <= U32_MAX {
      ScanLog(rs, id);
    } else {
      LongLogTraps(rs, [], id);
      assert Log(rs) + [] == Log(rs);
    }
  }

  /** Opening a log cut inside a record, when it succeeds at all, gives a store in
      agreement exactly when nothing of that record is left; what remains of a key size
      is appended to, and a missing value leaves the cursor past the end of the file. */
  lemma OpenCutAgreesIff(rs: seq<Record>, r: Record, j: nat, id: nat)
    requires AllValid(rs) && r.Valid() && j < r.Size() && |Log(rs)| + r.Size() <= U32_MAX
    ensures var b := Log(rs) + Encode(r)[..j];
            && (Scanned(b, id).Entries? <==> j < 4 || 8 + |r.key| <= j)
            && (Scanned(b, id).Entries? ==>
                  && ((exists rs' :: Agrees(Opened(b, id), rs')) <==> j == 0)
                  && (Opened(b, id).AtEnd() <==> j < 4))
  {
    var b := Log(rs) + Encode(r)[..j];
    ScanCut(rs, r, j, id);
    if j == 0 {
      assert b == Log(rs);
      assert Agrees(Opened(b, id), rs);
    }
    forall rs' | Scanned(b, id).Entries? && Agrees(Opened(b, id), rs')
      ensures j == 0
    {
      ScanLog(rs', id);
      LogEnd(rs, id);
      LogEnd(rs', id);
    }
  }

  lemma LogEnd(rs: seq<Record>, id: nat)
    requires AllValid(rs)
    ensures var f := FoundIn(rs, id);
            |Log(rs)| == if f == [] then 0 else f[|f| - 1].loc.valuePos + f[|f| - 1].loc.valueSize
  {
  }

  /** A store keeps file, writer and directory in agreement exactly when its key is not
      empty and it starts with the cursor where the writer believes it to be. */
  lemma StoreAgreesIff(c: Cask, rs: seq<Record>, r: Record)
    requires Agrees(c, rs) && CanStore(c, r) && c.cursor <= |c.bytes|
    ensures Agrees(Stored(c, r), rs + [r]) <==> c.AtEnd() && r.key != []
    ensures c.AtEnd() ==> Stored(c, r).AtEnd()
  {
    if r.key == [] {
      assert (rs + [r])[|rs|] == r;
    } else {
      LogAppend(rs, r, c.id);
      hide Log, Encode, IndexOf, FoundIn;
      if c.AtEnd() {
        assert WriteAt(c.bytes, c.cursor, Encode(r)) == c.bytes + Encode(r);
      }
    }
  }

  /** A record with an empty key reads as the end of the log: whatever is stored after
      it, the next scan sees neither it nor anything behind it. */
  lemma EmptyKeyHidesRest(rs: seq<Record>, r: Record, tail: Bytes, id: nat)
    requires AllValid(rs) && |Log(rs)| <= U32_MAX && r.key == [] && r.Size() <= U32_MAX
    ensures Scanned(Log(rs) + (Encode(r) + tail), id) == Entries(FoundIn(rs, id), |Log(rs)| + 4)
  {
    var e, n := Encode(r), |Log(rs)|;
    ScanLogTail(rs, e + tail, 0, id);
    assert rs[..0] == [] && FoundIn(rs, id)[0..] == FoundIn(rs, id) == FoundIn(rs, id) + [];
    assert (Log(rs) + (e + tail))[n..n + 4] == e[..4] == Le32(0);
    U32Le32(0);
  }

  /** A load of a state in agreement gives the last value stored, or NotFound for a key
      never stored; a load that finds its key leaves the cursor at the writer's position
      exactly when that key was stored last, any other load leaves the cursor alone. */
  lemma LoadRefinesValues(c: Cask, rs: seq<Record>, key: Bytes)
    requires Agrees(c, rs)
    ensures var (c', v) := Loaded(c, key);
            && v == (if key in Values(rs) then Value(Values(rs)[key]) else NotFound)
            && Agrees(c', rs)
            && (if key in Values(rs)
                then rs != [] && (c'.AtEnd() <==> key == rs[|rs| - 1].key) && c'.cursor <= |c.bytes|
                else c' == c)
  {
    IndexFindsValues(rs, c.id);
    hide Log, FoundIn, IndexOf, Values, Holds, AllValid, Loaded;
    LoadedCases(c, key);
    if key in Values(rs) {
      LastKeyEnds(rs, key, c.id);
      LoadedFound(c, key, Values(rs)[key]);
    }
  }

  lemma LoadedCases(c: Cask, key: Bytes)
    ensures Loaded(c, key).0 == c.(cursor := Loaded(c, key).0.cursor)
    ensures key !in c.index ==> Loaded(c, key) == (c, NotFound)
  {
  }

  lemma LoadedFound(c: Cask, key: Bytes, value: Bytes)
    requires key in c.index && Holds(c.bytes, c.index[key], value, c.id)
    ensures var end := c.index[key].valuePos + c.index[key].valueSize;
            end <= |c.bytes| && Loaded(c, key) == (c.(cursor := end), Value(value))
  {
  }

  /** Only the value of the key stored last reaches the end of the log. */
  lemma LastKeyEnds(rs: seq<Record>, key: Bytes, id: nat)
    requires AllValid(rs) && key in Values(rs)
    ensures rs != [] && key in IndexOf(FoundIn(rs, id))
    ensures var l := IndexOf(FoundIn(rs, id))[key];
            l.valuePos + l.valueSize == |Log(rs)| <==> key == rs[|rs| - 1].key
  {
    var before, r := rs[..|rs| - 1], rs[|rs| - 1];
    assert rs == before + [r];
    LogAppend(before, r, id);
    IndexFindsValues(before, id);
    hide IndexOf, FoundIn, Log, Encode;
    if key != r.key {
      assert Holds(Log(before), IndexOf(FoundIn(before, id))[key], Values(before)[key], id);
    }
  }

  /** Record `k` is the last one with the key. */
  predicate LastOf(rs: seq<Record>, key: Bytes, k: nat) {
    k < |rs| && rs[k].key == key && forall j :: k < j < |rs| ==> rs[j].key != key
  }

  /** The directory has a value of this size, ending there, under the key. */
  predicate LocIs(x: Index, key: Bytes, end: nat, size: nat, id: nat) {
    key in x && x[key].valuePos + x[key].valueSize == end && x[key].valueSize == size && x[key].fileID == id
  }

  lemma LocPut(x: Index, r: Record, at: nat, key: Bytes, end: nat, size: nat, id: nat)
    ensures LocIs(x[r.key := FoundAt(r, at, id).loc], r.key, at + r.Size(), |r.value|, id)
    ensures key != r.key && LocIs(x, key, end, size, id) ==>
              LocIs(x[r.key := FoundAt(r, at, id).loc], key, end, size, id)
  {
  }

  lemma LastBefore(rs: seq<Record>, key: Bytes, k: nat)
    requires LastOf(rs, key, k)
    ensures var last := |rs| - 1;
            && rs == rs[..last] + [rs[last]]
            && (k == last ==> rs[..k + 1] == rs && rs[last].key == key)
            && (k < last ==>
                  LastOf(rs[..last], key, k) && rs[last].key != key && rs[..last][..k + 1] == rs[..k + 1])
  {
  }

  lemma {:induction false} LocEnds(rs: seq<Record>, key: Bytes, k: nat, id: nat)
    requires AllValid(rs) && LastOf(rs, key, k)
    ensures AllValid(rs[..k + 1]) && |Log(rs[..k + 1])| <= |Log(rs)|
    ensures LocIs(IndexOf(FoundIn(rs, id)), key, |Log(rs[..k + 1])|, |rs[k].value|, id)
  {
    var last := |rs| - 1;
    LastBefore(rs, key, k);
    LogAppend(rs[..last], rs[last], id);
    hide Log, FoundIn, IndexOf, Encode, LocIs, LastOf;
    if k < last { LocEnds(rs[..last], key, k, id); }
    LocPut(IndexOf(FoundIn(rs[..last], id)), rs[last], |Log(rs[..last])|, key, |Log(rs[..k + 1])|, |rs[k].value|, id);
  }

  /** A load of a stored key leaves the cursor behind the last record with that key. */
  lemma LoadMovesBehind(c: Cask, rs: seq<Record>, key: Bytes, k: nat)
    requires Agrees(c, rs) && LastOf(rs, key, k)
    ensures |Log(rs[..k + 1])| <= |Log(rs)|
    ensures Loaded(c, key) == (c.(cursor := |Log(rs[..k + 1])|), Value(rs[k].value))
  {
    LocEnds(rs, key, k, c.id);
    ValueOfLast(rs, key, k);
    IndexFindsValues(rs, c.id);
    assert c.bytes == Log(rs) && c.index == IndexOf(FoundIn(rs, c.id));
    assert LocIs(c.index, key, |Log(rs[..k + 1])|, |rs[k].value|, c.id);
    assert Holds(c.bytes, c.index[key], rs[k].value, c.id);
    hide *;
    LoadedAt(c, key, |Log(rs[..k + 1])|, rs[k].value);
  }

  lemma LoadedAt(c: Cask, key: Bytes, end: nat, value: Bytes)
    requires LocIs(c.index, key, end, |value|, c.id) && Holds(c.bytes, c.index[key], value, c.id)
    ensures Loaded(c, key) == (c.(cursor := end), Value(value))
  {
  }

  /** A store that follows is written there, over what comes next in the log, while the
      directory and the writer count it at the end of the log. */
  lemma LoadThenStoreOverwrites(c: Cask, rs: seq<Record>, key: Bytes, k: nat, r: Record)
    requires Agrees(c, rs) && LastOf(rs, key, k) && CanStore(c, r)
    ensures CanStore(Loaded(c, key).0, r)
    ensures Stored(Loaded(c, key).0, r)
         == Cask(WriteAt(Log(rs), |Log(rs[..k + 1])|, Encode(r)), |Log(rs[..k + 1])| + r.Size(), |Log(rs)| + r.Size(),
                 c.index[r.key := Loc(c.id, |Log(rs)| + 8 + |r.key|, |r.value|)], c.id)
  {
    LoadMovesBehind(c, rs, key, k);
    hide Log, FoundIn, IndexOf, Loaded, WriteAt, Encode, LastOf;
  }

  lemma {:induction false} ValueOfLast(rs: seq<Record>, key: Bytes, k: nat)
    requires LastOf(rs, key, k)
    ensures key in Values(rs) && Values(rs)[key] == rs[k].value
  {
    if k < |rs| - 1 { ValueOfLast(rs[..|rs| - 1], key, k); }
  }

  // ---- Runs ----

  datatype Call = Store(r: Record) | Load(key: Bytes)

  /** The value lies in the file, if there is one and it is not empty: reading nothing
      succeeds anywhere. */
  predicate Reads(c: Cask, key: Bytes) {
    key in c.index && c.index[key].valueSize > 0 ==>
      c.index[key].valuePos + c.index[key].valueSize <= |c.bytes|
  }

  /** A store that respects the integer widths, or a load whose read is not short. */
  predicate CanStep(c: Cask, call: Call) {
    if call.Store? then CanStore(c, call.r) else Reads(c, call.key)
  }

  function Step(c: Cask, call: Call): Cask
    requires CanStep(c, call)
  {
    match call
    case Store(r) => Stored(c, r)
    case Load(key) => Loaded(c, key).0
  }

  function RecordsOf(calls: seq<Call>): seq<Record> {
    if calls == [] then []
    else
      var before := RecordsOf(calls[..|calls| - 1]);
      match calls[|calls| - 1]
      case Store(r) => before + [r]
      case Load(_) => before
  }

  /** Every call of the run can be made. */
  predicate Runs(c: Cask, calls: seq<Call>)
    decreases |calls|, 0
  {
    calls != [] ==>
      && Runs(c, calls[..|calls| - 1])
      && CanStep(After(c, calls[..|calls| - 1]), calls[|calls| - 1])
  }

  function After(c: Cask, calls: seq<Call>): Cask
    requires Runs(c, calls)
    decreases |calls|, 1
  {
    if calls == [] then c
    else Step(After(c, calls[..|calls| - 1]), calls[|calls| - 1])
  }

  /** Each store of the run has a key, and starts with the cursor at the writer's position. */
  predicate Disciplined(c: Cask, calls: seq<Call>)
    requires Runs(c, calls)
  {
    calls != [] ==>
      && Disciplined(c, calls[..|calls| - 1])
      && (calls[|calls| - 1].Store? ==>
            After(c, calls[..|calls| - 1]).AtEnd() && calls[|calls| - 1].r.key != [])
  }

  /** The cursor is where the last store left it: every load since then that found its
      key was of the key stored last. */
  predicate Settled(rs: seq<Record>, calls: seq<Call>) {
    calls != [] && calls[|calls| - 1].Load? ==>
      var before := calls[..|calls| - 1];
      var key, stored := calls[|calls| - 1].key, rs + RecordsOf(before);
      if key in Values(stored) then stored != [] && key == stored[|stored| - 1].key
      else Settled(rs, before)
  }

  /** Each store of the run has a key and follows no load of an older value: a rule on
      the calls alone. */
  predicate Careful(rs: seq<Record>, calls: seq<Call>) {
    calls != [] ==>
      && Careful(rs, calls[..|calls| - 1])
      && (calls[|calls| - 1].Store? ==>
            Settled(rs, calls[..|calls| - 1]) && calls[|calls| - 1].r.key != [])
  }

  // ---- A store made elsewhere is never made good ----

  /** Nothing the store knows of lies behind the writer's position. */
  predicate Bounded(c: Cask) {
    && c.cursor <= c.lastPos && |c.bytes| <= c.lastPos
    && forall k :: k in c.index ==> c.index[k].valuePos + c.index[k].valueSize <= c.lastPos
  }

  /** The file with what is missing up to the writer's position read as zeros. */
  function Padded(b: Bytes, n: nat): (p: Bytes)
    requires |b| <= n
    ensures |p| == n
  {
    b + Zeros(n - |b|)
  }

  /** The file is not the log, not even when a gap at its end is filled with zeros. */
  predicate Spoiled(c: Cask, rs: seq<Record>) {
    AllValid(rs) && |c.bytes| <= c.lastPos == |Log(rs)| && Padded(c.bytes, c.lastPos) != Log(rs)
  }

  lemma AgreesBounded(c: Cask, rs: seq<Record>)
    requires Agrees(c, rs) && c.cursor <= |c.bytes|
    ensures Bounded(c)
  {
    IndexFindsValues(rs, c.id);
    hide Log, FoundIn, IndexOf, Values, AllValid;
    forall k | k in c.index
      ensures c.index[k].valuePos + c.index[k].valueSize <= c.lastPos
    {
      assert Holds(c.bytes, c.index[k], Values(rs)[k], c.id);
    }
  }

  lemma StepBounded(c: Cask, call: Call)
    requires Bounded(c) && CanStep(c, call)
    ensures Bounded(Step(c, call))
  {
    hide WriteAt;
  }

  predicate RepeatsAt(e: Bytes, d: nat, i: nat)
    requires i < |e|
  {
    e[i] == if i + d < |e| then e[i + d] else 0
  }

  /** Bytes that repeat with a period and end in a period of zeros are all zeros. */
  lemma {:induction false} PeriodicZeros(e: Bytes, d: nat, i: nat)
    requires d > 0 && i < |e| && forall j :: 0 <= j < |e| ==> RepeatsAt(e, d, j)
    ensures e[i] == 0
    decreases |e| - i
  {
    assert RepeatsAt(e, d, i);
    if i + d < |e| { PeriodicZeros(e, d, i + d); }
  }

  /** Byte `i` of what was written `d` bytes too early, as found where it should be. */
  lemma EarlyByte(b: Bytes, e: Bytes, at: nat, n: nat, i: nat)
    requires |b| <= n && at < n && i < |e|
    ensures Padded(WriteAt(b, at, e), n + |e|)[n + i] == if n + i < at + |e| then e[n + i - at] else 0
  {
  }

  /** A record written before the end of a log is not found there, and padding does not
      help: it would repeat itself down to zeros, and its key size is not zero. */
  lemma EarlyWriteSpoils(b: Bytes, log: Bytes, at: nat, r: Record)
    requires |b| <= |log| && at < |log| && r.Valid()
    ensures Padded(WriteAt(b, at, Encode(r)), |log| + r.Size()) != log + Encode(r)
  {
    var e, n := Encode(r), |log|;
    var d := n - at;
    SizeNotZero(r);
    hide Encode, WriteAt, Padded;
    if Padded(WriteAt(b, at, e), n + |e|) == log + e {
      forall i | 0 <= i < |e|
        ensures RepeatsAt(e, d, i)
      {
        EarlyByte(b, e, at, n, i);
        assert (log + e)[n + i] == e[i];
      }
      PeriodicZeros(e, d, 0);
      PeriodicZeros(e, d, 1);
      PeriodicZeros(e, d, 2);
      PeriodicZeros(e, d, 3);
    }
  }

  lemma SizeNotZero(r: Record)
    requires r.Valid()
    ensures var e := Encode(r);
            !(e[0] == 0 && e[1] == 0 && e[2] == 0 && e[3] == 0)
  {
    var e := Encode(r);
    assert e[..4] == Le32(|r.key|);
    assert forall k :: 0 <= k < 4 ==> e[k] == e[..4][k];
  }

  /** A record written at the end of the padded file leaves the file as wrong as it was. */
  lemma LateWriteKeeps(b: Bytes, n: nat, e: Bytes)
    requires |b| <= n
    ensures Padded(WriteAt(b, n, e), n + |e|) == Padded(b, n) + e
  {
  }

  lemma SpoiledStays(c: Cask, rs: seq<Record>, r: Record)
    requires Bounded(c) && Spoiled(c, rs) && CanStore(c, r) && r.Valid()
    ensures Spoiled(Stored(c, r), rs + [r])
  {
    LogAppend(rs, r, c.id);
    hide Log, Encode, WriteAt, Padded, IndexOf, FoundIn, AllValid;
    if c.cursor < c.lastPos {
      EarlyWriteSpoils(c.bytes, Log(rs), c.cursor, r);
    } else {
      LateWriteKeeps(c.bytes, c.lastPos, Encode(r));
      if Padded(c.bytes, c.lastPos) + Encode(r) == Log(rs) + Encode(r) {
        SuffixCancels(Padded(c.bytes, c.lastPos), Log(rs), Encode(r));
      }
    }
  }

  lemma EarlyStoreSpoils(c: Cask, rs: seq<Record>, r: Record)
    requires Agrees(c, rs) && Bounded(c) && !c.AtEnd() && CanStore(c, r) && r.Valid()
    ensures Spoiled(Stored(c, r), rs + [r])
  {
    LogAppend(rs, r, c.id);
    hide Log, Encode, WriteAt, Padded, IndexOf, FoundIn, AllValid;
    EarlyWriteSpoils(c.bytes, Log(rs), c.cursor, r);
  }

  lemma SpoiledDisagrees(c: Cask, rs: seq<Record>)
    requires Spoiled(c, rs)
    ensures !Agrees(c, rs)
  {
  }

  lemma {:induction false} RunState(c: Cask, rs: seq<Record>, calls: seq<Call>)
    requires Agrees(c, rs) && c.cursor <= |c.bytes| && Runs(c, calls) && AllValid(RecordsOf(calls))
    ensures var c', all := After(c, calls), rs + RecordsOf(calls);
            && Bounded(c')
            && (if Disciplined(c, calls) then Agrees(c', all) && c'.cursor <= |c'.bytes| else Spoiled(c', all))
  {
    if calls == [] {
      assert rs + [] == rs;
      AgreesBounded(c, rs);
    } else {
      var before, call := calls[..|calls| - 1], calls[|calls| - 1];
      RecordsStep(calls);
      RunState(c, rs, before);
      var c1 := After(c, before);
      var rs1 := rs + RecordsOf(before);
      StepBounded(c1, call);
      hide Agrees, Bounded, Spoiled, Log, FoundIn, IndexOf, Encode, RecordsOf, AllValid;
      match call {
        case Store(r) =>
          assert rs + (RecordsOf(before) + [r]) == rs1 + [r];
          if !Disciplined(c, before) {
            SpoiledStays(c1, rs1, r);
          } else if c1.AtEnd() {
            StoreAgreesIff(c1, rs1, r);
          } else {
            EarlyStoreSpoils(c1, rs1, r);
          }
        case Load(key) => LoadKeeps(c1, rs1, key);
      }
    }
  }

  lemma LoadKeeps(c: Cask, rs: seq<Record>, key: Bytes)
    ensures Agrees(c, rs) ==> Agrees(Loaded(c, key).0, rs)
    ensures Agrees(c, rs) && c.cursor <= |c.bytes| ==> Loaded(c, key).0.cursor <= |c.bytes|
    ensures Spoiled(c, rs) ==> Spoiled(Loaded(c, key).0, rs)
    ensures Loaded(c, key).0.bytes == c.bytes
  {
    hide Log, FoundIn, IndexOf, Values, Padded, AllValid;
    if Agrees(c, rs) { LoadRefinesValues(c, rs, key); }
  }

  lemma RecordsStep(calls: seq<Call>)
    requires calls != [] && AllValid(RecordsOf(calls))
    ensures var before, call := calls[..|calls| - 1], calls[|calls| - 1];
            && AllValid(RecordsOf(before))
            && RecordsOf(calls) == (if call.Store? then RecordsOf(before) + [call.r] else RecordsOf(before))
            && (call.Store? ==> call.r.Valid())
  {
    var before, call := calls[..|calls| - 1], calls[|calls| - 1];
    if call.Store? {
      var all := RecordsOf(before) + [call.r];
      assert all[|all| - 1] == call.r && RecordsOf(before) == all[..|all| - 1];
    }
  }

  lemma {:induction false} DisciplinedKeys(c: Cask, calls: seq<Call>)
    requires Runs(c, calls) && Disciplined(c, calls)
    ensures AllValid(RecordsOf(calls))
  {
    if calls != [] { DisciplinedKeys(c, calls[..|calls| - 1]); }
  }

  /** Over every run of stores and loads the file is the log of what was stored, and the
      directory and writer agree with it, exactly when every store had a key and found
      the cursor at the writer's position: one store made elsewhere is never made good. */
  lemma DisciplineDecides(c: Cask, rs: seq<Record>, calls: seq<Call>)
    requires Agrees(c, rs) && c.cursor <= |c.bytes| && Runs(c, calls)
    ensures Agrees(After(c, calls), rs + RecordsOf(calls)) <==> Disciplined(c, calls)
  {
    if Disciplined(c, calls) { DisciplinedKeys(c, calls); }
    var all := rs + RecordsOf(calls);
    if AllValid(all) {
      assert RecordsOf(calls) == all[|rs|..];
      RunState(c, rs, calls);
      hide Agrees, Spoiled, Disciplined;
      if !Disciplined(c, calls) { SpoiledDisagrees(After(c, calls), all); }
    }
  }

  /** As long as the rule is kept, the calls alone tell where the cursor is. */
  lemma {:induction false} CarefulIsDisciplined(c: Cask, rs: seq<Record>, calls: seq<Call>)
    requires Agrees(c, rs) && c.AtEnd() && Runs(c, calls)
    ensures Disciplined(c, calls) <==> Careful(rs, calls)
    ensures Disciplined(c, calls) ==> (After(c, calls).AtEnd() <==> Settled(rs, calls))
  {
    if calls != [] {
      var before, call := calls[..|calls| - 1], calls[|calls| - 1];
      CarefulIsDisciplined(c, rs, before);
      if Disciplined(c, before) {
        DisciplineDecides(c, rs, before);
        var c1, rs1 := After(c, before), rs + RecordsOf(before);
        hide Agrees, Runs, Values, RecordsOf;
        if call.Load? { LoadRefinesValues(c1, rs1, call.key); }
      }
    }
  }

  /** Over every run of stores and loads on an opened store, file, directory and writer
      agree on all that was stored if and only if every store had a key and no load
      since the store before it was of an older value. */
  lemma RunAgreesIff(c: Cask, rs: seq<Record>, calls: seq<Call>)
    requires Agrees(c, rs) && c.AtEnd() && Runs(c, calls)
    ensures Agrees(After(c, calls), rs + RecordsOf(calls)) <==> Careful(rs, calls)
  {
    DisciplineDecides(c, rs, calls);
    CarefulIsDisciplined(c, rs, calls);
  }

  /** What a careful run leaves can be opened again exactly when positions can count it,
      and opening gives the very directory and writer the run ended with. A store is
      allowed as long as its value starts at a position that can be counted. */
  lemma ReopenIff(c: Cask, rs: seq<Record>, calls: seq<Call>)
    requires Agrees(c, rs) && c.AtEnd() && Runs(c, calls) && Careful(rs, calls)
    ensures var c' := After(c, calls);
            var again := Scanned(c'.bytes, c'.id);
            && (again.Entries? <==> c'.lastPos <= U32_MAX)
            && (again.Entries? ==> Opened(c'.bytes, c'.id) == c'.(cursor := c'.lastPos))
            && (!again.Entries? ==> again == Overflow)
  {
    RunAgreesIff(c, rs, calls);
    OpenLogIff(rs + RecordsOf(calls), After(c, calls).id);
    hide Careful, After, RecordsOf, ScanFrom, Log;
  }

  lemma RunsOne(c: Cask, calls: seq<Call>, call: Call)
    requires Runs(c, calls)
    requires CanStep(After(c, calls), call)
    ensures Runs(c, calls + [call]) && After(c, calls + [call]) == Step(After(c, calls), call)
    ensures Disciplined(c, calls + [call]) <==>
            Disciplined(c, calls) && (call.Store? ==> After(c, calls).AtEnd() && call.r.key != [])
  {
    assert (calls + [call])[..|calls|] == calls;
  }

  /** Loading anything but the last value before a store is what breaks the rule: two
      stores, a load of the first, and a third store whose value cannot be loaded. */
  lemma LoadThenStoreLoses(id: nat)
    ensures var c := Opened([], id);
            var calls := [Store(Record([1], [7])), Store(Record([2], [8])), Load([1]),
                          Store(Record([3], [9]))];
            && Agrees(c, []) && Runs(c, calls) && !Disciplined(c, calls)
            && Loaded(After(c, calls), [3]).1 == ShortRead
  {
    var c := Opened([], id);
    var a, b, l, d := Store(Record([1], [7])), Store(Record([2], [8])), Load([1]), Store(Record([3], [9]));
    assert (|c.bytes|, c.cursor, c.lastPos) == (0, 0, 0);
    hide Opened, ScanFrom, Runs, After, Disciplined, Stored;
    SmallStore(c, 1, 7);
    var c1 := Step(c, a);
    SmallStore(c1, 2, 8);
    var c2 := Step(c1, b);
    KeysDiffer();
    assert c2.index[[1]] == Loc(c.id, 9, 1);
    var c3 := Step(c2, l);
    assert (|c3.bytes|, c3.cursor, c3.lastPos) == (20, 10, 20);
    SmallStore(c3, 3, 9);
    FourCalls(c, a, b, l, d);
    assert [a] + [b] + [l] + [d] == [a, b, l, d];
  }

  lemma KeysDiffer()
    ensures [1] != [2]
  {
    assert [1][0] != [2][0];
  }

  lemma FourCalls(c: Cask, a: Call, b: Call, l: Call, d: Call)
    requires CanStep(c, a) && CanStep(Step(c, a), b) && CanStep(Step(Step(c, a), b), l)
    requires CanStep(Step(Step(Step(c, a), b), l), d)
    requires d.Store? && !Step(Step(Step(c, a), b), l).AtEnd()
    ensures var calls := [a] + [b] + [l] + [d];
            Runs(c, calls) && !Disciplined(c, calls) && After(c, calls) == Step(Step(Step(Step(c, a), b), l), d)
  {
    var none: seq<Call> := [];
    assert Runs(c, none) && After(c, none) == c;
    hide Runs, After, Disciplined, CanStep, Step;
    RunsOne(c, none, a);
    assert none + [a] == [a];
    RunsOne(c, [a], b);
    RunsOne(c, [a] + [b], l);
    RunsOne(c, [a] + [b] + [l], d);
  }

  /** Storing one byte under a key of one byte. */
  lemma SmallStore(c: Cask, k: byte, v: byte)
    requires c.lastPos < 100
    ensures var r := Record([k], [v]);
            && CanStore(c, r)
            && Stored(c, r) == Cask(Stored(c, r).bytes, c.cursor + 10, c.lastPos + 10,
                                    c.index[[k] := Loc(c.id, c.lastPos + 9, 1)], c.id)
            && |Stored(c, r).bytes| == Max(|c.bytes|, c.cursor + 10)
  {
    hide WriteAt, Encode;
  }
}

/** The segment file of the key-value store: records on disk and the scan that finds
    them again. */
module CaskLog {
  import opened Arith
  import opened Sequences

  type byte = b: int | 0 <= b < 256
  type Bytes = seq<byte>

  function Le32(n: nat): (b: Bytes)
    requires n <= U32_MAX
    ensures |b| == 4
  {
    [n % 256, n / 256 % 256, n / 256 / 256 % 256, n / 256 / 256 / 256]
  }

  function U32(b: Bytes): (n: nat)
    requires |b| == 4
    ensures n <= U32_MAX
  {
    var b0: nat, b1: nat, b2: nat, b3: nat := b[0], b[1], b[2], b[3];
    b0 + 256 * (b1 + 256 * (b2 + 256 * b3))
  }

  lemma U32Le32(n: nat)
    requires n <= U32_MAX
    ensures U32(Le32(n)) == n
  {
  }

  /** Least significant byte first. */
  lemma Le32Digits(n: nat)
    requires n <= 0xFFFF_FFFF
    ensures Le32(n) == [n % 256, n / 256 % 256, n / 65536 % 256, n / 16777216 % 256]
  {
    assert n / 256 / 256 == n / 65536 && n / 256 / 256 / 256 == n / 16777216;
  }

  datatype Record = Record(key: Bytes, value: Bytes)
  {
    function Size(): nat { 8 + |key| + |value| }

    /** What `serialize` can write and the scan does not take for the end. */
    predicate Valid() { key != [] && Size() <= U32_MAX }
  }

  function Encode(r: Record): (b: Bytes)
    requires r.Size() <= U32_MAX
    ensures |b| == r.Size()
  {
    Le32(|r.key|) + Le32(|r.value|) + r.key + r.value
  }

  /** The layout of a record on disk, byte by byte: two sizes of four bytes, least
      significant first, then the key, then the value. */
  lemma EncodedBytes(r: Record)
    requires r.Size() <= 0xFFFF_FFFF
    ensures var e, k, v := Encode(r), |r.key|, |r.value|;
            && |e| == 8 + k + v
            && (e[0], e[1], e[2], e[3]) == (k % 256, k / 256 % 256, k / 65536 % 256, k / 16777216 % 256)
            && (e[4], e[5], e[6], e[7]) == (v % 256, v / 256 % 256, v / 65536 % 256, v / 16777216 % 256)
            && e[8..8 + k] == r.key && e[8 + k..] == r.value
  {
    Le32Digits(|r.key|);
    Le32Digits(|r.value|);
    hide Le32;
  }

  predicate AllValid(rs: seq<Record>) { forall i :: 0 <= i < |rs| ==> rs[i].Valid() }

  function Log(rs: seq<Record>): Bytes
    requires AllValid(rs)
  {
    if rs == [] then [] else Log(rs[..|rs| - 1]) + Encode(rs[|rs| - 1])
  }

  /** Where a value is: the part of a directory entry that does not own memory. */
  datatype Loc = Loc(fileID: nat, valuePos: nat, valueSize: nat)

  datatype Found = Found(key: Bytes, loc: Loc)

  function FoundAt(r: Record, at: nat, id: nat): Found {
    Found(r.key, Loc(id, at + 8 + |r.key|, |r.value|))
  }

  /** The entries of the records of a log, in order. */
  function FoundIn(rs: seq<Record>, id: nat): (f: seq<Found>)
    requires AllValid(rs)
    ensures |f| == |rs|
  {
    if rs == [] then []
    else
      var before := rs[..|rs| - 1];
      FoundIn(before, id) + [FoundAt(rs[|rs| - 1], |Log(before)|, id)]
  }

  // ---- The scan ----

  datatype Scan =
    | Entries(found: seq<Found>, end: nat)
    | EndOfStream
    | InvalidSegmentFile
    | Overflow

  /** readAllEntries from `pos` on; `end` is where it leaves the file cursor. */
  function ScanFrom(b: Bytes, pos: nat, id: nat): Scan
    decreases Max(0, |b| - pos)
  {
    if pos + 4 > |b| then Entries([], Max(pos, |b|))
    else
      var keySize := U32(b[pos..pos + 4]);
      if keySize == 0 then Entries([], pos + 4)
      else if pos + 8 > |b| then EndOfStream
      else
        var valueSize := U32(b[pos + 4..pos + 8]);
        if pos + 8 + keySize > |b| then InvalidSegmentFile
        else
          var next := pos + 8 + keySize + valueSize;
          if next > U32_MAX then Overflow
          else
            var f := Found(b[pos + 8..pos + 8 + keySize], Loc(id, pos + 8 + keySize, valueSize));
            var rest := ScanFrom(b, next, id);
            if rest.Entries? then rest.(found := [f] + rest.found) else rest
  }

  /** The entries listed by the time the scan stops, for whatever reason. */
  function ListedFrom(b: Bytes, pos: nat, id: nat): (f: seq<Found>)
    ensures ScanFrom(b, pos, id).Entries? ==> f == ScanFrom(b, pos, id).found
    decreases Max(0, |b| - pos)
  {
    if pos + 8 > |b| then []
    else
      var k, v := U32(b[pos..pos + 4]), U32(b[pos + 4..pos + 8]);
      var next := pos + 8 + k + v;
      if k == 0 || pos + 8 + k > |b| || next > U32_MAX then []
      else [Found(b[pos + 8..pos + 8 + k], Loc(id, pos + 8 + k, v))] + ListedFrom(b, next, id)
  }

  function Scanned(b: Bytes, id: nat): Scan { ScanFrom(b, 0, id) }

  lemma SizesOf(b: Bytes, pos: nat, r: Record)
    requires r.Valid() && pos + 8 <= |b| && b[pos..pos + 8] == Le32(|r.key|) + Le32(|r.value|)
    ensures U32(b[pos..pos + 4]) == |r.key| && U32(b[pos + 4..pos + 8]) == |r.value|
  {
    assert b[pos..pos + 4] == b[pos..pos + 8][..4] == Le32(|r.key|);
    assert b[pos + 4..pos + 8] == b[pos..pos + 8][4..] == Le32(|r.value|);
    U32Le32(|r.key|);
    U32Le32(|r.value|);
  }

  /** A record is read as itself, wherever it stands and whatever follows: its value
      need not even be there. One that ends past 2^32 - 1 traps the scan. */
  lemma ScanRecord(b: Bytes, pos: nat, r: Record, id: nat)
    requires r.Valid() && pos + 8 + |r.key| <= |b|
    requires b[pos..pos + 8 + |r.key|] == Encode(r)[..8 + |r.key|]
    ensures ScanFrom(b, pos, id) ==
            if pos + r.Size() > U32_MAX then Overflow
            else Then([FoundAt(r, pos, id)], ScanFrom(b, pos + r.Size(), id))
  {
    var h := 8 + |r.key|;
    var e := Encode(r);
    assert b[pos..pos + 8] == b[pos..pos + h][..8] == e[..8] == Le32(|r.key|) + Le32(|r.value|);
    SizesOf(b, pos, r);
    assert b[pos + 8..pos + h] == b[pos..pos + h][8..] == e[8..h] == r.key;
    hide Le32, U32, Encode;
  }

  /** Where each record of a log lies. */
  lemma LogAt(rs: seq<Record>, k: nat)
    requires AllValid(rs) && k < |rs|
    ensures |Log(rs[..k + 1])| == |Log(rs[..k])| + rs[k].Size() <= |Log(rs)|
    ensures Log(rs)[|Log(rs[..k])|..|Log(rs[..k])| + rs[k].Size()] == Encode(rs[k])
  {
    hide Encode;
    LogPrefix(rs, k + 1);
    assert rs[..k + 1][..k] == rs[..k];
    var at := |Log(rs[..k])|;
    assert Log(rs)[at..at + rs[k].Size()] == Log(rs[..k + 1])[at..];
  }

  /** The sizes and the key of each record of a log, whatever is appended to the log. */
  lemma HeadAt(rs: seq<Record>, tail: Bytes, k: nat)
    requires AllValid(rs) && k < |rs|
    ensures var at, h := |Log(rs[..k])|, 8 + |rs[k].key|;
            at + h <= |Log(rs)| && (Log(rs) + tail)[at..at + h] == Encode(rs[k])[..h]
  {
    LogAt(rs, k);
    hide Log, Encode;
    SliceOfSlice(Log(rs), tail, |Log(rs[..k])|, Encode(rs[k]), 8 + |rs[k].key|);
  }

  function Then(f: seq<Found>, s: Scan): Scan {
    if s.Entries? then s.(found := f + s.found) else s
  }

  /** Scanning a log from a record boundary finds what comes before the tail, then
      whatever the tail gives. */
  lemma {:induction false} ScanLogTail(rs: seq<Record>, tail: Bytes, k: nat, id: nat)
    requires AllValid(rs) && k <= |rs| && |Log(rs)| <= U32_MAX
    ensures ScanFrom(Log(rs) + tail, |Log(rs[..k])|, id)
         == Then(FoundIn(rs, id)[k..], ScanFrom(Log(rs) + tail, |Log(rs)|, id))
    decreases |rs| - k
  {
    hide ScanFrom, Encode, Log, FoundIn;
    var b := Log(rs) + tail;
    var rest := ScanFrom(b, |Log(rs)|, id);
    if k == |rs| {
      assert rs[..k] == rs;
      assert FoundIn(rs, id)[k..] == [];
      assert rest.Entries? ==> [] + rest.found == rest.found;
    } else {
      var r, at := rs[k], |Log(rs[..k])|;
      LogAt(rs, k);
      HeadAt(rs, tail, k);
      ScanRecord(b, at, r, id);
      ScanLogTail(rs, tail, k + 1, id);
      FoundInAt(rs, k, id);
      var f := FoundIn(rs, id);
      assert f[k..] == [f[k]] + f[k + 1..];
      assert rest.Entries? ==> f[k..] + rest.found == [f[k]] + (f[k + 1..] + rest.found);
    }
  }

  lemma {:induction false} LogPrefix(rs: seq<Record>, k: nat)
    requires AllValid(rs) && k <= |rs|
    ensures Log(rs[..k]) <= Log(rs)
  {
    if k < |rs| {
      assert rs[..|rs| - 1][..k] == rs[..k];
      LogPrefix(rs[..|rs| - 1], k);
    } else {
      assert rs[..k] == rs;
    }
  }

  lemma {:induction false} FoundInAt(rs: seq<Record>, k: nat, id: nat)
    requires AllValid(rs) && k < |rs|
    ensures FoundIn(rs, id)[k] == FoundAt(rs[k], |Log(rs[..k])|, id)
  {
    if k < |rs| - 1 {
      assert rs[..|rs| - 1][..k] == rs[..k];
      FoundInAt(rs[..|rs| - 1], k, id);
    }
  }

  /** Scanning a whole log finds every record and leaves the cursor at its end. */
  lemma ScanLog(rs: seq<Record>, id: nat)
    requires AllValid(rs) && |Log(rs)| <= U32_MAX
    ensures Scanned(Log(rs), id) == Entries(FoundIn(rs, id), |Log(rs)|)
  {
    ScanLogTail(rs, [], 0, id);
    assert Log(rs) + [] == Log(rs) && rs[..0] == [];
    assert FoundIn(rs, id)[0..] + [] == FoundIn(rs, id);
    hide Log;
  }

  /** A log that is longer than positions can count traps the scan. */
  lemma {:induction false} LongLogTraps(rs: seq<Record>, tail: Bytes, id: nat)
    requires AllValid(rs) && |Log(rs)| > U32_MAX
    ensures Scanned(Log(rs) + tail, id) == Overflow
  {
    var before, r := rs[..|rs| - 1], rs[|rs| - 1];
    Regroup(Log(before), Encode(r), tail);
    if |Log(before)| > U32_MAX {
      LongLogTraps(before, Encode(r) + tail, id);
    } else {
      assert before[..0] == [];
      ScanLogTail(before, Encode(r) + tail, 0, id);
      hide Log, Encode, ScanFrom, FoundIn, AllValid;
      RecordTraps(Log(before), r, tail, id);
    }
  }

  lemma RecordTraps(b: Bytes, r: Record, tail: Bytes, id: nat)
    requires r.Valid() && |b| + r.Size() > U32_MAX
    ensures ScanFrom(b + (Encode(r) + tail), |b|, id) == Overflow
  {
    var e := Encode(r);
    hide Encode, ScanFrom;
    Regroup(b, e, tail);
    SliceOfSlice(b + e, tail, |b|, e, 8 + |r.key|);
    ScanRecord(b + (e + tail), |b|, r, id);
  }

  // ---- Truncation ----

  /** What the scan makes of a log whose last record is cut after `j` bytes. */
  function CutResult(rs: seq<Record>, r: Record, j: nat, id: nat): Scan
    requires AllValid(rs)
  {
    var n := |Log(rs)|;
    if n > U32_MAX then Overflow
    else if j < 4 then Entries(FoundIn(rs, id), n + j)
    else if j < 8 then EndOfStream
    else if j < 8 + |r.key| then InvalidSegmentFile
    else if n + r.Size() > U32_MAX then Overflow
    else Entries(FoundIn(rs, id) + [FoundAt(r, n, id)], n + r.Size())
  }

  lemma ScanCut(rs: seq<Record>, r: Record, j: nat, id: nat)
    requires AllValid(rs) && r.Valid() && j < r.Size()
    ensures Scanned(Log(rs) + Encode(r)[..j], id) == CutResult(rs, r, j, id)
  {
    var n, tail := |Log(rs)|, Encode(r)[..j];
    var b := Log(rs) + tail;
    if n > U32_MAX {
      LongLogTraps(rs, tail, id);
    } else {
      ScanLogTail(rs, tail, 0, id);
      assert rs[..0] == [] && FoundIn(rs, id)[0..] == FoundIn(rs, id) == FoundIn(rs, id) + [];
      hide Log, FoundIn, Encode, ScanFrom;
      TailCut(b, n, r, j, id);
    }
  }

  lemma TailCut(b: Bytes, n: nat, r: Record, j: nat, id: nat)
    requires r.Valid() && j < r.Size() && n <= U32_MAX
    requires |b| == n + j && b[n..] == Encode(r)[..j]
    ensures ScanFrom(b, n, id) ==
            if j < 4 then Entries([], n + j)
            else if j < 8 then EndOfStream
            else if j < 8 + |r.key| then InvalidSegmentFile
            else if n + r.Size() > U32_MAX then Overflow
            else Entries([FoundAt(r, n, id)], n + r.Size())
  {
    var tail := Encode(r)[..j];
    if j < 4 {
    } else if j < 8 {
      assert b[n..n + 4] == b[n..][..4] == tail[..4] == Le32(|r.key|);
      U32Le32(|r.key|);
    } else if j < 8 + |r.key| {
      assert b[n..n + 8] == b[n..][..8] == tail[..8] == Le32(|r.key|) + Le32(|r.value|);
      SizesOf(b, n, r);
    } else {
      assert b[n..n + 8 + |r.key|] == b[n..][..8 + |r.key|] == tail[..8 + |r.key|] == Encode(r)[..8 + |r.key|];
      ScanRecord(b, n, r, id);
    }
  }

  /** Every prefix of a log is a whole log followed by less than one record. */
  lemma {:induction false} CutPoint(rs: seq<Record>, n: nat) returns (k: nat)
    requires AllValid(rs) && n < |Log(rs)|
    ensures k < |rs| && |Log(rs[..k])| <= n < |Log(rs[..k])| + rs[k].Size()
    ensures Log(rs)[..n] == Log(rs[..k]) + Encode(rs[k])[..n - |Log(rs[..k])|]
  {
    var last := |rs| - 1;
    if n < |Log(rs[..last])| {
      k := CutPoint(rs[..last], n);
      assert rs[..last][..k] == rs[..k];
      assert Log(rs)[..n] == Log(rs[..last])[..n];
    } else {
      k := last;
    }
  }

  /** So every truncation of a log is classified by where its last record is cut: at a
      boundary or in a key size it reads as the whole records; in a value size the
      stream ends; in a key the file is invalid; in a value the record is listed all
      the same, its extent reaching past the end of the file. Any of them that reaches a
      record ending past 2^32 - 1, with its key, traps. */
  lemma EveryTruncation(rs: seq<Record>, n: nat, id: nat)
    requires AllValid(rs) && n <= |Log(rs)|
    ensures n == |Log(rs)| ==>
              Scanned(Log(rs)[..n], id) == if n <= 0xFFFF_FFFF then Entries(FoundIn(rs, id), n) else Overflow
    ensures n < |Log(rs)| ==>
              exists k: nat :: k < |rs| && |Log(rs[..k])| <= n < |Log(rs[..k])| + rs[k].Size()
                && Scanned(Log(rs)[..n], id) == CutResult(rs[..k], rs[k], n - |Log(rs[..k])|, id)
  {
    if n == |Log(rs)| {
      assert Log(rs)[..n] == Log(rs) == Log(rs) + [];
      if n <= U32_MAX { ScanLog(rs, id); } else { LongLogTraps(rs, [], id); }
    } else {
      var k := CutPoint(rs, n);
      LogAt(rs, k);
      assert AllValid(rs[..k]) && rs[k].Valid();
      hide Log, Encode, FoundIn, ScanFrom, CutResult, AllValid;
      ScanCut(rs[..k], rs[k], n - |Log(rs[..k])|, id);
    }
  }
}

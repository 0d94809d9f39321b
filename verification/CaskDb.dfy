/** The key-value store as it runs: a file with a cursor, a directory of owned keys, and
    the allocator the keys come from. */
module CaskDb {
  import opened Arith
  import opened CaskLog
  import opened CaskIndex

  /** An allocated copy of some bytes. */
  datatype Slice = Slice(id: nat, bytes: Bytes)

  /** The allocations of keys that are live; a slice can be freed only while it is. */
  class Allocator {
    var live: set<nat>
    var next: nat

    ghost predicate Valid()
      reads this
    {
      forall i :: i in live ==> i < next
    }

    constructor ()
      ensures Valid() && live == {}
    {
      live, next := {}, 0;
    }

    method Dupe(b: Bytes) returns (s: Slice)
      requires Valid()
      modifies this
      ensures Valid() && s.bytes == b && s.id !in old(live) && live == old(live) + {s.id}
      ensures old(next) <= s.id < next
    {
      s := Slice(next, b);
      live, next := live + {next}, next + 1;
    }

    method Free(s: Slice)
      requires Valid() && s.id in live
      modifies this
      ensures Valid() && live == old(live) - {s.id} && next == old(next)
    {
      live := live - {s.id};
    }
  }

  /** KeyDirEntry: the key belongs to the directory. */
  datatype DirEntry = DirEntry(key: Slice, loc: Loc)

  function Plain(e: DirEntry): Found { Found(e.key.bytes, e.loc) }

  function PlainAll(es: seq<DirEntry>): (f: seq<Found>)
    ensures |f| == |es| && forall i :: 0 <= i < |es| ==> f[i] == Plain(es[i])
  {
    seq(|es|, i requires 0 <= i < |es| => Plain(es[i]))
  }

  datatype Error = NoError | EndOfStreamError | InvalidSegmentError | OverflowTrap

  function ErrorOf(s: Scan): Error {
    match s
    case Entries(_, _) => NoError
    case EndOfStream => EndOfStreamError
    case InvalidSegmentFile => InvalidSegmentError
    case Overflow => OverflowTrap
  }

  /** serialize: header, key and value written one after the other into one buffer. */
  method Serialize(r: Record) returns (buf: array<byte>)
    requires r.Size() <= U32_MAX
    ensures fresh(buf) && buf[..] == Encode(r)
  {
    hide Le32;
    buf := new byte[r.Size()](_ => 0);
    assert buf[..0] == [];
    PutBytes(buf, 0, Le32(|r.key|));
    PutBytes(buf, 4, Le32(|r.value|));
    PutBytes(buf, 8, r.key);
    PutBytes(buf, 8 + |r.key|, r.value);
    assert buf[..] == buf[..8 + |r.key| + |r.value|];
  }

  method PutBytes(buf: array<byte>, at: nat, b: Bytes)
    requires at + |b| <= buf.Length
    modifies buf
    ensures buf[..at + |b|] == old(buf[..at]) + b
  {
    forall i | at <= i < at + |b| {
      buf[i] := b[i - at];
    }
  }

  /** What one round of the scan comes to. */
  datatype Round = End | Failed(error: Error) | Listed(entry: DirEntry, next: nat)

  class CaskFile {
    const fileID: nat
    var bytes: Bytes
    var cursor: nat
    var lastPos: nat

    /** A file as it is opened: the cursor at the start. */
    constructor (id: nat, bytes: Bytes)
      ensures fileID == id && this.bytes == bytes && cursor == 0 && lastPos == 0
    {
      fileID, this.bytes, cursor, lastPos := id, bytes, 0, 0;
    }

    /** The offset given to seekFromEnd is the size itself, so the cursor goes to twice it. */
    method SeekLast()
      modifies this`lastPos, this`cursor
      ensures lastPos == |bytes| && cursor == 2 * |bytes|
    {
      lastPos := |bytes|;
      cursor := |bytes| + lastPos;
    }

    method SeekTo(pos: nat)
      modifies this`cursor
      ensures cursor == pos
    {
      cursor := pos;
    }

    /** Up to `n` bytes from the cursor on, fewer only at the end of the file. */
    method Read(n: nat) returns (b: Bytes)
      modifies this`cursor
      ensures old(cursor) + n <= |bytes| ==> b == bytes[old(cursor)..old(cursor) + n] && cursor == old(cursor) + n
      ensures old(cursor) + n > |bytes| ==>
                |b| == Max(0, |bytes| - old(cursor)) && cursor == Max(old(cursor), |bytes|)
    {
      if cursor + n <= |bytes| {
        b := bytes[cursor..cursor + n];
        cursor := cursor + n;
      } else if cursor <= |bytes| {
        b := bytes[cursor..];
        cursor := |bytes|;
      } else {
        b := [];
      }
    }

    method Write(data: Bytes)
      modifies this
      ensures bytes == WriteAt(old(bytes), old(cursor), data)
      ensures cursor == old(cursor) + |data| && lastPos == old(lastPos) + |data|
    {
      bytes := WriteAt(bytes, cursor, data);
      cursor := cursor + |data|;
      lastPos := lastPos + |data|;
    }

    /** Every entry of the file with a freshly allocated key. When the scan fails the
        keys allocated so far stay allocated: one for each entry listed, and the one
        the scan stopped at, if it came as far as reading it. */
    method ReadAllEntries(heap: Allocator) returns (error: Error, entries: seq<DirEntry>)
      requires heap.Valid() && heap.live == {}
      modifies this`cursor, heap
      ensures heap.Valid() && error == ErrorOf(Scanned(bytes, fileID))
      ensures PlainAll(entries) == ListedFrom(bytes, 0, fileID) && Unshared(entries)
      ensures error == NoError ==>
                Scanned(bytes, fileID) == Entries(PlainAll(entries), cursor) && heap.live == KeyIds(entries, 0)
      ensures error == EndOfStreamError ==> heap.live == KeyIds(entries, 0)
      ensures error == InvalidSegmentError || error == OverflowTrap ==>
                exists i :: i !in KeyIds(entries, 0) && heap.live == KeyIds(entries, 0) + {i}
    {
      hide ScanFrom, ListedFrom, U32, PlainAll, KeyIds, Unshared;
      entries := [];
      SeekTo(0);
      var lastPost := 0;
      NoEntries(ScanFrom(bytes, 0, fileID), ListedFrom(bytes, 0, fileID));
      while true
        invariant heap.Valid() && cursor == lastPost
        invariant Scanned(bytes, fileID) == Then(PlainAll(entries), ScanFrom(bytes, lastPost, fileID))
        invariant ListedFrom(bytes, 0, fileID) == PlainAll(entries) + ListedFrom(bytes, lastPost, fileID)
        invariant heap.live == KeyIds(entries, 0) && Unshared(entries)
        decreases Max(0, |bytes| - lastPost)
      {
        LastScan(PlainAll(entries));
        var round := ReadEntry(lastPost, heap);
        if round.End? { return NoError, entries; }
        if round.Failed? { return round.error, entries; }
        MoreEntries(entries, round.entry, ScanFrom(bytes, round.next, fileID), ListedFrom(bytes, round.next, fileID));
        entries := entries + [round.entry];
        lastPost := round.next;
        SeekTo(lastPost);
      }
    }

    /** One round of the loop, from the position of a record. */
    method ReadEntry(lastPost: nat, heap: Allocator) returns (round: Round)
      requires heap.Valid() && cursor == lastPost
      modifies this`cursor, heap
      ensures heap.Valid()
      ensures match round
              case End =>
                && ScanFrom(bytes, lastPost, fileID) == Entries([], cursor)
                && ListedFrom(bytes, lastPost, fileID) == [] && heap.live == old(heap.live)
              case Failed(error) =>
                && error == ErrorOf(ScanFrom(bytes, lastPost, fileID)) != NoError
                && ListedFrom(bytes, lastPost, fileID) == []
                && if error == EndOfStreamError then heap.live == old(heap.live)
                   else exists i :: i !in old(heap.live) && heap.live == old(heap.live) + {i}
              case Listed(e, next) =>
                && lastPost < next && lastPost < |bytes|
                && ScanFrom(bytes, lastPost, fileID) == Then([Plain(e)], ScanFrom(bytes, next, fileID))
                && ListedFrom(bytes, lastPost, fileID) == [Plain(e)] + ListedFrom(bytes, next, fileID)
                && e.key.id !in old(heap.live) && heap.live == old(heap.live) + {e.key.id}
    {
      hide ScanFrom, ListedFrom, U32;
      ScanCases(bytes, lastPost, fileID);
      ListedCases(bytes, lastPost, fileID);
      var b := Read(4);
      if |b| < 4 { return End; }
      var keySize := U32(b);
      if keySize == 0 { return End; }
      b := Read(4);
      if |b| < 4 { return Failed(EndOfStreamError); }
      var valueSize := U32(b);
      b := Read(keySize);
      var key := heap.Dupe(b);
      if |b| != keySize { return Failed(InvalidSegmentError); }
      var lastValPos := lastPost + 4 + 4 + keySize;
      var next := lastValPos + valueSize;
      if next > U32_MAX { return Failed(OverflowTrap); }
      return Listed(DirEntry(key, Loc(fileID, lastValPos, valueSize)), next);
    }
  }

  /** One round of the scan, by what the reads bring. */
  lemma ScanCases(b: Bytes, pos: nat, id: nat)
    ensures pos + 4 > |b| ==> ScanFrom(b, pos, id) == Entries([], Max(pos, |b|))
    ensures pos + 4 <= |b| && U32(b[pos..pos + 4]) == 0 ==> ScanFrom(b, pos, id) == Entries([], pos + 4)
    ensures pos + 4 <= |b| && U32(b[pos..pos + 4]) > 0 ==>
              ScanFrom(b, pos, id) ==
              if pos + 8 > |b| then EndOfStream
              else
                var k, v := U32(b[pos..pos + 4]), U32(b[pos + 4..pos + 8]);
                if pos + 8 + k > |b| then InvalidSegmentFile
                else if pos + 8 + k + v > U32_MAX then Overflow
                else Then([Found(b[pos + 8..pos + 8 + k], Loc(id, pos + 8 + k, v))], ScanFrom(b, pos + 8 + k + v, id))
  {
    hide U32;
  }

  /** What one round adds to the list. */
  lemma ListedCases(b: Bytes, pos: nat, id: nat)
    ensures ScanFrom(b, pos, id).Entries? ==> ListedFrom(b, pos, id) == ScanFrom(b, pos, id).found
    ensures pos + 8 > |b| ==> ListedFrom(b, pos, id) == []
    ensures pos + 8 <= |b| ==>
              var k, v := U32(b[pos..pos + 4]), U32(b[pos + 4..pos + 8]);
              ListedFrom(b, pos, id) ==
              if k == 0 || pos + 8 + k > |b| || pos + 8 + k + v > U32_MAX then []
              else [Found(b[pos + 8..pos + 8 + k], Loc(id, pos + 8 + k, v))] + ListedFrom(b, pos + 8 + k + v, id)
  {
    hide U32, ScanFrom;
  }

  lemma LastScan(f: seq<Found>)
    ensures f + [] == f && forall end :: Then(f, Entries([], end)) == Entries(f, end)
  {
    assert f + [] == f;
  }

  lemma NoEntries(s: Scan, f: seq<Found>)
    ensures Then(PlainAll([]), s) == s && PlainAll([]) + f == f
    ensures KeyIds([], 0) == {} && Unshared([])
  {
    if s.Entries? { assert PlainAll([]) + s.found == s.found; }
  }

  lemma MoreEntries(es: seq<DirEntry>, e: DirEntry, s: Scan, f: seq<Found>)
    ensures PlainAll(es) + ([Plain(e)] + f) == PlainAll(es + [e]) + f
    ensures Then(PlainAll(es), Then([Plain(e)], s)) == Then(PlainAll(es + [e]), s)
    ensures KeyIds(es + [e], 0) == KeyIds(es, 0) + {e.key.id}
    ensures Unshared(es) && e.key.id !in KeyIds(es, 0) ==> Unshared(es + [e])
  {
    var es' := es + [e];
    assert PlainAll(es') == PlainAll(es) + [Plain(e)];
    assert PlainAll(es) + ([Plain(e)] + f) == PlainAll(es) + [Plain(e)] + f;
    if s.Entries? { assert PlainAll(es) + ([Plain(e)] + s.found) == PlainAll(es) + [Plain(e)] + s.found; }
    forall i
      ensures i in KeyIds(es', 0) <==> i in KeyIds(es, 0) + {e.key.id}
    {
      assert es'[|es|].key.id == e.key.id;
      assert forall k :: 0 <= k < |es| ==> es'[k].key.id == es[k].key.id;
    }
  }

  /** The allocations behind the entries from the i-th on. */
  ghost function KeyIds(es: seq<DirEntry>, i: nat): set<nat> {
    set k | i <= k < |es| :: es[k].key.id
  }

  /** No two entries share a key allocation. */
  ghost predicate Unshared(es: seq<DirEntry>) {
    forall i, j :: 0 <= i < j < |es| ==> es[i].key.id != es[j].key.id
  }

  lemma KeyIdsStep(es: seq<DirEntry>, i: nat)
    requires i < |es| && Unshared(es)
    ensures KeyIds(es, i) == KeyIds(es, i + 1) + {es[i].key.id} && es[i].key.id !in KeyIds(es, i + 1)
  {
  }

  lemma {:induction false} KeyCount(es: seq<DirEntry>)
    requires Unshared(es)
    ensures |KeyIds(es, 0)| == |es|
  {
    if es != [] {
      var k := |es| - 1;
      KeyCount(es[..k]);
      assert es == es[..k] + [es[k]];
      MoreEntries(es[..k], es[k], EndOfStream, []);
      assert es[k].key.id !in KeyIds(es[..k], 0);
    }
  }

  /** What the hash table holds: its own key slice and the entry. */
  datatype Slot = Slot(key: Slice, entry: DirEntry)

  type Table = map<Bytes, Slot>

  function Ids(t: Table): set<nat> { set k | k in t :: t[k].key.id }

  /** Keys are looked up by content; the table's key is the entry's own, and no two
      slots share an allocation. */
  ghost predicate Sound(t: Table) {
    && (forall k :: k in t ==> t[k].key == t[k].entry.key && t[k].key.bytes == k)
    && (forall k, l :: k in t && l in t && t[k].key.id == t[l].key.id ==> k == l)
  }

  function Locs(t: Table): Index { map k | k in t :: t[k].entry.loc }

  /** Putting an entry under its key trades the old allocation for the new one. */
  lemma PutTrades(t: Table, e: DirEntry)
    requires Sound(t) && e.key.id !in Ids(t)
    ensures var k := e.key.bytes;
            var t' := t[k := Slot(e.key, e)];
            && Sound(t') && Locs(t') == Locs(t)[k := e.loc]
            && Ids(t') == (if k in t then Ids(t) - {t[k].key.id} else Ids(t)) + {e.key.id}
  {
    var k := e.key.bytes;
    var t' := t[k := Slot(e.key, e)];
    forall l | l in t && l != k
      ensures t[l].key.id in Ids(t) && t'[l] == t[l]
    {
    }
    assert t'[k].key.id == e.key.id;
    forall i
      ensures i in Ids(t') <==> i in (if k in t then Ids(t) - {t[k].key.id} else Ids(t)) + {e.key.id}
    {
      if i in Ids(t') {
        var l :| l in t' && t'[l].key.id == i;
      }
      if i in Ids(t) {
        var l :| l in t && t[l].key.id == i;
        if l != k { assert t'[l].key.id == i; }
      }
    }
  }

  class DB {
    const file: CaskFile
    const heap: Allocator
    var index: Table

    ghost predicate Valid()
      reads this, heap
    {
      heap.Valid() && Sound(index) && heap.live == Ids(index)
    }

    ghost function State(): Cask
      reads this, file
    {
      Cask(file.bytes, file.cursor, file.lastPos, Locs(index), file.fileID)
    }

    constructor (file: CaskFile)
      ensures Valid() && this.file == file && fresh(heap) && index == map[]
    {
      this.file := file;
      heap := new Allocator();
      index := map[];
    }

    /** Put an entry in the table, freeing the key it displaces; `rest` are the live
        allocations that are not the table's yet. */
    method UpdateIndex(e: DirEntry, ghost rest: set<nat>)
      requires heap.Valid() && Sound(index) && heap.live == Ids(index) + rest + {e.key.id}
      requires rest !! Ids(index) && e.key.id !in Ids(index) + rest
      modifies this`index, heap
      ensures heap.Valid() && Sound(index) && Locs(index) == old(Locs(index))[e.key.bytes := e.loc]
      ensures heap.live == Ids(index) + rest && rest !! Ids(index)
    {
      PutTrades(index, e);
      var k := e.key.bytes;
      if k in index {
        assert index[k].key.id in Ids(index);
        heap.Free(index[k].entry.key);
      }
      index := index[k := Slot(e.key, e)];
    }

    /** How many keys no table owns after an open that failed. */
    ghost function Leaked(error: Error): nat
      reads file`bytes
    {
      |ListedFrom(file.bytes, 0, file.fileID)| + if error == EndOfStreamError then 0 else 1
    }

    /** open: seek, then scan the file into the directory. An open that fails leaves the
        directory empty and the keys read so far allocated. */
    method Open() returns (error: Error)
      requires Valid() && index == map[]
      modifies this`index, heap, file`cursor, file`lastPos
      ensures error == ErrorOf(Scanned(file.bytes, file.fileID))
      ensures error == NoError ==> Valid() && State() == Opened(file.bytes, file.fileID)
      ensures error != NoError ==> heap.Valid() && index == map[] && |heap.live| == Leaked(error)
    {
      file.SeekLast();
      error := BuildIndex();
    }

    method BuildIndex() returns (error: Error)
      requires Valid() && index == map[]
      modifies this`index, heap, file`cursor
      ensures error == ErrorOf(Scanned(file.bytes, file.fileID))
      ensures error == NoError ==>
                && Valid() && file.cursor == Scanned(file.bytes, file.fileID).end
                && Locs(index) == IndexOf(Scanned(file.bytes, file.fileID).found)
      ensures error != NoError ==> heap.Valid() && index == map[] && |heap.live| == Leaked(error)
    {
      hide ScanFrom, ListedFrom, KeyIds, Unshared, Sound, IndexOf, PlainAll;
      var entries;
      error, entries := file.ReadAllEntries(heap);
      if error == NoError { PutAll(entries); } else { LeakCount(entries, heap.live, error); }
    }

    lemma LeakCount(entries: seq<DirEntry>, live: set<nat>, error: Error)
      requires Unshared(entries) && PlainAll(entries) == ListedFrom(file.bytes, 0, file.fileID)
      requires error == EndOfStreamError ==> live == KeyIds(entries, 0)
      requires error != EndOfStreamError ==> exists i :: i !in KeyIds(entries, 0) && live == KeyIds(entries, 0) + {i}
      ensures |live| == Leaked(error)
    {
      KeyCount(entries);
    }

    /** The loop over the entries. */
    method PutAll(entries: seq<DirEntry>)
      requires heap.Valid() && heap.live == KeyIds(entries, 0) && Unshared(entries) && index == map[]
      modifies this`index, heap
      ensures Valid() && Locs(index) == IndexOf(PlainAll(entries))
    {
      hide KeyIds, Sound;
      ghost var found := PlainAll(entries);
      var i := 0;
      EmptyTable();
      while i < |entries|
        modifies this`index, heap
        invariant 0 <= i <= |entries| && heap.Valid() && Sound(index)
        invariant heap.live == Ids(index) + KeyIds(entries, i) && KeyIds(entries, i) !! Ids(index)
        invariant Locs(index) == IndexOf(found[..i])
      {
        assert found[..i + 1][..i] == found[..i];
        KeyIdsStep(entries, i);
        UpdateIndex(entries[i], KeyIds(entries, i + 1));
        i := i + 1;
      }
      NoMoreIds(entries);
      assert found[..i] == found;
    }

    lemma EmptyTable()
      ensures Sound(map[]) && Ids(map[]) == {} && Locs(map[]) == map[]
    {
    }

    lemma NoMoreIds(es: seq<DirEntry>)
      ensures KeyIds(es, |es|) == {}
    {
    }

    /** store: append the record, then point the directory at its value. */
    method Store(key: Bytes, value: Bytes)
      requires Valid() && CanStore(State(), Record(key, value))
      modifies this`index, heap, file
      ensures Valid() && State() == Stored(old(State()), Record(key, value))
    {
      var res := Serialize(Record(key, value));
      var valPos := file.lastPos + 8 + |key|;
      file.Write(res[..]);
      var slice := heap.Dupe(key);
      UpdateIndex(DirEntry(slice, Loc(file.fileID, valPos, |value|)), {});
    }

    /** load: seek to the value and read it. */
    method Load(key: Bytes) returns (v: Loading)
      requires Valid()
      modifies file`cursor
      ensures Valid() && (State(), v) == Loaded(old(State()), key)
    {
      if key !in index { return NotFound; }
      var l := index[key].entry.loc;
      file.SeekTo(l.valuePos);
      var b := file.Read(l.valueSize);
      v := if |b| == l.valueSize then Value(b) else ShortRead;
    }

    /** close: every key of the table is freed, once, and none is left. */
    method Close()
      requires Valid()
      modifies heap
      ensures heap.Valid() && heap.live == {}
    {
      var rest := index.Keys;
      while rest != {}
        invariant rest <= index.Keys && heap.Valid()
        invariant heap.live == (set k | k in rest :: index[k].key.id)
        decreases rest
      {
        var k :| k in rest;
        assert index[k].key.id in heap.live;
        heap.Free(index[k].key);
        rest := rest - {k};
      }
    }
  }
}

/** The scan iterators: chunked forward merging and materialised reverse order.  */
module Scanning {
  import opened Hashing
  import opened ByteStrings
  import opened KeyCodec
  import opened Tables
  import opened Keyspaces
  import opened Derived
  import opened SqlStorage
  import opened Overlay

  /** The first entries of a range start its listing. */
  lemma {:induction false} PrefixOf(kvs: seq<KV>, stream: seq<KV>, m: KeySpace)
    requires Lists(stream, m) && Ascending(kvs)
    requires forall i {:trigger kvs[i]} :: 0 <= i < |kvs| ==> kvs[i].key in m && m[kvs[i].key] == kvs[i].value
    requires forall k {:trigger k in m} :: k in m && |kvs| > 0 ==>
               (exists i :: 0 <= i < |kvs| && kvs[i].key == k) || Less(kvs[|kvs| - 1].key, k)
    ensures kvs <= stream
    decreases |kvs|
  {
    hide Lists, Less;
    if kvs != [] {
      var k0 := kvs[0].key;
      assert k0 in m;
      FirstIsLeast(stream, m, k0);
      FirstAgrees(kvs, stream[0].key);
      TailListing(stream, m);
      TailStarts(kvs, m);
      PrefixOf(kvs[1..], stream[1..], m - {k0});
      assert kvs == [kvs[0]] + kvs[1..] && stream == [stream[0]] + stream[1..];
    }
  }

  lemma {:induction false} FirstAgrees(kvs: seq<KV>, k: ByteString)
    requires Ascending(kvs) && kvs != [] && (k == kvs[0].key || Less(k, kvs[0].key))
    requires (exists i :: 0 <= i < |kvs| && kvs[i].key == k) || Less(kvs[|kvs| - 1].key, k)
    ensures k == kvs[0].key
  {
    hide Less;
    Trichotomy(k, kvs[0].key);
    if i :| 0 <= i < |kvs| && kvs[i].key == k {
    } else if |kvs| > 1 {
      LessTrans(kvs[0].key, kvs[|kvs| - 1].key, k);
    }
  }

  lemma {:induction false} TailStarts(kvs: seq<KV>, m: KeySpace)
    requires Ascending(kvs) && kvs != []
    requires forall i {:trigger kvs[i]} :: 0 <= i < |kvs| ==> kvs[i].key in m && m[kvs[i].key] == kvs[i].value
    requires forall k {:trigger k in m} :: k in m ==>
              (exists i :: 0 <= i < |kvs| && kvs[i].key == k) || Less(kvs[|kvs| - 1].key, k)
    ensures var tail, rest := kvs[1..], m - {kvs[0].key};
            Ascending(tail) &&
            (forall i {:trigger tail[i]} :: 0 <= i < |tail| ==>
              tail[i].key in rest && rest[tail[i].key] == tail[i].value) &&
            (forall k {:trigger k in rest} :: k in rest && |tail| > 0 ==>
              (exists i :: 0 <= i < |tail| && tail[i].key == k) || Less(tail[|tail| - 1].key, k))
  {
    hide Less;
    var tail, rest := kvs[1..], m - {kvs[0].key};
    forall i | 0 <= i < |tail| ensures tail[i].key in rest && rest[tail[i].key] == tail[i].value {
      assert tail[i] == kvs[i + 1];
      Trichotomy(kvs[0].key, kvs[i + 1].key);
    }
    forall k | k in rest && |tail| > 0
      ensures (exists i :: 0 <= i < |tail| && tail[i].key == k) || Less(tail[|tail| - 1].key, k)
    {
      if i :| 0 <= i < |kvs| && kvs[i].key == k {
        assert tail[i - 1].key == k;
      }
    }
  }

  /** A scan chunk is the front of what remains; the rest resumes after it. */
  lemma {:induction false} ChunkOfStream(kvs: seq<KV>, stream: seq<KV>, m: KeySpace, start: ByteString, end: ByteString,
                                         limit: nat)
    requires FirstOf(kvs, m, start, end, limit) && Lists(stream, InRange(m, start, end)) && limit > 0
    ensures kvs <= stream && (|kvs| < limit ==> stream == kvs)
    ensures |kvs| > 0 ==> Lists(stream[|kvs|..], InRange(m, kvs[|kvs| - 1].key + [0], end))
  {
    hide Lists, Less, Between, InRange;
    var r := InRange(m, start, end);
    InRangeValues(m, start, end);
    PrefixOf(kvs, stream, r);
    if |kvs| > 0 {
      ChunkSplits(kvs, m, start, end, limit);
      AfterPrefix(kvs, stream, r);
    }
    if |kvs| < limit {
      ShortIsAll(kvs, stream, m, start, end, limit);
    }
  }

  lemma {:induction false} InRangeValues(m: KeySpace, start: ByteString, end: ByteString)
    ensures forall k {:trigger k in InRange(m, start, end)} :: k in InRange(m, start, end) ==>
              k in m && InRange(m, start, end)[k] == m[k]
  {
  }

  lemma {:induction false} ShortIsAll(kvs: seq<KV>, stream: seq<KV>, m: KeySpace, start: ByteString, end: ByteString,
                                      limit: nat)
    requires FirstOf(kvs, m, start, end, limit) && Lists(stream, InRange(m, start, end)) && |kvs| < limit
    requires kvs <= stream
    ensures stream == kvs
  {
    hide Less, InRange;
    if |stream| > |kvs| {
      var k := stream[|kvs|].key;
      assert k in InRange(m, start, end);
      var i :| 0 <= i < |kvs| && kvs[i].key == k;
      assert stream[i] == kvs[i];
      Trichotomy(k, k);
    }
  }

  /** Dropping a prefix of a listing lists what comes after its last key. */
  lemma {:induction false} AfterPrefix(kvs: seq<KV>, stream: seq<KV>, m: KeySpace)
    requires Lists(stream, m) && kvs <= stream && |kvs| > 0
    ensures Lists(stream[|kvs|..], AfterKey(m, kvs[|kvs| - 1].key))
    decreases |kvs|
  {
    hide Less, Lists;
    var last := kvs[|kvs| - 1].key;
    var rest := AfterKey(m, last);
    var k0 := stream[0].key;
    TailListing(stream, m);
    FirstBefore(stream, m, k0);
    Trichotomy(k0, k0);
    if |kvs| == 1 {
      assert kvs[0] == stream[0];
      assert rest == m - {k0};
    } else {
      AfterPrefix(kvs[1..], stream[1..], m - {k0});
      LaterInListing(stream, m, |kvs| - 1);
      Trichotomy(k0, last);
      assert stream[1..][|kvs| - 1..] == stream[|kvs|..];
      assert rest == AfterKey(m - {k0}, last);
    }
  }

  lemma {:induction false} FirstBefore(stream: seq<KV>, m: KeySpace, k0: ByteString)
    requires Lists(stream, m) && stream != [] && k0 == stream[0].key
    ensures forall k :: k in m && k != k0 ==> Less(k0, k)
  {
    hide Less, Lists;
    forall k | k in m && k != k0 ensures Less(k0, k) {
      FirstIsLeast(stream, m, k);
    }
  }

  lemma {:induction false} LaterInListing(stream: seq<KV>, m: KeySpace, i: nat)
    requires Lists(stream, m) && 0 < i < |stream|
    ensures Less(stream[0].key, stream[i].key)
  {
  }

  ghost function Yields(secondary: bool, kvs: seq<KV>): seq<ByteString>
  {
    seq(|kvs|, i requires 0 <= i < |kvs| => YieldOf(secondary, kvs[i]))
  }

  // --------------------------------------------------------- forward iterator

  /** Yields the merge of the committed range with the overlay, one key at a time. */
  class ScanIter {
    const keyspace: Keyspace
    const end: ByteString
    const secondary: bool
    const ov: Option<ScanOverlay>
    var next: ByteString
    var ovPos: nat
    var buf: seq<KV>
    var pos: nat
    var done: bool
    /** The committed entries still to come, in order. */
    ghost var stream: seq<KV>

    ghost predicate Valid()
      reads this, keyspace
    {
      pos <= |buf| && ovPos <= |AddsIn(ov)| && buf[pos..] <= stream &&
      if done then stream == buf[pos..] else Lists(stream[|buf| - pos..], InRange(keyspace.entries, next, end))
    }

    /** What the iterator will still yield. */
    ghost function Left(): seq<KV>
      reads this
      requires ovPos <= |AddsIn(ov)|
    {
      Merged(stream, AddsIn(ov)[ovPos..], MasksIn(ov))
    }

    constructor (keyspace: Keyspace, start: ByteString, end: ByteString, secondary: bool, ov: Option<ScanOverlay>)
      ensures Valid() && this.keyspace == keyspace && this.end == end && this.secondary == secondary && this.ov == ov
      ensures Lists(stream, InRange(keyspace.entries, start, end)) && Left() == Merged(stream, AddsIn(ov), MasksIn(ov))
    {
      this.keyspace, this.end, this.secondary, this.ov := keyspace, end, secondary, ov;
      next, ovPos, buf, pos, done := start, 0, [], 0, false;
      new;
      stream := ListingExists(InRange(keyspace.entries, start, end));
      assert stream[0..] == stream && AddsIn(ov)[0..] == AddsIn(ov);
    }

    /** Loads the next chunk when the current one is used up. */
    method Refill() returns (ok: bool)
      requires Valid()
      modifies this`next, this`buf, this`pos, this`done
      ensures Valid() && (!ok ==> !keyspace.reliable) && (ok ==> pos < |buf| || done)
    {
      hide Lists, FirstOf, InRange;
      if pos < |buf| || done {
        return true;
      }
      var kvs := keyspace.Scan(next, end, SCAN_CHUNK);
      if kvs.Err? {
        return false;
      }
      assert stream[0..] == stream;
      ChunkOfStream(kvs.value, stream, keyspace.entries, next, end, SCAN_CHUNK);
      if |kvs.value| < SCAN_CHUNK {
        done := true;
      }
      if |kvs.value| > 0 {
        next := kvs.value[|kvs.value| - 1].key + [0];
      }
      buf, pos := kvs.value, 0;
      assert buf[0..] == buf;
      return true;
    }

    /** The primary key of the next row, or none at the end. */
    method Next() returns (r: Result<Option<ByteString>>)
      requires Valid()
      modifies this
      ensures Valid()
      ensures r.Err? ==> !keyspace.reliable && r.error == ErrorKind.Backend && Left() == old(Left())
      ensures r.Ok? ==> r.value == (if old(Left()) == [] then None else Some(YieldOf(secondary, old(Left())[0])))
      ensures r.Ok? ==> Left() == if old(Left()) == [] then [] else old(Left())[1..]
    {
      hide Lists, InRange, Merged, Less, YieldOf;
      ghost var left := Left();
      while true
        invariant Valid() && Left() == left
        decreases |stream|
      {
        var ok := Refill();
        if !ok {
          return Err(ErrorKind.Backend);
        }
        var haveB, haveO := pos < |buf|, ovPos < |AddsIn(ov)|;
        if haveB && !(haveO && !Less(buf[pos].key, AddsIn(ov)[ovPos].key)) {
          var kv := buf[pos];
          var shown := TakeEntry();
          if shown {
            return Ok(Some(YieldOf(secondary, kv)));
          }
        } else if haveO {
          var kv := TakeAdd();
          return Ok(Some(YieldOf(secondary, kv)));
        } else {
          MergeStep(stream, AddsIn(ov)[ovPos..], MasksIn(ov));
          return Ok(None);
        }
      }
    }

    /** The committed head comes first: shown unless masked. */
    method TakeEntry() returns (shown: bool)
      requires Valid() && pos < |buf| && (ovPos < |AddsIn(ov)| ==> Less(buf[pos].key, AddsIn(ov)[ovPos].key))
      modifies this`pos, this`stream
      ensures Valid() && |stream| < |old(stream)|
      ensures old(Left()) == (if shown then [old(buf[pos])] else []) + Left()
    {
      hide Lists, InRange, Merged, Less;
      assert buf[pos..][0] == buf[pos] == stream[0];
      assert ovPos < |AddsIn(ov)| ==> AddsIn(ov)[ovPos..][0] == AddsIn(ov)[ovPos];
      MergeStep(stream, AddsIn(ov)[ovPos..], MasksIn(ov));
      shown := buf[pos].key !in MasksIn(ov);
      Advance();
    }

    /** The overlay head comes first, and hides an equal committed head. */
    method TakeAdd() returns (kv: KV)
      requires Valid() && ovPos < |AddsIn(ov)| && (pos < |buf| || done)
      requires pos < |buf| ==> !Less(buf[pos].key, AddsIn(ov)[ovPos].key)
      modifies this`pos, this`stream, this`ovPos
      ensures Valid() && old(Left()) == [kv] + Left()
    {
      hide Lists, InRange, Merged, Less;
      kv := AddsIn(ov)[ovPos];
      assert AddsIn(ov)[ovPos..] == [kv] + AddsIn(ov)[ovPos + 1..];
      MergeStep(stream, AddsIn(ov)[ovPos..], MasksIn(ov));
      if pos < |buf| {
        assert buf[pos..][0] == buf[pos] == stream[0];
        ovPos := ovPos + 1;
        if kv.key == buf[pos].key {
          Advance();
        }
      } else {
        MergeStep(stream, AddsIn(ov)[ovPos + 1..], MasksIn(ov));
        ovPos := ovPos + 1;
      }
    }

    /** Consumes one buffered entry. */
    method Advance()
      requires Valid() && pos < |buf|
      modifies this`pos, this`stream
      ensures Valid() && stream == old(stream)[1..] && pos == old(pos) + 1
    {
      hide Lists, InRange;
      assert buf[pos..][1..] == buf[pos + 1..];
      assert stream[1..][|buf| - pos - 1..] == stream[|buf| - pos..];
      assert buf[pos + 1..] <= stream[1..];
      pos := pos + 1;
      stream := stream[1..];
    }
  }

  // --------------------------------------------------------- reverse iterator

  /** All entries of a range, gathered chunk by chunk. */
  method CollectRange(keyspace: Keyspace, start: ByteString, end: ByteString) returns (r: Result<seq<KV>>)
    ensures r.Err? ==> !keyspace.reliable && r.error == ErrorKind.Backend
    ensures r.Ok? ==> Lists(r.value, InRange(keyspace.entries, start, end))
  {
    hide Lists, InRange, FirstOf;
    ghost var m := keyspace.entries;
    ghost var full := ListingExists(InRange(m, start, end));
    var entries: seq<KV> := [];
    var next := start;
    ghost var rest := full;
    while true
      invariant entries + rest == full && Lists(rest, InRange(m, next, end)) && keyspace.entries == m
      decreases |rest|
    {
      var kvs := keyspace.Scan(next, end, SCAN_CHUNK);
      if kvs.Err? {
        return Err(kvs.error);
      }
      ChunkOfStream(kvs.value, rest, m, next, end, SCAN_CHUNK);
      assert rest == kvs.value + rest[|kvs.value|..];
      entries := entries + kvs.value;
      rest := rest[|kvs.value|..];
      if |kvs.value| < SCAN_CHUNK {
        return Ok(entries);
      }
      next := kvs.value[|kvs.value| - 1].key + [0];
    }
  }

  /** Materialises a range and walks it backwards. */
  class ReverseIter {
    const pks: seq<ByteString>
    var pos: int

    ghost predicate Valid()
      reads this
    {
      -1 <= pos < |pks|
    }

    constructor (pks: seq<ByteString>)
      ensures Valid() && this.pks == pks && pos == |pks| - 1
    {
      this.pks, pos := pks, |pks| - 1;
    }

    /** The keys not yet yielded, in scan order. */
    ghost function Left(): seq<ByteString>
      reads this
      requires Valid()
    {
      pks[..pos + 1]
    }

    method Next() returns (r: Option<ByteString>)
      requires Valid()
      modifies this
      ensures Valid()
      ensures old(Left()) == [] ==> r == None && Left() == []
      ensures old(Left()) != [] ==>
                r == Some(old(Left())[|old(Left())| - 1]) && Left() == old(Left())[..|old(Left())| - 1]
    {
      if pos < 0 {
        return None;
      }
      r := Some(pks[pos]);
      pos := pos - 1;
    }
  }

  method NewReverseScanIter(keyspace: Keyspace, start: ByteString, end: ByteString, secondary: bool,
                            ov: Option<ScanOverlay>)
    returns (r: Result<ReverseIter>, ghost stream: seq<KV>)
    ensures r.Err? ==> !keyspace.reliable && r.error == ErrorKind.Backend
    ensures r.Ok? ==> Lists(stream, InRange(keyspace.entries, start, end))
    ensures r.Ok? ==>
              fresh(r.value) && r.value.Valid() &&
              r.value.Left() == Yields(secondary, Merged(stream, AddsIn(ov), MasksIn(ov)))
  {
    hide Lists, InRange, Merged;
    stream := [];
    var entries := CollectRange(keyspace, start, end);
    if entries.Err? {
      return Err(entries.error), stream;
    }
    stream := entries.value;
    var merged := MergeOverlay(entries.value, ov);
    var pks: seq<ByteString> := [];
    for i := 0 to |merged|
      invariant |pks| == i && forall j :: 0 <= j < i ==> pks[j] == YieldOf(secondary, merged[j])
    {
      pks := pks + [YieldOf(secondary, merged[i])];
    }
    var it := new ReverseIter(pks);
    assert pks[..|pks|] == pks == Yields(secondary, merged);
    return Ok(it), stream;
  }

  // -------------------------------------------------------------- refinement

  /** Both iterators yield, in order and in reverse, exactly the rows a scan would
      yield after the buffer's operations were applied. */
  lemma {:induction false} ScanShowsCommit(cat: Catalog, def: TableDef, idx: Option<IndexDef>, rows: TableBuffer,
                                           changes: seq<Change>, m: KeySpace,
                                           start: ByteString, end: ByteString, ov: Option<ScanOverlay>, am: KeySpace,
                                           stream: seq<KV>, after: seq<KV>)
    requires WellCatalogued(cat) && def.id in cat && cat[def.id] == def && IndexOf(def, idx) && GoodBuffer(def, rows)
    requires ChangesOf(def, rows, changes) && GoodBatch(cat, changes) && InSpace(def, idx, start, end)
    requires OverlayIs(ov, am, def, idx, rows, start, end) && Lists(stream, InRange(m, start, end))
    requires Lists(after, InRange(Run(m, BatchScanOps(cat, changes)), start, end))
    ensures Yields(idx.Some?, Merged(stream, AddsIn(ov), MasksIn(ov))) == Yields(idx.Some?, after)
  {
    hide Lists, Merged, Run, BatchScanOps, WellCatalogued, IndexOf, GoodBuffer, ChangesOf, GoodBatch, InSpace, AddsAre,
         MasksAre, YieldOf, Between;
    var out, shown := Merged(stream, AddsIn(ov), MasksIn(ov)), View(InRange(m, start, end), am, MasksIn(ov));
    var m' := Run(m, BatchScanOps(cat, changes));
    var kept := InRange(m', start, end);
    MergedListsView(stream, AddsIn(ov), MasksIn(ov), InRange(m, start, end), am);
    forall k ensures k in shown <==> k in kept
             ensures k in shown ==> YieldOf(idx.Some?, KV(k, shown[k])) == YieldOf(idx.Some?, KV(k, kept[k]))
    {
      ShownInRange(am, def, idx, rows, start, end, k);
      if Between(start, k, end) {
        ViewIsCommitted(cat, def, idx, rows, changes, m, start, end, ov, am, k);
      }
    }
    assert shown.Keys == kept.Keys;
    SameKeysSameOrder(out, after, shown, kept);
    forall i | 0 <= i < |out| ensures YieldOf(idx.Some?, out[i]) == YieldOf(idx.Some?, after[i]) {
      ListedAt(out, shown, i);
      ListedAt(after, kept, i);
    }
  }

  lemma {:induction false} ShownInRange(am: KeySpace, def: TableDef, idx: Option<IndexDef>, rows: TableBuffer,
                                        start: ByteString, end: ByteString, k: ByteString)
    requires AddsAre(am, def, idx, rows, rows.Keys, start, end)
    ensures k in am ==> Between(start, k, end)
  {
    hide IsAdd, Between;
  }

  lemma {:induction false} ListedAt(kvs: seq<KV>, m: KeySpace, i: nat)
    requires Lists(kvs, m) && i < |kvs|
    ensures kvs[i].key in m && kvs[i] == KV(kvs[i].key, m[kvs[i].key])
  {
    assert kvs[i].key in m;
  }

  /** On an exact keyspace every scanned entry leads to a row of the table that has
      exactly this key. */
  lemma {:induction false} ScanResolves(cat: Catalog, def: TableDef, idx: Option<IndexDef>, db: Database, m: KeySpace,
                                        start: ByteString, end: ByteString, k: ByteString)
    requires WellCatalogued(cat) && def.id in cat && cat[def.id] == def && IndexOf(def, idx) && Exact(cat, db, m)
    requires InSpace(def, idx, start, end) && k in InRange(m, start, end)
    ensures var ref := RowRef(def.id, YieldOf(idx.Some?, KV(k, m[k])));
            ref in db && RowFits(def, db[ref]) && k == EntryKey(def, idx, ref.pk, db[ref])
  {
    hide Exact, ScanKey, SecondarySpace, IndexKey, NoNulls, Less;
    assert Between(start, k, end) && SpaceOf(def, idx) <= k;
    SpaceTags(def, idx, k);
    EntryExpected(cat, db, m, k);
    var ref :| ref in db && Owns(cat, ref, db[ref], k) && Some(m[k]) == Some(ValueOf(ref.pk, k));
    KeyTags(ref.table, ref.pk, IndexDef(0, false, []), db[ref]);
    if idx.None? {
      OwnedByScanKey(cat, ref, db[ref], k);
      ScanKeyParts(def.id, ref.table, ref.pk, k);
    } else {
      var j :| IndexEntry(cat[ref.table], j, db[ref], ref.pk, k);
      SpaceIdUnique(cat[ref.table].indexes[j], idx.value, db[ref], ref.pk, k);
      var i :| 0 <= i < |def.indexes| && def.indexes[i] == idx.value;
      assert cat[ref.table].indexes[j].id == cat[def.id].indexes[i].id;
    }
  }

  lemma {:induction false} EntryExpected(cat: Catalog, db: Database, m: KeySpace, k: ByteString)
    requires Exact(cat, db, m) && IsDerived(k) && k in m
    ensures exists ref :: ref in db && Owns(cat, ref, db[ref], k) && Some(m[k]) == Some(ValueOf(ref.pk, k))
  {
    hide Owns;
    assert Lookup(m, k) == Expected(cat, db, k);
  }

  lemma {:induction false} OwnedByScanKey(cat: Catalog, ref: RowRef, row: Row, k: ByteString)
    requires Owns(cat, ref, row, k) && |k| > 0 && k[0] == SCAN_PREFIX
    ensures k == ScanKey(ref.table, ref.pk)
  {
    hide ScanKey, IndexKey;
    if k != ScanKey(ref.table, ref.pk) {
      var i :| IndexEntry(cat[ref.table], i, row, ref.pk, k);
      KeyTags(ref.table, ref.pk, cat[ref.table].indexes[i], row);
    }
  }

  lemma {:induction false} ScanKeyParts(id: Word, table: Word, pk: ByteString, k: ByteString)
    requires k == ScanKey(table, pk) && ScanKey(id, []) <= k
    ensures table == id && |k| >= 9 && k[9..] == pk
  {
    hide BigEndian;
    assert k == [SCAN_PREFIX] + BigEndian(id, 8) + k[9..];
    SpaceSplit(SCAN_PREFIX, id, table, k[9..], pk);
  }
}

/** Reading through a transaction's buffer: the overlay merged into committed scans
    shows what a scan after the commit would show.  */
module Overlay {
  import opened Hashing
  import opened ByteStrings
  import opened KeyCodec
  import opened Tables
  import opened Keyspaces
  import opened Derived

  /** One table's buffered rows by primary key. */
  type TableBuffer = map<ByteString, Pending>

  // ------------------------------------------------------------------ merging

  /** The sorted merge: an add hides an equal entry, masked entries are left out. */
  ghost function Merged(es: seq<KV>, adds: seq<KV>, masks: set<ByteString>): seq<KV>
    decreases |es| + |adds|
  {
    if es == [] then adds
    else if adds != [] && !Less(es[0].key, adds[0].key) then
      [adds[0]] + Merged(if adds[0].key == es[0].key then es[1..] else es, adds[1..], masks)
    else (if es[0].key in masks then [] else [es[0]]) + Merged(es[1..], adds, masks)
  }

  lemma {:induction false} MergeStep(es: seq<KV>, adds: seq<KV>, masks: set<ByteString>)
    ensures es == [] ==> Merged(es, adds, masks) == adds
    ensures es != [] && adds != [] && !Less(es[0].key, adds[0].key) ==>
              Merged(es, adds, masks) ==
              [adds[0]] + Merged(if adds[0].key == es[0].key then es[1..] else es, adds[1..], masks)
    ensures es != [] && (adds == [] || Less(es[0].key, adds[0].key)) ==>
              Merged(es, adds, masks) == (if es[0].key in masks then [] else [es[0]]) + Merged(es[1..], adds, masks)
  {
  }

  datatype ScanOverlay = ScanOverlay(adds: seq<KV>, masks: set<ByteString>)

  function AddsIn(ov: Option<ScanOverlay>): seq<KV>
  {
    if ov.Some? then ov.value.adds else []
  }

  function MasksIn(ov: Option<ScanOverlay>): set<ByteString>
  {
    if ov.Some? then ov.value.masks else {}
  }

  /** Computes the sorted merge with one index per side. */
  method MergeOverlay(entries: seq<KV>, ov: Option<ScanOverlay>) returns (out: seq<KV>)
    ensures out == Merged(entries, AddsIn(ov), MasksIn(ov))
  {
    hide Merged, Less;
    if ov.None? {
      NoOverlay(entries);
      return entries;
    }
    var adds, masks := ov.value.adds, ov.value.masks;
    out := [];
    var i, j := 0, 0;
    while i < |entries| || j < |adds|
      invariant i <= |entries| && j <= |adds|
      invariant out + Merged(entries[i..], adds[j..], masks) == Merged(entries, adds, masks)
      decreases |entries| - i + |adds| - j
    {
      MergeStep(entries[i..], adds[j..], masks);
      MergeStep([], adds[j..], masks);
      if i >= |entries| {
        assert entries[i..] == [] && adds[j..] == [adds[j]] + adds[j + 1..];
        MergeStep([], adds[j + 1..], masks);
        out, j := out + [adds[j]], j + 1;
      } else if j < |adds| && !Less(entries[i].key, adds[j].key) {
        assert adds[j..][1..] == adds[j + 1..] && entries[i..][1..] == entries[i + 1..];
        var same := adds[j].key == entries[i].key;
        out, j := out + [adds[j]], j + 1;
        if same {
          i := i + 1;
        }
      } else {
        assert entries[i..][1..] == entries[i + 1..];
        if entries[i].key !in masks {
          out := out + [entries[i]];
        }
        i := i + 1;
      }
    }
    MergeStep(entries[i..], adds[j..], masks);
  }

  lemma {:induction false} NoOverlay(es: seq<KV>)
    ensures Merged(es, [], {}) == es
    decreases |es|
  {
    if es != [] {
      NoOverlay(es[1..]);
    }
  }

  /** Committed entries without the masked ones, overridden by the adds. */
  ghost function View(m: KeySpace, am: KeySpace, masks: set<ByteString>): KeySpace
  {
    (m - masks) + am
  }

  /** The merge lists exactly the view. */
  lemma {:induction false} MergedListsView(es: seq<KV>, adds: seq<KV>, masks: set<ByteString>, m: KeySpace,
                                           am: KeySpace)
    requires Lists(es, m) && Lists(adds, am) && masks !! am.Keys
    ensures Lists(Merged(es, adds, masks), View(m, am, masks))
    decreases |es| + |adds|
  {
    hide Lists, Less, Merged;
    MergeStep(es, adds, masks);
    EmptyListing(es, m);
    if es == [] {
      assert View(m, am, masks) == am;
    } else if adds != [] && !Less(es[0].key, adds[0].key) {
      MergedAddFirst(es, adds, masks, m, am);
    } else {
      MergedEntryFirst(es, adds, masks, m, am);
    }
  }

  lemma {:induction false} MergedAddFirst(es: seq<KV>, adds: seq<KV>, masks: set<ByteString>, m: KeySpace, am: KeySpace)
    requires Lists(es, m) && Lists(adds, am) && masks !! am.Keys && es != [] && adds != []
    requires !Less(es[0].key, adds[0].key)
    ensures Lists(Merged(es, adds, masks), View(m, am, masks))
    decreases |es| + |adds|, 0
  {
    hide Lists, Less, Merged;
    MergeStep(es, adds, masks);
    var kv := adds[0];
    TailListing(adds, am);
    TailListing(es, m);
    var same := kv.key == es[0].key;
    var es', m', am' := if same then es[1..] else es, if same then m - {kv.key} else m, am - {kv.key};
    MergedListsView(es', adds[1..], masks, m', am');
    var tail, view := Merged(es', adds[1..], masks), View(m', am', masks);
    Trichotomy(kv.key, es[0].key);
    forall k | k in view ensures Less(kv.key, k) {
      if k in am' {
        FirstIsLeast(adds, am, k);
      } else {
        FirstIsLeast(es, m, k);
        if !same && k != es[0].key {
          LessTrans(kv.key, es[0].key, k);
        }
      }
    }
    ConsListing(kv, tail, view);
    if !same && kv.key in m {
      FirstIsLeast(es, m, kv.key);
    }
    assert view[kv.key := kv.value] == View(m, am, masks);
  }

  lemma {:induction false} MergedEntryFirst(es: seq<KV>, adds: seq<KV>, masks: set<ByteString>, m: KeySpace,
                                            am: KeySpace)
    requires Lists(es, m) && Lists(adds, am) && masks !! am.Keys && es != []
    requires (adds == [] || Less(es[0].key, adds[0].key))
    ensures Lists(Merged(es, adds, masks), View(m, am, masks))
    decreases |es| + |adds|, 0
  {
    hide Lists, Less, Merged;
    MergeStep(es, adds, masks);
    var kv := es[0];
    TailListing(es, m);
    EmptyListing(adds, am);
    var m' := m - {kv.key};
    MergedListsView(es[1..], adds, masks, m', am);
    var tail, view := Merged(es[1..], adds, masks), View(m', am, masks);
    forall k | k in am ensures Less(kv.key, k) {
      FirstIsLeast(adds, am, k);
      if k != adds[0].key {
        LessTrans(kv.key, adds[0].key, k);
      }
    }
    Trichotomy(kv.key, kv.key);
    if kv.key in masks {
      assert view == View(m, am, masks);
      assert [] + tail == tail;
    } else {
      forall k | k in view ensures Less(kv.key, k) {
        if k !in am {
          FirstIsLeast(es, m, k);
        }
      }
      ConsListing(kv, tail, view);
      assert view[kv.key := kv.value] == View(m, am, masks);
    }
  }

  // ------------------------------------------------------- building an overlay

  /** The key of a row in the scanned space: primary, or one secondary index. */
  function EntryKey(def: TableDef, idx: Option<IndexDef>, pk: ByteString, row: Row): ByteString
    requires idx.Some? ==> forall i {:trigger idx.value.ords[i]} :: 0 <= i < |idx.value.ords| ==>
              idx.value.ords[i] < |row|
  {
    if idx.None? then ScanKey(def.id, pk) else IndexKey(idx.value, row, pk)
  }

  ghost predicate IndexOf(def: TableDef, idx: Option<IndexDef>)
  {
    WellDefined(def) && (idx.Some? ==> idx.value in def.indexes)
  }

  /** The buffered row at pk adds an entry at k. */
  ghost predicate IsAdd(def: TableDef, idx: Option<IndexDef>, rows: TableBuffer, pk: ByteString, k: ByteString)
  {
    IndexOf(def, idx) && pk in rows && rows[pk].next.Some? && RowFits(def, rows[pk].next.value) &&
    k == EntryKey(def, idx, pk, rows[pk].next.value)
  }

  /** The row at pk as the transaction found it has its entry at k. */
  ghost predicate IsDrop(def: TableDef, idx: Option<IndexDef>, rows: TableBuffer, pk: ByteString, k: ByteString)
  {
    IndexOf(def, idx) && pk in rows && rows[pk].prior.Some? && RowFits(def, rows[pk].prior.value) &&
    k == EntryKey(def, idx, pk, rows[pk].prior.value)
  }

  ghost predicate GoodBuffer(def: TableDef, rows: TableBuffer)
  {
    forall pk {:trigger rows[pk]} :: pk in rows ==>
      (rows[pk].prior.Some? ==> RowFits(def, rows[pk].prior.value)) && (rows[pk].next.Some? ==>
        RowFits(def, rows[pk].next.value))
  }

  lemma {:induction false} EntryKeyInjective(def: TableDef, idx: Option<IndexDef>, p: ByteString, q: ByteString, a: Row,
                                             b: Row)
    requires IndexOf(def, idx) && RowFits(def, a) && RowFits(def, b)
    requires EntryKey(def, idx, p, a) == EntryKey(def, idx, q, b)
    ensures p == q
  {
    hide ScanKey, IndexKey;
    if idx.None? {
      ScanKeyInjective(def.id, def.id, p, q);
    } else {
      IndexKeyInjective(def, idx.value, a, b, p, q);
    }
  }

  /** am holds the in-range entries added by the rows in done. */
  ghost predicate AddsAre(am: KeySpace, def: TableDef, idx: Option<IndexDef>, rows: TableBuffer, done: set<ByteString>,
                          start: ByteString, end: ByteString)
  {
    (forall k {:trigger k in am} :: k in am ==>
      Between(start, k, end) && am[k] in done && IsAdd(def, idx, rows, am[k], k)) &&
    (forall pk, k {:trigger IsAdd(def, idx, rows, pk, k)} ::
       pk in done && IsAdd(def, idx, rows, pk, k) && Between(start, k, end) ==> k in am && am[k] == pk)
  }

  /** masks holds the in-range entries the rows in done replace, up to re-added ones. */
  ghost predicate MasksAre(masks: set<ByteString>, am: KeySpace, def: TableDef, idx: Option<IndexDef>,
                           rows: TableBuffer, done: set<ByteString>,
                           start: ByteString, end: ByteString)
  {
    (forall k :: k in masks ==> Between(start, k, end) && exists pk :: pk in done && IsDrop(def, idx, rows, pk, k)) &&
    (forall pk, k {:trigger IsDrop(def, idx, rows, pk, k)} ::
       pk in done && IsDrop(def, idx, rows, pk, k) && Between(start, k, end) ==> k in masks || k in am)
  }

  /** kvs holds the entries of m in some order, each once. */
  ghost predicate Collects(kvs: seq<KV>, m: KeySpace)
  {
    (forall i {:trigger kvs[i]} :: 0 <= i < |kvs| ==> kvs[i].key in m && m[kvs[i].key] == kvs[i].value) &&
    (forall k {:trigger k in m} :: k in m ==> exists i :: 0 <= i < |kvs| && kvs[i].key == k) &&
    (forall i, j :: 0 <= i < j < |kvs| ==> kvs[i].key != kvs[j].key)
  }

  lemma {:induction false} CollectNext(kvs: seq<KV>, m: KeySpace, kv: KV)
    requires Collects(kvs, m) && kv.key !in m
    ensures Collects(kvs + [kv], m[kv.key := kv.value])
  {
    var out, m' := kvs + [kv], m[kv.key := kv.value];
    forall i, j | 0 <= i < j < |out| ensures out[i].key != out[j].key {
      assert out[i] == kvs[i];
    }
    forall k | k in m' ensures exists i :: 0 <= i < |out| && out[i].key == k {
      if k == kv.key {
        assert out[|kvs|].key == k;
      } else {
        var i :| 0 <= i < |kvs| && kvs[i].key == k;
        assert out[i].key == k;
      }
    }
  }

  method InsertKV(sorted: seq<KV>, kv: KV, ghost m: KeySpace) returns (out: seq<KV>)
    requires Lists(sorted, m) && kv.key !in m
    ensures Lists(out, m[kv.key := kv.value])
    decreases |sorted|
  {
    hide Lists, Less;
    EmptyListing(sorted, m);
    if sorted == [] || Less(kv.key, sorted[0].key) {
      forall k | k in m ensures Less(kv.key, k) {
        FirstIsLeast(sorted, m, k);
        if k != sorted[0].key {
          LessTrans(kv.key, sorted[0].key, k);
        }
      }
      ConsListing(kv, sorted, m);
      return [kv] + sorted;
    }
    var head := sorted[0];
    TailListing(sorted, m);
    var tail := InsertKV(sorted[1..], kv, m - {head.key});
    ghost var rest := (m - {head.key})[kv.key := kv.value];
    forall k | k in rest ensures Less(head.key, k) {
      Trichotomy(head.key, kv.key);
      if k != kv.key {
        FirstIsLeast(sorted, m, k);
      }
    }
    ConsListing(head, tail, rest);
    assert rest[head.key := head.value] == m[kv.key := kv.value];
    return [head] + tail;
  }

  method SortKVs(kvs: seq<KV>, ghost m: KeySpace) returns (out: seq<KV>)
    requires Collects(kvs, m)
    ensures Lists(out, m)
  {
    hide Lists;
    out := [];
    ghost var done: KeySpace := map[];
    NoneListed();
    for i := 0 to |kvs|
      invariant Lists(out, done)
      invariant forall k :: k in done <==> exists j :: 0 <= j < i && kvs[j].key == k
      invariant forall k :: k in done ==> k in m && done[k] == m[k]
    {
      out := InsertKV(out, kvs[i], done);
      done := done[kvs[i].key := kvs[i].value];
    }
    assert done == m;
  }

  lemma {:induction false} NoneListed()
    ensures Lists([], map[])
  {
  }

  /** ov holds what the buffer adds to the range, in order, and what it hides there. */
  ghost predicate OverlayIs(ov: Option<ScanOverlay>, am: KeySpace, def: TableDef, idx: Option<IndexDef>,
                            rows: TableBuffer,
                            start: ByteString, end: ByteString)
  {
    Lists(AddsIn(ov), am) && AddsAre(am, def, idx, rows, rows.Keys, start, end) &&
    MasksAre(MasksIn(ov), am, def, idx, rows, rows.Keys, start, end) && MasksIn(ov) !! am.Keys
  }

  /** The rows processed so far with one more row's entry, if it has one in range. */
  lemma {:induction false} AddsNext(am: KeySpace, def: TableDef, idx: Option<IndexDef>, rows: TableBuffer,
                                    done: set<ByteString>,
                                    start: ByteString, end: ByteString, pk: ByteString)
    requires IndexOf(def, idx) && GoodBuffer(def, rows) && AddsAre(am, def, idx, rows, done, start, end) && pk in rows
    requires pk !in done
    ensures rows[pk].next.None? ==> AddsAre(am, def, idx, rows, done + {pk}, start, end)
    ensures rows[pk].next.Some? ==>
              RowFits(def, rows[pk].next.value) &&
              var k := EntryKey(def, idx, pk, rows[pk].next.value);
              if Between(start, k, end) then k !in am && AddsAre(am[k := pk], def, idx, rows, done + {pk}, start, end)
              else AddsAre(am, def, idx, rows, done + {pk}, start, end)
  {
    hide EntryKey, Between, NoNulls;
    assert rows[pk] == rows[pk];
    if rows[pk].next.Some? {
      var row := rows[pk].next.value;
      var k := EntryKey(def, idx, pk, row);
      if k in am {
        assert IsAdd(def, idx, rows, am[k], k);
        EntryKeyInjective(def, idx, am[k], pk, rows[am[k]].next.value, row);
      }
      assert forall q, x :: q == pk && IsAdd(def, idx, rows, q, x) ==> x == k;
      assert IsAdd(def, idx, rows, pk, k);
    }
  }

  lemma {:induction false} MasksNext(masks: set<ByteString>, masks': set<ByteString>, am: KeySpace, am': KeySpace,
                                     def: TableDef, idx: Option<IndexDef>,
                                     rows: TableBuffer, done: set<ByteString>, start: ByteString, end: ByteString,
                                     pk: ByteString)
    requires MasksAre(masks, am, def, idx, rows, done, start, end) && am.Keys <= am'.Keys
    requires forall k :: k in masks' ==> k in masks || (Between(start, k, end) && IsDrop(def, idx, rows, pk, k))
    requires forall k :: k in masks ==> k in masks' || k in am'
    requires forall k {:trigger IsDrop(def, idx, rows, pk, k)} ::
               IsDrop(def, idx, rows, pk, k) && Between(start, k, end) ==> k in masks' || k in am'
    ensures MasksAre(masks', am', def, idx, rows, done + {pk}, start, end)
  {
    hide IsDrop, Between;
    forall k | k in masks'
      ensures Between(start, k, end) && exists q :: q in done + {pk} && IsDrop(def, idx, rows, q, k)
    {
      if k in masks {
        var q :| q in done && IsDrop(def, idx, rows, q, k);
        assert q in done + {pk};
      } else {
        assert pk in done + {pk};
      }
    }
  }

  method RowKey(def: TableDef, idx: Option<IndexDef>, pk: ByteString, row: Row) returns (k: ByteString)
    requires IndexOf(def, idx) && RowFits(def, row)
    ensures k == EntryKey(def, idx, pk, row)
  {
    hide EncodeSlots, BigEndian;
    if idx.None? {
      return ScanKey(def.id, pk);
    }
    ProjectFits(def.kinds, row, idx.value.ords);
    var cols := EncodeIndexCols(def, idx.value, row);
    return SecondarySpace(idx.value.id) + cols.value.0 + pk;
  }

  /** One buffered row's contribution. */
  method OverlayRow(def: TableDef, idx: Option<IndexDef>, rows: TableBuffer, pk: ByteString, start: ByteString,
                    end: ByteString,
                    adds0: seq<KV>, masks0: set<ByteString>, ghost am: KeySpace, ghost done: set<ByteString>)
    returns (adds: seq<KV>, masks: set<ByteString>, ghost am': KeySpace)
    requires IndexOf(def, idx) && GoodBuffer(def, rows) && pk in rows && pk !in done
    requires Collects(adds0, am) && AddsAre(am, def, idx, rows, done, start, end)
    requires MasksAre(masks0, am, def, idx, rows, done, start, end)
    ensures Collects(adds, am') && AddsAre(am', def, idx, rows, done + {pk}, start, end)
    ensures MasksAre(masks, am', def, idx, rows, done + {pk}, start, end)
  {
    hide RowFits, EntryKey, Between, Collects, AddsAre, MasksAre;
    adds, masks, am' := adds0, masks0, am;
    var p := rows[pk];
    AddsNext(am, def, idx, rows, done, start, end, pk);
    if p.prior.Some? && (idx.Some? || p.next.None?) {
      var k := RowKey(def, idx, pk, p.prior.value);
      if Between(start, k, end) {
        masks := masks + {k};
      }
      assert IsDrop(def, idx, rows, pk, k);
    }
    if p.next.Some? {
      var k := RowKey(def, idx, pk, p.next.value);
      if Between(start, k, end) {
        masks := masks - {k};
        CollectNext(adds, am, KV(k, pk));
        adds := adds + [KV(k, pk)];
        am' := am[k := pk];
      }
    }
    PrimaryDrops(def, idx, rows, pk);
    MasksNext(masks0, masks, am, am', def, idx, rows, done, start, end, pk);
  }

  /** In the primary space a row's old and new entry are the same key. */
  lemma {:induction false} PrimaryDrops(def: TableDef, idx: Option<IndexDef>, rows: TableBuffer, pk: ByteString)
    requires IndexOf(def, idx) && GoodBuffer(def, rows) && pk in rows
    ensures forall k {:trigger IsDrop(def, idx, rows, pk, k)} :: IsDrop(def, idx, rows, pk, k) ==>
              rows[pk].prior.Some? && RowFits(def, rows[pk].prior.value) &&
              k == EntryKey(def, idx, pk, rows[pk].prior.value)
    ensures idx.None? && rows[pk].next.Some? && rows[pk].prior.Some? ==>
              RowFits(def, rows[pk].prior.value) && RowFits(def, rows[pk].next.value) &&
              EntryKey(def, idx, pk, rows[pk].prior.value) == EntryKey(def, idx, pk, rows[pk].next.value)
  {
    hide RowFits;
    assert rows[pk] == rows[pk];
  }

  /** Computes what the buffer adds to and hides from a range of the keyspace. */
  method BuildOverlay(def: TableDef, rows: TableBuffer, idx: Option<IndexDef>, start: ByteString, end: ByteString)
    returns (ov: Option<ScanOverlay>, ghost am: KeySpace)
    requires IndexOf(def, idx) && GoodBuffer(def, rows)
    ensures OverlayIs(ov, am, def, idx, rows, start, end)
  {
    hide Collects, AddsAre, MasksAre, IndexOf, GoodBuffer, Lists;
    am := map[];
    NoneOverlaid(def, idx, rows, start, end);
    if |rows| == 0 {
      assert rows.Keys == {};
      return None, am;
    }
    var adds: seq<KV>, masks: set<ByteString> := [], {};
    var rest := rows.Keys;
    ghost var done: set<ByteString> := {};
    while rest != {}
      invariant done + rest == rows.Keys && done !! rest
      invariant Collects(adds, am) && AddsAre(am, def, idx, rows, done, start, end)
      invariant MasksAre(masks, am, def, idx, rows, done, start, end)
    {
      var pk :| pk in rest;
      adds, masks, am := OverlayRow(def, idx, rows, pk, start, end, adds, masks, am, done);
      rest, done := rest - {pk}, done + {pk};
    }
    assert done == rows.Keys;
    var sorted := SortKVs(adds, am);
    var keys := set i | 0 <= i < |adds| :: adds[i].key;
    AddKeys(adds, am, keys);
    MasksWithout(masks, keys, am, def, idx, rows, start, end);
    masks := masks - keys;
    if |sorted| == 0 && masks == {} {
      return None, am;
    }
    return Some(ScanOverlay(sorted, masks)), am;
  }

  lemma {:induction false} NoneOverlaid(def: TableDef, idx: Option<IndexDef>, rows: TableBuffer, start: ByteString,
                                        end: ByteString)
    ensures Collects([], map[]) && Lists([], map[]) && AddsAre(map[], def, idx, rows, {}, start, end)
    ensures MasksAre({}, map[], def, idx, rows, {}, start, end)
  {
  }

  lemma {:induction false} AddKeys(adds: seq<KV>, am: KeySpace, keys: set<ByteString>)
    requires Collects(adds, am) && keys == set i | 0 <= i < |adds| :: adds[i].key
    ensures keys == am.Keys
  {
  }

  lemma {:induction false} MasksWithout(masks: set<ByteString>, keys: set<ByteString>, am: KeySpace, def: TableDef,
                                        idx: Option<IndexDef>,
                                        rows: TableBuffer, start: ByteString, end: ByteString)
    requires MasksAre(masks, am, def, idx, rows, rows.Keys, start, end) && keys == am.Keys
    ensures MasksAre(masks - keys, am, def, idx, rows, rows.Keys, start, end)
  {
    hide IsDrop, Between;
  }

  // -------------------------------------------------------------- refinement

  /** The prefix of the scanned space. */
  function SpaceOf(def: TableDef, idx: Option<IndexDef>): ByteString
  {
    if idx.None? then ScanKey(def.id, []) else SecondarySpace(idx.value.id)
  }

  /** The range lies inside the space. */
  ghost predicate InSpace(def: TableDef, idx: Option<IndexDef>, start: ByteString, end: ByteString)
  {
    Inside(SpaceOf(def, idx), start, end)
  }

  /** Inside one space a row owns exactly its key there. */
  lemma {:induction false} OwnsInSpace(cat: Catalog, def: TableDef, idx: Option<IndexDef>, pk: ByteString, row: Row,
                                       k: ByteString)
    requires WellCatalogued(cat) && def.id in cat && cat[def.id] == def && IndexOf(def, idx) && RowFits(def, row)
    requires SpaceOf(def, idx) <= k
    ensures Owns(cat, RowRef(def.id, pk), row, k) <==> k == EntryKey(def, idx, pk, row)
  {
    hide ScanKey, IndexKey, SecondarySpace, NoNulls;
    var ref := RowRef(def.id, pk);
    KeyTags(def.id, pk, IndexDef(0, false, []), row);
    SpaceTags(def, idx, k);
    if idx.Some? {
      var j :| 0 <= j < |def.indexes| && def.indexes[j] == idx.value;
      assert IndexEntry(def, j, row, pk, IndexKey(idx.value, row, pk));
    }
    if Owns(cat, ref, row, k) && k != ScanKey(def.id, pk) {
      var i :| IndexEntry(def, i, row, pk, k);
      KeyTags(def.id, pk, def.indexes[i], row);
      if idx.Some? {
        SpaceIdUnique(def.indexes[i], idx.value, row, pk, k);
        var j :| 0 <= j < |def.indexes| && def.indexes[j] == idx.value;
        assert cat[def.id].indexes[i].id == cat[def.id].indexes[j].id;
      }
    }
  }

  lemma {:induction false} SpaceTags(def: TableDef, idx: Option<IndexDef>, k: ByteString)
    requires SpaceOf(def, idx) <= k
    ensures |k| > 0 && k[0] == if idx.None? then SCAN_PREFIX else SECONDARY_PREFIX
  {
    hide BigEndian;
  }

  lemma {:induction false} SpaceIdUnique(a: IndexDef, b: IndexDef, row: Row, pk: ByteString, k: ByteString)
    requires OrdsIn(a.ords, |row|) && k == IndexKey(a, row, pk) && SecondarySpace(b.id) <= k
    ensures a.id == b.id
  {
    hide BigEndian, EncodeSlots;
    var rest := EncodeSlots(true, Columns(a, row)) + pk;
    assert k == [SECONDARY_PREFIX] + BigEndian(a.id, 8) + rest;
    assert k == [SECONDARY_PREFIX] + BigEndian(b.id, 8) + k[9..];
    SpaceSplit(SECONDARY_PREFIX, a.id, b.id, rest, k[9..]);
  }

  /** The changes a buffer stands for, in some order. */
  ghost predicate ChangesOf(def: TableDef, rows: TableBuffer, changes: seq<Change>)
  {
    (forall i {:trigger changes[i]} :: 0 <= i < |changes| ==>
      changes[i].ref.table == def.id && changes[i].ref.pk in rows && changes[i].row == rows[changes[i].ref.pk]) &&
    (forall pk {:trigger pk in rows} :: pk in rows ==>
      exists i :: 0 <= i < |changes| && changes[i] == Change(RowRef(def.id, pk), rows[pk])) &&
    (forall i, j :: 0 <= i < j < |changes| ==> changes[i].ref != changes[j].ref)
  }

  /** What the scan yields for an entry: the primary key of the row it points at. */
  function YieldOf(secondary: bool, kv: KV): ByteString
  {
    if secondary then kv.value else if |kv.key| >= 9 then kv.key[9..] else []
  }

  /** At every key of the range, the view through the overlay is what the keyspace
      holds after the buffer's operations. */
  lemma {:induction false} ViewIsCommitted(cat: Catalog, def: TableDef, idx: Option<IndexDef>, rows: TableBuffer,
                                           changes: seq<Change>, m: KeySpace,
                                           start: ByteString, end: ByteString, ov: Option<ScanOverlay>, am: KeySpace,
                                           k: ByteString)
    requires WellCatalogued(cat) && def.id in cat && cat[def.id] == def && IndexOf(def, idx) && GoodBuffer(def, rows)
    requires ChangesOf(def, rows, changes) && GoodBatch(cat, changes) && InSpace(def, idx, start, end)
    requires OverlayIs(ov, am, def, idx, rows, start, end) && Between(start, k, end)
    ensures var shown, after := View(InRange(m, start, end), am, MasksIn(ov)), Run(m, BatchScanOps(cat, changes));
            (k in shown <==> k in after) &&
            (k in shown ==> YieldOf(idx.Some?, KV(k, shown[k])) == YieldOf(idx.Some?, KV(k, after[k])))
  {
    hide Run, BatchScanOps, Owns, RowFits, EntryKey, Less, GoodBatch, WellCatalogued, IndexOf, Lists;
    BatchEffect(cat, m, changes, k);
    SpaceTags(def, idx, k);
    var after := Run(m, BatchScanOps(cat, changes));
    assert Lookup(after, k) == Lookup(after, k) && Lookup(m, k) == Lookup(m, k);
    if i :| 0 <= i < |changes| && Adds(cat, changes[i], k) {
      TouchesAre(cat, def, idx, rows, changes, i, k);
      assert k in am && am[k] == changes[i].ref.pk;
    } else if i :| 0 <= i < |changes| && Drops(cat, changes[i], k) {
      TouchesAre(cat, def, idx, rows, changes, i, k);
      AmMeansAdded(cat, def, idx, rows, changes, start, end, am, k);
    } else {
      AmMeansAdded(cat, def, idx, rows, changes, start, end, am, k);
      MaskMeansDropped(cat, def, idx, rows, changes, start, end, ov, am, k);
    }
  }

  lemma {:induction false} TouchesAre(cat: Catalog, def: TableDef, idx: Option<IndexDef>, rows: TableBuffer,
                                      changes: seq<Change>, i: nat, k: ByteString)
    requires WellCatalogued(cat) && def.id in cat && cat[def.id] == def && IndexOf(def, idx) && GoodBuffer(def, rows)
    requires ChangesOf(def, rows, changes) && i < |changes| && SpaceOf(def, idx) <= k
    ensures Adds(cat, changes[i], k) <==> IsAdd(def, idx, rows, changes[i].ref.pk, k)
    ensures Drops(cat, changes[i], k) <==> IsDrop(def, idx, rows, changes[i].ref.pk, k)
  {
    hide Owns, RowFits, EntryKey, WellCatalogued, IndexOf;
    var c := changes[i];
    assert rows[c.ref.pk] == c.row;
    if c.row.next.Some? {
      OwnsInSpace(cat, def, idx, c.ref.pk, c.row.next.value, k);
    }
    if c.row.prior.Some? {
      OwnsInSpace(cat, def, idx, c.ref.pk, c.row.prior.value, k);
    }
  }

  lemma {:induction false} AmMeansAdded(cat: Catalog, def: TableDef, idx: Option<IndexDef>, rows: TableBuffer,
                                        changes: seq<Change>,
                                        start: ByteString, end: ByteString, am: KeySpace, k: ByteString)
    requires WellCatalogued(cat) && def.id in cat && cat[def.id] == def && IndexOf(def, idx) && GoodBuffer(def, rows)
    requires ChangesOf(def, rows, changes) && AddsAre(am, def, idx, rows, rows.Keys, start, end)
    requires SpaceOf(def, idx) <= k
    requires forall i {:trigger changes[i]} :: 0 <= i < |changes| ==> !Adds(cat, changes[i], k)
    ensures k !in am
  {
    hide RowFits, EntryKey, WellCatalogued, IndexOf, Adds, Drops, IsAdd, IsDrop;
    if k in am {
      assert am[k] in rows && IsAdd(def, idx, rows, am[k], k);
      var i :| 0 <= i < |changes| && changes[i] == Change(RowRef(def.id, am[k]), rows[am[k]]);
      TouchesAre(cat, def, idx, rows, changes, i, k);
    }
  }

  lemma {:induction false} MaskMeansDropped(cat: Catalog, def: TableDef, idx: Option<IndexDef>, rows: TableBuffer,
                                            changes: seq<Change>,
                                            start: ByteString, end: ByteString, ov: Option<ScanOverlay>, am: KeySpace,
                                            k: ByteString)
    requires WellCatalogued(cat) && def.id in cat && cat[def.id] == def && IndexOf(def, idx) && GoodBuffer(def, rows)
    requires ChangesOf(def, rows, changes) && MasksAre(MasksIn(ov), am, def, idx, rows, rows.Keys, start, end)
    requires SpaceOf(def, idx) <= k
    requires forall i {:trigger changes[i]} :: 0 <= i < |changes| ==> !Drops(cat, changes[i], k)
    ensures k !in MasksIn(ov)
  {
    hide RowFits, EntryKey, WellCatalogued, IndexOf, Adds, Drops, IsAdd, IsDrop;
    if k in MasksIn(ov) {
      var pk :| pk in rows.Keys && IsDrop(def, idx, rows, pk, k);
      assert pk in rows;
      var i :| 0 <= i < |changes| && changes[i] == Change(RowRef(def.id, pk), rows[pk]);
      TouchesAre(cat, def, idx, rows, changes, i, k);
    }
  }
}

/** Table and index scans inside a transaction: bounds, overlay and iterator
    together.  */
module Lookups {
  import opened Hashing
  import opened ByteStrings
  import opened KeyCodec
  import opened Tables
  import opened Keyspaces
  import opened Derived
  import opened Transactions
  import opened Ranges
  import opened Overlay
  import opened Scanning
  import opened PairTable

  // ------------------------------------------------------------------ bounds

  /** The columns of the scanned key: the index's or the primary key's. */
  function OrdsOf(def: TableDef, idx: Option<IndexDef>): seq<nat>
  {
    if idx.Some? then idx.value.ords else def.pkOrds
  }

  ghost predicate Scannable(cat: Catalog, def: TableDef, idx: Option<IndexDef>)
  {
    WellCatalogued(cat) && def.id in cat && cat[def.id] == def && IndexOf(def, idx)
  }

  lemma {:induction false} OrdsFit(def: TableDef, idx: Option<IndexDef>)
    requires IndexOf(def, idx)
    ensures OrdsIn(OrdsOf(def, idx), |def.kinds|)
  {
    if idx.Some? {
      var j :| 0 <= j < |def.indexes| && def.indexes[j] == idx.value;
    }
  }

  ghost function KindsOf(def: TableDef, idx: Option<IndexDef>): seq<Kind>
    requires IndexOf(def, idx)
  {
    OrdsFit(def, idx);
    Project(def.kinds, OrdsOf(def, idx))
  }

  ghost function SlotsOf(def: TableDef, idx: Option<IndexDef>, row: Row): seq<Option<Cell>>
    requires IndexOf(def, idx) && RowFits(def, row)
  {
    OrdsFit(def, idx);
    Project(row, OrdsOf(def, idx))
  }

  /** The number of leading columns that decide membership in the interval. */
  ghost function Deciding(def: TableDef, idx: Option<IndexDef>, rng: seq<ColRange>): nat
    requires IndexOf(def, idx)
  {
    Consumed(idx.Some?, KindsOf(def, idx), rng)
  }

  /** The row is one the range asks for, as far as its deciding columns go. */
  ghost predicate Matches(def: TableDef, idx: Option<IndexDef>, rng: seq<ColRange>, row: Row)
    requires IndexOf(def, idx)
  {
    RowFits(def, row) && Deciding(def, idx, rng) <= |OrdsOf(def, idx)| && Deciding(def, idx, rng) <= |rng| &&
    InColumns(SlotsOf(def, idx, row), rng, Deciding(def, idx, rng))
  }

  /** A range that asks for single values, except perhaps in the last column it names,
      is matched by exactly the rows that have every asked column in range. */
  lemma {:induction false} PointsDecide(def: TableDef, idx: Option<IndexDef>, rng: seq<ColRange>,
                                        points: seq<Option<Cell>>, row: Row)
    requires IndexOf(def, idx) && RowFits(def, row) && |points| <= |rng| <= |points| + 1 && |rng| <= |KindsOf(def, idx)|
    requires forall i {:trigger rng[i]} :: 0 <= i < |points| ==>
               SlotOk(idx.Some?, KindsOf(def, idx)[i], points[i]) && rng[i] == PointOf(points[i])
    ensures |SlotsOf(def, idx, row)| == |KindsOf(def, idx)|
    ensures Matches(def, idx, rng, row) <==> InColumns(SlotsOf(def, idx, row), rng, |rng|)
  {
    hide InColumns, WellDefined, ExactCol, SlotOk, PointOf, ExactCount;
    OrdsFit(def, idx);
    forall i | 0 <= i < |points|
      ensures SlotOk(idx.Some?, KindsOf(def, idx)[i], points[i]) && rng[i] == PointOf(points[i])
    {
      assert rng[i] == rng[i];
    }
    PointsConsumed(idx.Some?, KindsOf(def, idx), rng, points);
  }

  /** [start, end) is the interval of the range in the key space of def and idx. */
  ghost predicate BoundsFor(def: TableDef, idx: Option<IndexDef>, rng: seq<ColRange>, start: ByteString,
                            end: ByteString)
    requires IndexOf(def, idx)
  {
    var n := Deciding(def, idx, rng);
    n <= |OrdsOf(def, idx)| && n <= |rng| && InSpace(def, idx, start, end) &&
    IntervalMeans(start, end, SpaceOf(def, idx), idx.Some?, KindsOf(def, idx), rng, n)
  }

  /** The bounds of a lookup, or None when the range cannot be served. */
  method LookupBounds(def: TableDef, idx: Option<IndexDef>,
                      rng: seq<ColRange>) returns (r: Option<(ByteString, ByteString)>)
    requires IndexOf(def, idx)
    ensures r.Some? <==> Supported(idx.Some?, KindsOf(def, idx), rng)
    ensures r.None? ==> exists n :: Stuck(idx.Some?, KindsOf(def, idx), rng, n)
    ensures r.Some? ==> BoundsFor(def, idx, rng, r.value.0, r.value.1)
  {
    hide BigEndian, Supported, Stuck, Consumed, IntervalMeans, Inside;
    OrdsFit(def, idx);
    SpaceHasRoom(def, idx);
    r := RangeBounds(SpaceOf(def, idx), idx.Some?, Project(def.kinds, OrdsOf(def, idx)), rng);
  }

  lemma {:induction false} SpaceHasRoom(def: TableDef, idx: Option<IndexDef>)
    ensures HasRoom(SpaceOf(def, idx))
  {
    hide BigEndian;
  }

  /** A full scan covers the primary space: it is the range without conditions. */
  method FullScanBounds(def: TableDef) returns (start: ByteString, end: ByteString)
    requires WellDefined(def)
    ensures BoundsFor(def, None, [], start, end)
  {
    hide BigEndian, IntervalMeans, Inside;
    SpaceHasRoom(def, None);
    start := ScanKey(def.id, []);
    var e := IncBytes(start);
    end := e.value;
    PrefixInside(start, end, start);
    NothingAsked(def, start, end);
  }

  lemma {:induction false} NothingAsked(def: TableDef, start: ByteString, end: ByteString)
    requires WellDefined(def) && start == ScanKey(def.id, []) &&
             forall k: ByteString :: Between(start, k, end) <==> start <= k
    ensures Deciding(def, None, []) == 0 && IntervalMeans(start, end, start, false, KindsOf(def, None), [], 0)
  {
    hide ScanKey, Between;
    forall slots, suffix | KeySlots(false, KindsOf(def, None), slots)
      ensures Between(start, KeyWith(start, false, slots, suffix), end)
    {
      assert start <= start + EncodeSlots(false, slots) + suffix;
    }
  }

  /** A row's entry is in the interval exactly when the row matches. */
  lemma {:induction false} EntryInBounds(def: TableDef, idx: Option<IndexDef>, rng: seq<ColRange>, start: ByteString,
                                         end: ByteString, pk: ByteString, row: Row)
    requires IndexOf(def, idx) && BoundsFor(def, idx, rng, start, end) && RowFits(def, row) && pk == PkOf(def, row)
    ensures Between(start, EntryKey(def, idx, pk, row), end) <==> Matches(def, idx, rng, row)
  {
    hide BigEndian, EncodeSlots, Consumed, Inside, InColumns, Between;
    OrdsFit(def, idx);
    var slots, suffix := SlotsOf(def, idx, row), if idx.Some? then pk else [];
    ProjectFits(def.kinds, row, OrdsOf(def, idx));
    assert KeySlots(idx.Some?, KindsOf(def, idx), slots);
    assert EntryKey(def, idx, pk, row) == KeyWith(SpaceOf(def, idx), idx.Some?, slots, suffix);
  }

  // ------------------------------------------------------ what a scan yields

  /** The row a transaction sees under pk. */
  ghost function Sees(def: TableDef, db: Database, rows: TableBuffer, pk: ByteString): Option<Row>
  {
    if pk in rows then rows[pk].next else Lookup(db, RowRef(def.id, pk))
  }

  /** The part of a write-set that concerns one table, by primary key. */
  ghost function TableView(txn: Buffer, table: Word): TableBuffer
  {
    map ref | ref in txn && ref.table == table :: ref.pk := txn[ref]
  }

  /** What a scan sees is what a read through the transaction returns. */
  lemma {:induction false} ViewOfTxn(def: TableDef, db: Database, txn: Buffer, pk: ByteString)
    ensures Sees(def, db, TableView(txn, def.id), pk) == Visible(db, txn, map[], RowRef(def.id, pk))
    ensures BasedOn(db, txn) ==> BufferCurrent(def, db, TableView(txn, def.id))
  {
    var rows := TableView(txn, def.id);
    forall q ensures q in rows <==> RowRef(def.id, q) in txn
             ensures q in rows ==> rows[q] == txn[RowRef(def.id, q)]
    {
      if RowRef(def.id, q) in txn {
        assert RowRef(def.id, q).pk == q;
      }
    }
  }

  /** The committed row under pk has its entry at k. */
  ghost predicate HasEntry(def: TableDef, idx: Option<IndexDef>, db: Database, pk: ByteString, k: ByteString)
  {
    var ref := RowRef(def.id, pk);
    IndexOf(def, idx) && ref in db && RowFits(def, db[ref]) && k == EntryKey(def, idx, pk, db[ref])
  }

  /** A scan set up over an exact keyspace. */
  ghost predicate Scanned(cat: Catalog, def: TableDef, idx: Option<IndexDef>, db: Database, rows: TableBuffer,
                          m: KeySpace,
                          start: ByteString, end: ByteString, ov: Option<ScanOverlay>, am: KeySpace)
  {
    Scannable(cat, def, idx) && Exact(cat, db, m) && GoodBuffer(def, rows) && InSpace(def, idx, start, end) &&
    OverlayIs(ov, am, def, idx, rows, start, end)
  }

  ghost function Shown(m: KeySpace, start: ByteString, end: ByteString, ov: Option<ScanOverlay>, am: KeySpace): KeySpace
  {
    View(InRange(m, start, end), am, MasksIn(ov))
  }

  lemma {:induction false} AddYields(def: TableDef, idx: Option<IndexDef>, rows: TableBuffer, pk: ByteString,
                                     k: ByteString, v: ByteString)
    requires IsAdd(def, idx, rows, pk, k) && v == pk
    ensures YieldOf(idx.Some?, KV(k, v)) == pk
  {
    hide BigEndian, IndexKey, NoNulls;
  }

  /** Every shown entry is a buffered row's, or that of a committed row which the
      buffer did not find there. */
  lemma {:induction false} ShownIs(cat: Catalog, def: TableDef, idx: Option<IndexDef>, db: Database, rows: TableBuffer,
                                   m: KeySpace,
                                   start: ByteString, end: ByteString, ov: Option<ScanOverlay>, am: KeySpace,
                                   k: ByteString)
    requires Scanned(cat, def, idx, db, rows, m, start, end, ov, am) && k in Shown(m, start, end, ov, am)
    ensures Between(start, k, end)
    ensures var pk := YieldOf(idx.Some?, KV(k, Shown(m, start, end, ov, am)[k]));
            IsAdd(def, idx, rows, pk, k) || (HasEntry(def, idx, db, pk, k) && !IsDrop(def, idx, rows, pk, k))
  {
    hide Exact, Between, Inside, RowFits, EntryKey, YieldOf, WellCatalogued, IndexOf, Lists, GoodBuffer, IsAdd, IsDrop;
    var shown := Shown(m, start, end, ov, am);
    if k in am {
      assert IsAdd(def, idx, rows, am[k], k);
      AddYields(def, idx, rows, am[k], k, shown[k]);
    } else {
      assert k in InRange(m, start, end) && k !in MasksIn(ov) && shown[k] == m[k];
      ScanResolves(cat, def, idx, db, m, start, end, k);
      NotDropped(def, idx, rows, start, end, ov, am, YieldOf(idx.Some?, KV(k, m[k])), k);
    }
  }

  lemma {:induction false} NotDropped(def: TableDef, idx: Option<IndexDef>, rows: TableBuffer, start: ByteString,
                                      end: ByteString,
                                      ov: Option<ScanOverlay>, am: KeySpace, pk: ByteString, k: ByteString)
    requires MasksAre(MasksIn(ov), am, def, idx, rows, rows.Keys, start, end) && k !in MasksIn(ov) && k !in am
    requires Between(start, k, end)
    ensures !IsDrop(def, idx, rows, pk, k)
  {
    hide Between, RowFits, EntryKey;
  }

  lemma {:induction false} RowHasOrds(def: TableDef, idx: Option<IndexDef>, row: Row)
    requires IndexOf(def, idx) && RowFits(def, row)
    ensures OrdsIn(OrdsOf(def, idx), |row|)
  {
    OrdsFit(def, idx);
  }

  /** A buffered row's entry in range is shown under its key. */
  lemma {:induction false} AddShown(cat: Catalog, def: TableDef, idx: Option<IndexDef>, db: Database, rows: TableBuffer,
                                    m: KeySpace,
                                    start: ByteString, end: ByteString, ov: Option<ScanOverlay>, am: KeySpace,
                                    pk: ByteString, k: ByteString)
    requires Scanned(cat, def, idx, db, rows, m, start, end, ov, am) && Between(start, k, end)
    requires IsAdd(def, idx, rows, pk, k)
    ensures k in Shown(m, start, end, ov, am) && YieldOf(idx.Some?, KV(k, Shown(m, start, end, ov, am)[k])) == pk
  {
    hide Exact, Between, Inside, RowFits, EntryKey, YieldOf, WellCatalogued, IndexOf, Lists, GoodBuffer;
    assert pk in rows.Keys;
    assert k in am && am[k] == pk;
    AddYields(def, idx, rows, pk, k, am[k]);
  }

  /** So is a committed row's, unless the buffer found the row there or replaces it. */
  lemma {:induction false} EntryShown(cat: Catalog, def: TableDef, idx: Option<IndexDef>, db: Database,
                                      rows: TableBuffer, m: KeySpace,
                                      start: ByteString, end: ByteString, ov: Option<ScanOverlay>, am: KeySpace,
                                      pk: ByteString, k: ByteString)
    requires Scanned(cat, def, idx, db, rows, m, start, end, ov, am) && Between(start, k, end)
    requires HasEntry(def, idx, db, pk, k)
    requires !IsDrop(def, idx, rows, pk, k) && !IsAdd(def, idx, rows, pk, k)
    ensures k in Shown(m, start, end, ov, am) && YieldOf(idx.Some?, KV(k, Shown(m, start, end, ov, am)[k])) == pk
  {
    hide Exact, Between, Inside, RowFits, EntryKey, YieldOf, WellCatalogued, IndexOf, Lists, GoodBuffer, IsAdd, IsDrop;
    EntryStored(cat, def, idx, db, m, start, end, pk, k);
    if k in am {
      assert IsAdd(def, idx, rows, am[k], k);
      AddOwner(def, idx, db, rows, pk, am[k], k);
    }
    if k in MasksIn(ov) {
      var q :| q in rows.Keys && IsDrop(def, idx, rows, q, k);
      DropOwner(def, idx, db, rows, pk, q, k);
    }
    assert k in InRange(m, start, end);
    ScanResolves(cat, def, idx, db, m, start, end, k);
    EntryOwner(def, idx, db, pk, YieldOf(idx.Some?, KV(k, m[k])), k);
  }

  lemma {:induction false} EntryStored(cat: Catalog, def: TableDef, idx: Option<IndexDef>, db: Database, m: KeySpace,
                                       start: ByteString, end: ByteString, pk: ByteString, k: ByteString)
    requires Scannable(cat, def, idx) && Exact(cat, db, m) && InSpace(def, idx, start, end)
    requires Between(start, k, end) && HasEntry(def, idx, db, pk, k)
    ensures k in m
  {
    hide Exact, Between, Owns, Expected, ScanKey, SecondarySpace, IndexKey, NoNulls, WellCatalogued;
    var ref := RowRef(def.id, pk);
    assert SpaceOf(def, idx) <= k;
    SpaceTags(def, idx, k);
    OwnsInSpace(cat, def, idx, pk, db[ref], k);
    ExpectedOwner(cat, db, ref, k);
    ExactAt(cat, db, m, k);
  }

  lemma {:induction false} AddOwner(def: TableDef, idx: Option<IndexDef>, db: Database, rows: TableBuffer,
                                    pk: ByteString, q: ByteString, k: ByteString)
    requires HasEntry(def, idx, db, pk, k) && IsAdd(def, idx, rows, q, k)
    ensures q == pk
  {
    hide EntryKey, NoNulls;
    EntryKeyInjective(def, idx, pk, q, db[RowRef(def.id, pk)], rows[q].next.value);
  }

  lemma {:induction false} DropOwner(def: TableDef, idx: Option<IndexDef>, db: Database, rows: TableBuffer,
                                     pk: ByteString, q: ByteString, k: ByteString)
    requires HasEntry(def, idx, db, pk, k) && IsDrop(def, idx, rows, q, k)
    ensures q == pk
  {
    hide EntryKey, NoNulls;
    EntryKeyInjective(def, idx, pk, q, db[RowRef(def.id, pk)], rows[q].prior.value);
  }

  lemma {:induction false} EntryOwner(def: TableDef, idx: Option<IndexDef>, db: Database, pk: ByteString, q: ByteString,
                                      k: ByteString)
    requires HasEntry(def, idx, db, pk, k) && HasEntry(def, idx, db, q, k)
    ensures q == pk
  {
    hide EntryKey, NoNulls;
    EntryKeyInjective(def, idx, pk, q, db[RowRef(def.id, pk)], db[RowRef(def.id, q)]);
  }

  /** The keys a scan yields are those of the shown entries. */
  lemma {:induction false} YieldsShown(cat: Catalog, def: TableDef, idx: Option<IndexDef>, db: Database,
                                       rows: TableBuffer, m: KeySpace,
                                       start: ByteString, end: ByteString, ov: Option<ScanOverlay>, am: KeySpace,
                                       stream: seq<KV>, pk: ByteString)
    requires Scanned(cat, def, idx, db, rows, m, start, end, ov, am) && Lists(stream, InRange(m, start, end))
    ensures var shown := Shown(m, start, end, ov, am);
            pk in Yields(idx.Some?, Merged(stream, AddsIn(ov), MasksIn(ov))) <==>
            exists k {:trigger shown[k]} :: k in shown && YieldOf(idx.Some?, KV(k, shown[k])) == pk
  {
    hide Exact, Merged, Between, Inside, RowFits, WellCatalogued, IndexOf, GoodBuffer, AddsAre, MasksAre, YieldOf,
         Lists, InRange;
    MergedListsView(stream, AddsIn(ov), MasksIn(ov), InRange(m, start, end), am);
    YieldsListed(idx.Some?, Merged(stream, AddsIn(ov), MasksIn(ov)), Shown(m, start, end, ov, am), pk);
  }

  lemma {:induction false} YieldsListed(secondary: bool, kvs: seq<KV>, shown: KeySpace, pk: ByteString)
    requires Lists(kvs, shown)
    ensures pk in Yields(secondary, kvs) <==>
            exists k {:trigger shown[k]} :: k in shown && YieldOf(secondary, KV(k, shown[k])) == pk
  {
    hide YieldOf, Less;
    var ys := Yields(secondary, kvs);
    if pk in ys {
      var i :| 0 <= i < |ys| && ys[i] == pk;
      assert kvs[i].key in shown && kvs[i] == KV(kvs[i].key, shown[kvs[i].key]);
    }
    if k :| k in shown && YieldOf(secondary, KV(k, shown[k])) == pk {
      var i :| 0 <= i < |kvs| && kvs[i].key == k;
      assert kvs[i] == KV(k, shown[k]);
      assert ys[i] == pk;
    }
  }

  // ---------------------------------------------------------------- theorems

  /** Buffered rows are filed under their own keys. */
  ghost predicate OwnKeys(def: TableDef, rows: TableBuffer)
  {
    forall pk {:trigger rows[pk]} :: pk in rows && rows[pk].next.Some? ==>
      RowFits(def, rows[pk].next.value) && pk == PkOf(def, rows[pk].next.value)
  }

  /** The buffer found every row it touches as it is committed. */
  ghost predicate BufferCurrent(def: TableDef, db: Database, rows: TableBuffer)
  {
    forall pk {:trigger rows[pk]} :: pk in rows ==> rows[pk].prior == Lookup(db, RowRef(def.id, pk))
  }

  /** Inside a transaction that has not been overtaken, a lookup yields exactly the
      keys of the rows the transaction sees that match its range. */
  lemma {:induction false} ScanAnswersRange(cat: Catalog, def: TableDef, idx: Option<IndexDef>, db: Database,
                                            rows: TableBuffer, m: KeySpace, rng: seq<ColRange>,
                                            start: ByteString, end: ByteString, ov: Option<ScanOverlay>, am: KeySpace,
                                            stream: seq<KV>, pk: ByteString)
    requires Scanned(cat, def, idx, db, rows, m, start, end, ov, am) && BoundsFor(def, idx, rng, start, end)
    requires Lists(stream, InRange(m, start, end)) && GoodDb(cat, db) && OwnKeys(def, rows)
    requires BufferCurrent(def, db, rows)
    ensures pk in Yields(idx.Some?, Merged(stream, AddsIn(ov), MasksIn(ov))) <==>
            Sees(def, db, rows, pk).Some? && Matches(def, idx, rng, Sees(def, db, rows, pk).value)
  {
    hide Exact, Between, Inside, RowFits, EntryKey, YieldOf, WellCatalogued, IndexOf, Lists, GoodBuffer, OverlayIs,
         BoundsFor, Matches, PkOf, Shown, Merged;
    YieldsShown(cat, def, idx, db, rows, m, start, end, ov, am, stream, pk);
    var shown, seen, ref := Shown(m, start, end, ov, am), Sees(def, db, rows, pk), RowRef(def.id, pk);
    if k :| k in shown && YieldOf(idx.Some?, KV(k, shown[k])) == pk {
      ShownIs(cat, def, idx, db, rows, m, start, end, ov, am, k);
      if !IsAdd(def, idx, rows, pk, k) {
        assert pk in rows ==> rows[pk].prior == Lookup(db, ref);
        assert GoodRow(cat, ref, db[ref]);
      }
      EntryInBounds(def, idx, rng, start, end, pk, seen.value);
    }
    if seen.Some? && Matches(def, idx, rng, seen.value) {
      SeenFits(cat, def, db, rows, pk);
      RowHasOrds(def, idx, seen.value);
      var k := EntryKey(def, idx, pk, seen.value);
      EntryInBounds(def, idx, rng, start, end, pk, seen.value);
      if pk in rows {
        assert IsAdd(def, idx, rows, pk, k);
        AddShown(cat, def, idx, db, rows, m, start, end, ov, am, pk, k);
      } else {
        EntryShown(cat, def, idx, db, rows, m, start, end, ov, am, pk, k);
      }
      assert shown[k] == shown[k];
    }
  }

  lemma {:induction false} SeenFits(cat: Catalog, def: TableDef, db: Database, rows: TableBuffer, pk: ByteString)
    requires def.id in cat && cat[def.id] == def && GoodDb(cat, db) && OwnKeys(def, rows)
    requires Sees(def, db, rows, pk).Some?
    ensures RowFits(def, Sees(def, db, rows, pk).value) && pk == PkOf(def, Sees(def, db, rows, pk).value)
  {
    hide RowFits, PkOf;
    if pk in rows {
      assert rows[pk] == rows[pk];
    } else {
      assert GoodRow(cat, RowRef(def.id, pk), db[RowRef(def.id, pk)]);
    }
  }

  /** The transaction deletes pk, and the committed row under pk has an entry in range
      that is not the entry of the row the transaction found. */
  ghost predicate Dangles(def: TableDef, idx: Option<IndexDef>, db: Database, rows: TableBuffer, start: ByteString,
                          end: ByteString, pk: ByteString)
    requires IndexOf(def, idx)
  {
    var ref := RowRef(def.id, pk);
    pk in rows && rows[pk].next.None? && ref in db && RowFits(def, db[ref]) &&
    var k := EntryKey(def, idx, pk, db[ref]);
    Between(start, k, end) && !IsDrop(def, idx, rows, pk, k)
  }

  /** A scan yields a key whose read fails exactly when the key dangles, whatever has
      been committed since the transaction began. */
  lemma {:induction false} ScanFailsIff(cat: Catalog, def: TableDef, idx: Option<IndexDef>, db: Database,
                                        rows: TableBuffer, m: KeySpace,
                                        start: ByteString, end: ByteString, ov: Option<ScanOverlay>, am: KeySpace,
                                        stream: seq<KV>, pk: ByteString)
    requires Scanned(cat, def, idx, db, rows, m, start, end, ov, am) && Lists(stream, InRange(m, start, end))
    ensures pk in Yields(idx.Some?, Merged(stream, AddsIn(ov), MasksIn(ov))) && Sees(def, db, rows, pk).None? <==>
            Dangles(def, idx, db, rows, start, end, pk)
  {
    hide Exact, Between, Inside, RowFits, EntryKey, YieldOf, WellCatalogued, IndexOf, Lists, GoodBuffer, OverlayIs,
         Shown, Merged;
    YieldsShown(cat, def, idx, db, rows, m, start, end, ov, am, stream, pk);
    var shown := Shown(m, start, end, ov, am);
    if k :| k in shown && YieldOf(idx.Some?, KV(k, shown[k])) == pk {
      ShownIs(cat, def, idx, db, rows, m, start, end, ov, am, k);
    }
    if Dangles(def, idx, db, rows, start, end, pk) {
      RowHasOrds(def, idx, db[RowRef(def.id, pk)]);
      var k := EntryKey(def, idx, pk, db[RowRef(def.id, pk)]);
      EntryShown(cat, def, idx, db, rows, m, start, end, ov, am, pk, k);
      assert shown[k] == shown[k];
    }
  }

  /** So while nothing else has committed, every key yielded inside a transaction is
      read, through its buffer or from the ledger. */
  lemma {:induction false} ScanAlwaysReads(cat: Catalog, def: TableDef, idx: Option<IndexDef>, db: Database,
                                           rows: TableBuffer, m: KeySpace,
                                           start: ByteString, end: ByteString, ov: Option<ScanOverlay>, am: KeySpace,
                                           stream: seq<KV>, pk: ByteString)
    requires Scanned(cat, def, idx, db, rows, m, start, end, ov, am) && Lists(stream, InRange(m, start, end))
    requires BufferCurrent(def, db, rows)
    requires pk in Yields(idx.Some?, Merged(stream, AddsIn(ov), MasksIn(ov)))
    ensures Sees(def, db, rows, pk).Some?
  {
    hide Exact, WellCatalogued, OverlayIs, Inside, GoodBuffer, Between, RowFits, EntryKey, Lists, Merged, Yields,
         IndexOf;
    ScanFailsIff(cat, def, idx, db, rows, m, start, end, ov, am, stream, pk);
    assert pk in rows ==> rows[pk].prior == Lookup(db, RowRef(def.id, pk));
  }

  /** Once overtaken a scan can fail: the transaction inserted and deleted row 1, and
      another session has committed a row 1. */
  lemma {:induction false} OvertakenScanFails(m: KeySpace, start: ByteString, end: ByteString, ov: Option<ScanOverlay>,
                                              am: KeySpace, stream: seq<KV>)
    requires Scanned(PAIR_CATALOG, PAIR_DEF, None, map[PairRef(1) := PairRow(1, Some(5))],
                     map[PairRef(1).pk := Pending(None, None)], m, start, end, ov, am)
    requires BoundsFor(PAIR_DEF, None, [], start, end) && Lists(stream, InRange(m, start, end))
    ensures PairRef(1).pk in Yields(false, Merged(stream, AddsIn(ov), MasksIn(ov)))
    ensures Sees(PAIR_DEF, map[PairRef(1) := PairRow(1, Some(5))], map[PairRef(1).pk := Pending(None, None)],
                 PairRef(1).pk).None?
  {
    hide Exact, WellCatalogued, OverlayIs, Inside, GoodBuffer, Between, EncodeSlots, Lists, Merged, Yields,
         IntervalMeans, Consumed, ScanKey;
    var db, pk := map[PairRef(1) := PairRow(1, Some(5))], PairRef(1).pk;
    var rows := map[pk := Pending(None, None)];
    PairStored(1, Some(5));
    assert PAIR_CATALOG[PAIRS] == PAIR_DEF && RowRef(PAIR_DEF.id, pk) == PairRef(1);
    EntryInBounds(PAIR_DEF, None, [], start, end, pk, PairRow(1, Some(5)));
    assert Dangles(PAIR_DEF, None, db, rows, start, end, pk);
    ScanFailsIff(PAIR_CATALOG, PAIR_DEF, None, db, rows, m, start, end, ov, am, stream, pk);
  }

  // ----------------------------------------------------------- opening a scan

  /** The entry of the row seen under p comes before that of the row seen under q. */
  ghost predicate EntryBefore(def: TableDef, idx: Option<IndexDef>, db: Database, rows: TableBuffer, p: ByteString,
                              q: ByteString)
  {
    var (a, b) := (Sees(def, db, rows, p), Sees(def, db, rows, q));
    IndexOf(def, idx) && a.Some? && b.Some? && RowFits(def, a.value) && RowFits(def, b.value) &&
    Less(EntryKey(def, idx, p, a.value), EntryKey(def, idx, q, b.value))
  }

  /** The sequence holds exactly the keys of the matching rows the transaction sees,
      each once, in the order of their entries. */
  ghost predicate Answers(def: TableDef, idx: Option<IndexDef>, rng: seq<ColRange>, db: Database, rows: TableBuffer,
                          pks: seq<ByteString>)
    requires IndexOf(def, idx)
  {
    (forall pk {:trigger pk in pks} :: pk in pks <==>
      Sees(def, db, rows, pk).Some? && Matches(def, idx, rng, Sees(def, db, rows, pk).value)) &&
    (forall i, j :: 0 <= i < j < |pks| ==> pks[i] != pks[j] && EntryBefore(def, idx, db, rows, pks[i], pks[j]))
  }

  /** A shown key is the entry of the row the transaction sees under what it yields. */
  lemma {:induction false} ShownIsSeen(cat: Catalog, def: TableDef, idx: Option<IndexDef>, db: Database,
                                       rows: TableBuffer, m: KeySpace,
                                       start: ByteString, end: ByteString, ov: Option<ScanOverlay>, am: KeySpace,
                                       k: ByteString)
    requires Scanned(cat, def, idx, db, rows, m, start, end, ov, am) && BufferCurrent(def, db, rows)
    requires k in Shown(m, start, end, ov, am)
    ensures var pk := YieldOf(idx.Some?, KV(k, Shown(m, start, end, ov, am)[k]));
            var seen := Sees(def, db, rows, pk);
            IndexOf(def, idx) && seen.Some? && RowFits(def, seen.value) && k == EntryKey(def, idx, pk, seen.value)
  {
    hide Exact, Between, Inside, RowFits, EntryKey, YieldOf, WellCatalogued, IndexOf, Lists, GoodBuffer, OverlayIs,
         Shown;
    ShownIs(cat, def, idx, db, rows, m, start, end, ov, am, k);
    var pk := YieldOf(idx.Some?, KV(k, Shown(m, start, end, ov, am)[k]));
    assert pk in rows ==> rows[pk].prior == Lookup(db, RowRef(def.id, pk));
  }

  lemma {:induction false} YieldsOrdered(cat: Catalog, def: TableDef, idx: Option<IndexDef>, db: Database,
                                         rows: TableBuffer, m: KeySpace, start: ByteString, end: ByteString,
                                         ov: Option<ScanOverlay>, am: KeySpace, stream: seq<KV>, i: nat, j: nat)
    requires Scanned(cat, def, idx, db, rows, m, start, end, ov, am) && BufferCurrent(def, db, rows)
    requires Lists(stream, InRange(m, start, end))
    requires i < j < |Merged(stream, AddsIn(ov), MasksIn(ov))|
    ensures var pks := Yields(idx.Some?, Merged(stream, AddsIn(ov), MasksIn(ov)));
            pks[i] != pks[j] && EntryBefore(def, idx, db, rows, pks[i], pks[j])
  {
    hide Exact, Merged, Between, Inside, RowFits, WellCatalogued, IndexOf, GoodBuffer, AddsAre, MasksAre, YieldOf,
         InRange,
         Less, EntryKey, Sees, BufferCurrent, View;
    var merged, shown := Merged(stream, AddsIn(ov), MasksIn(ov)), Shown(m, start, end, ov, am);
    MergedListsView(stream, AddsIn(ov), MasksIn(ov), InRange(m, start, end), am);
    assert Lists(merged, shown);
    ListedAt(merged, shown, i);
    ListedAt(merged, shown, j);
    ShownIsSeen(cat, def, idx, db, rows, m, start, end, ov, am, merged[i].key);
    ShownIsSeen(cat, def, idx, db, rows, m, start, end, ov, am, merged[j].key);
    Trichotomy(merged[i].key, merged[j].key);
  }

  lemma {:induction false} YieldsLength(secondary: bool, kvs: seq<KV>)
    ensures |Yields(secondary, kvs)| == |kvs|
  {
  }

  lemma {:induction false} AllAnswered(cat: Catalog, def: TableDef, idx: Option<IndexDef>, db: Database,
                                       rows: TableBuffer, m: KeySpace, rng: seq<ColRange>,
                                       start: ByteString, end: ByteString, ov: Option<ScanOverlay>, am: KeySpace,
                                       stream: seq<KV>)
    requires Scanned(cat, def, idx, db, rows, m, start, end, ov, am) && BoundsFor(def, idx, rng, start, end)
    requires Lists(stream, InRange(m, start, end)) && GoodDb(cat, db) && OwnKeys(def, rows)
    requires BufferCurrent(def, db, rows)
    ensures Answers(def, idx, rng, db, rows, Yields(idx.Some?, Merged(stream, AddsIn(ov), MasksIn(ov))))
  {
    hide Exact, WellCatalogued, GoodBuffer, OverlayIs, InSpace, BoundsFor, Lists, InRange, GoodDb, OwnKeys,
         BufferCurrent, Sees, Matches, Merged, Yields,
         IndexOf;
    var pks := Yields(idx.Some?, Merged(stream, AddsIn(ov), MasksIn(ov)));
    forall pk
      ensures pk in pks <==> Sees(def, db, rows, pk).Some? && Matches(def, idx, rng, Sees(def, db, rows, pk).value)
    {
      ScanAnswersRange(cat, def, idx, db, rows, m, rng, start, end, ov, am, stream, pk);
    }
    forall i, j | 0 <= i < j < |pks| ensures pks[i] != pks[j] && EntryBefore(def, idx, db, rows, pks[i], pks[j]) {
      YieldsLength(idx.Some?, Merged(stream, AddsIn(ov), MasksIn(ov)));
      YieldsOrdered(cat, def, idx, db, rows, m, start, end, ov, am, stream, i, j);
    }
  }

  /** Every cut of the range has the kind of its column. */
  ghost predicate RightCuts(def: TableDef, idx: Option<IndexDef>, rng: seq<ColRange>)
    requires IndexOf(def, idx)
  {
    forall i {:trigger rng[i]} :: 0 <= i < |rng| && i < |KindsOf(def, idx)| ==> !WrongCuts(KindsOf(def, idx)[i], rng[i])
  }

  lemma {:induction false} SlotFits(def: TableDef, idx: Option<IndexDef>, row: Row, n: nat)
    requires IndexOf(def, idx) && RowFits(def, row) && n < |KindsOf(def, idx)|
    ensures n < |SlotsOf(def, idx, row)| && SlotOk(idx.Some?, KindsOf(def, idx)[n], SlotsOf(def, idx, row)[n])
  {
    hide WellDefined;
    OrdsFit(def, idx);
    ProjectFits(def.kinds, row, OrdsOf(def, idx));
  }

  /** No row matches a range that is refused although its cuts have the right kinds. */
  lemma {:induction false} StuckMatchesNone(def: TableDef, idx: Option<IndexDef>, rng: seq<ColRange>, n: int, row: Row)
    requires IndexOf(def, idx) && Stuck(idx.Some?, KindsOf(def, idx), rng, n) && RightCuts(def, idx, rng)
    ensures !Matches(def, idx, rng, row)
  {
    hide ExactCol, InColumn, WrongCuts, Consumed, WellDefined;
    AheadCount(idx.Some?, KindsOf(def, idx), rng, n);
    assert rng[n] == rng[n];
    if RowFits(def, row) {
      SlotFits(def, idx, row, n);
      assert !InColumn(SlotsOf(def, idx, row)[n], rng[n]);
    }
  }

  /** So a refused lookup of right kinds would have answered nothing. */
  lemma {:induction false} RefusedAnswersNothing(def: TableDef, idx: Option<IndexDef>, rng: seq<ColRange>, db: Database,
                                                 rows: TableBuffer, n: int)
    requires IndexOf(def, idx) && Stuck(idx.Some?, KindsOf(def, idx), rng, n) && RightCuts(def, idx, rng)
    ensures Answers(def, idx, rng, db, rows, [])
  {
    hide Stuck, RightCuts, Matches, IndexOf;
    forall pk | Sees(def, db, rows, pk).Some? ensures !Matches(def, idx, rng, Sees(def, db, rows, pk).value) {
      StuckMatchesNone(def, idx, rng, n, Sees(def, db, rows, pk).value);
    }
  }

  /** Opens a forward lookup through the transaction's buffer. */
  method OpenLookup(keyspace: Keyspace, def: TableDef, idx: Option<IndexDef>, rows: TableBuffer, rng: seq<ColRange>,
                    ghost cat: Catalog, ghost db: Database)
    returns (r: Result<ScanIter>)
    requires Scannable(cat, def, idx) && Exact(cat, db, keyspace.entries) && GoodDb(cat, db) && GoodBuffer(def, rows)
    requires OwnKeys(def, rows)
    ensures r.Err? <==> !Supported(idx.Some?, KindsOf(def, idx), rng)
    ensures r.Err? ==> r.error == Invalid
    ensures r.Err? && RightCuts(def, idx, rng) ==> Answers(def, idx, rng, db, rows, [])
    ensures r.Ok? ==> fresh(r.value) && r.value.Valid() && r.value.keyspace == keyspace
    ensures r.Ok? && BufferCurrent(def, db, rows) ==>
              Answers(def, idx, rng, db, rows, Yields(idx.Some?, r.value.Left()))
  {
    hide Exact, GoodDb, GoodBuffer, OwnKeys, BufferCurrent, BoundsFor, Answers, Supported, Stuck, RightCuts,
         Merged, Lists, InRange,
         WellCatalogued, IndexOf, OverlayIs, KindsOf, Yields;
    var bounds := LookupBounds(def, idx, rng);
    if bounds.None? {
      ghost var n :| Stuck(idx.Some?, KindsOf(def, idx), rng, n);
      if RightCuts(def, idx, rng) {
        RefusedAnswersNothing(def, idx, rng, db, rows, n);
      }
      return Err(Invalid);
    }
    var (start, end) := bounds.value;
    InBounds(def, idx, rng, start, end);
    var ov, am := BuildOverlay(def, rows, idx, start, end);
    var it := new ScanIter(keyspace, start, end, idx.Some?, ov);
    if BufferCurrent(def, db, rows) {
      AllAnswered(cat, def, idx, db, rows, keyspace.entries, rng, start, end, ov, am, it.stream);
    }
    return Ok(it);
  }

  /** Opens the same lookup in reverse. */
  method OpenReverse(keyspace: Keyspace, def: TableDef, idx: Option<IndexDef>, rows: TableBuffer, rng: seq<ColRange>,
                     ghost cat: Catalog, ghost db: Database)
    returns (r: Result<ReverseIter>)
    requires Scannable(cat, def, idx) && Exact(cat, db, keyspace.entries) && GoodDb(cat, db) && GoodBuffer(def, rows)
    requires OwnKeys(def, rows)
    ensures r.Err? ==> (!Supported(idx.Some?, KindsOf(def, idx), rng) && r.error == Invalid) ||
                       (!keyspace.reliable && r.error == ErrorKind.Backend)
    ensures r.Err? && RightCuts(def, idx, rng) && keyspace.reliable ==> Answers(def, idx, rng, db, rows, [])
    ensures r.Ok? ==> Supported(idx.Some?, KindsOf(def, idx), rng) && fresh(r.value) && r.value.Valid()
    ensures r.Ok? && BufferCurrent(def, db, rows) ==> Answers(def, idx, rng, db, rows, r.value.Left())
  {
    hide Exact, GoodDb, GoodBuffer, OwnKeys, BufferCurrent, BoundsFor, Answers, Supported, Stuck, RightCuts,
         Merged, Lists, InRange,
         WellCatalogued, IndexOf, OverlayIs, KindsOf, Yields;
    var bounds := LookupBounds(def, idx, rng);
    if bounds.None? {
      ghost var n :| Stuck(idx.Some?, KindsOf(def, idx), rng, n);
      if RightCuts(def, idx, rng) {
        RefusedAnswersNothing(def, idx, rng, db, rows, n);
      }
      return Err(Invalid);
    }
    var (start, end) := bounds.value;
    InBounds(def, idx, rng, start, end);
    var ov, am := BuildOverlay(def, rows, idx, start, end);
    var it, stream := NewReverseScanIter(keyspace, start, end, idx.Some?, ov);
    if it.Ok? && BufferCurrent(def, db, rows) {
      AllAnswered(cat, def, idx, db, rows, keyspace.entries, rng, start, end, ov, am, stream);
    }
    return it;
  }

  lemma {:induction false} InBounds(def: TableDef, idx: Option<IndexDef>, rng: seq<ColRange>, start: ByteString,
                                    end: ByteString)
    requires IndexOf(def, idx) && BoundsFor(def, idx, rng, start, end)
    ensures InSpace(def, idx, start, end)
  {
    hide InSpace, IntervalMeans, Consumed, IndexOf;
  }
}

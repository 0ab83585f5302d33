/** Reopening the SQL store: a stale marker makes the derived keyspace be
    rebuilt from the leaves of the ledger.  */
module Reconciling {
  import opened Hashing
  import opened KeyCodec
  import opened Tables
  import opened RowCodec
  import opened Keyspaces
  import opened Derived
  import opened SqlStorage
  import opened RowsInLedger
  import opened PairTable
  import L = LedgerStore
  import R = Reading
  import S = Snapshots
  import T = Transactions
  import C = UniqueChecks
  import U = Updates
  import M = SparseMerkle
  import Runs
  import Restoration
  import Rec = Records

  /** A leaf value of the ledger: a tagged row, or something else. */
  datatype StoredValue = RowValue(table: Word, row: Row) | OtherValue

  /** A row of the catalogued tables that the ledger holds. */
  ghost predicate LeafIn(cat: Catalog, db: Database, table: Word, row: Row)
  {
    table in cat && RowFits(cat[table], row) && Lookup(db, RowRef(table, PkOf(cat[table], row))) == Some(row)
  }

  /** The exported leaves hold exactly the rows of the catalogued tables. */
  ghost predicate ExportOf(cat: Catalog, db: Database, leaves: seq<StoredValue>)
  {
    (forall i {:trigger leaves[i]} :: 0 <= i < |leaves| && leaves[i].RowValue? && leaves[i].table in cat ==>
      LeafIn(cat, db, leaves[i].table, leaves[i].row)) &&
    (forall ref {:trigger ref in db} :: ref in db ==> RowValue(ref.table, db[ref]) in leaves)
  }

  // --------------------------------------------------------- decoding leaves

  /** What a leaf's value stands for: a row of a catalogued table, something to skip,
      or an error. */
  ghost function LeafMeaning(cat: Catalog, value: Value): Result<StoredValue>
  {
    var table := TaggedTable(value);
    if table.None? || table.value !in cat then Ok(OtherValue)
    else
      var (kinds, data) := (cat[table.value].kinds, value.bytes[9..]);
      match Decoded(kinds, data, |kinds|)
      case Err(e) => Err(e)
      case Ok((row, off)) => if off == |data| then Ok(RowValue(table.value, row)) else Err(Corrupted)
  }

  method DecodeLeaf(cat: Catalog, value: Value) returns (r: Result<StoredValue>)
    ensures r == LeafMeaning(cat, value)
  {
    hide Decoded, FromBigEndian;
    var table := TaggedTable(value);
    if table.None? || table.value !in cat {
      return Ok(OtherValue);
    }
    var row := DecodeRow(cat[table.value].kinds, value.bytes[9..]);
    return if row.Ok? then Ok(RowValue(table.value, row.value)) else Err(row.error);
  }

  /** And what is taken for a row was written as one: its bytes are the row's, unless a
      length is spelled with needless bytes. */
  lemma {:induction false} LeafMeansPayload(cat: Catalog, value: Value, ref: RowRef, row: Row)
    requires LeafMeaning(cat, value) == Ok(RowValue(ref.table, row))
    ensures ref.table in cat && Fits(row, cat[ref.table].kinds) && Storable(row) && value.Bytes?
    ensures Payload(ref, row).Bytes? && |Payload(ref, row).bytes| <= |value.bytes|
    ensures value == Payload(ref, row) <==> |Payload(ref, row).bytes| == |value.bytes|
  {
    hide EncodedRow, Decoded, BigEndian, FromBigEndian;
    var kinds, data := cat[ref.table].kinds, value.bytes[9..];
    DecodedIsEncoded(kinds, data, |kinds|);
    assert kinds[..|kinds|] == kinds && data[..|data|] == data;
    SpelledBack(value.bytes[1..9]);
    assert value.bytes == [TAG_ROW] + BigEndian(ref.table, 8) + data;
  }

  lemma {:induction false} RowDecodes(cat: Catalog, ref: RowRef, row: Row)
    requires T.Storing(cat, ref, row)
    ensures LeafMeaning(cat, Payload(ref, row)) == Ok(RowValue(ref.table, row))
  {
    hide EncodedRow, Decoded, Payload, TaggedTable, PkOf;
    PayloadParts(ref, row);
    RowRoundTrip(cat[ref.table].kinds, row);
  }

  /** In contents that mirror the rows every leaf decodes, and to a committed row if to
      a row at all. */
  lemma {:induction false} LeafDecodes(cat: Catalog, m: M.LeafMap, pathOf: string -> FullPath, db: Database, p: Path)
    requires Rec.Committed(m) && Mirrors(cat, m, pathOf, db) && T.GoodRows(cat, db) && p in m
    ensures var r := LeafMeaning(cat, S.Plaintext(m[p]));
            r.Ok? && (r.value.RowValue? ==> exists ref :: ref in db && r.value == RowValue(ref.table, db[ref]))
  {
    hide Payload, LedgerKey, HoldsRows, Decoded, TaggedTable, T.Storing;
    var value := S.Plaintext(m[p]);
    assert R.ValueIn(m, p) == Some(value);
    if OfTable(cat, Some(value)) {
      var ref :| StoresRow(m, pathOf, db, p, ref);
      assert T.Storing(cat, ref, db[ref]);
      RowDecodes(cat, ref, db[ref]);
    }
  }

  /** The leaves decode, one by one, to the stored values. */
  ghost predicate Decodes(cat: Catalog, listing: seq<L.Leaf>, leaves: seq<StoredValue>)
  {
    |leaves| == |listing| && forall i {:trigger leaves[i]} {:trigger listing[i]} :: 0 <= i < |listing| ==>
      LeafMeaning(cat, listing[i].item) == Ok(leaves[i])
  }

  /** Decoding the full listing of such contents gives exactly the committed rows. */
  lemma {:induction false} ListingExports(cat: Catalog, m: M.LeafMap, pathOf: string -> FullPath, db: Database,
                                          listing: seq<L.Leaf>)
    returns (leaves: seq<StoredValue>)
    requires Rec.Committed(m) && Mirrors(cat, m, pathOf, db) && T.GoodRows(cat, db)
    requires U.Lists(listing, S.AfterMap(m, None))
    ensures Decodes(cat, listing, leaves) && ExportOf(cat, db, leaves)
  {
    hide LeafMeaning, Mirrors, Payload, LedgerKey, T.Storing, U.Lists;
    forall i | 0 <= i < |listing|
      ensures listing[i].path in m && listing[i].item == S.Plaintext(m[listing[i].path])
      ensures LeafMeaning(cat, listing[i].item).Ok?
    {
      ListedLeaf(m, listing, i);
      LeafDecodes(cat, m, pathOf, db, listing[i].path);
    }
    leaves := seq(|listing|, i requires 0 <= i < |listing| => LeafMeaning(cat, listing[i].item).value);
    forall i | 0 <= i < |leaves| && leaves[i].RowValue? && leaves[i].table in cat
      ensures LeafIn(cat, db, leaves[i].table, leaves[i].row)
    {
      LeafDecodes(cat, m, pathOf, db, listing[i].path);
      var ref :| ref in db && leaves[i] == RowValue(ref.table, db[ref]);
      RowIsIn(cat, db, ref);
    }
    forall ref | ref in db ensures RowValue(ref.table, db[ref]) in leaves {
      var i := RowListed(cat, m, pathOf, db, listing, ref);
      assert leaves[i] == RowValue(ref.table, db[ref]);
    }
  }

  lemma {:induction false} ListedLeaf(m: M.LeafMap, listing: seq<L.Leaf>, i: nat)
    requires U.Lists(listing, S.AfterMap(m, None)) && i < |listing|
    ensures listing[i].path in m && listing[i].item == S.Plaintext(m[listing[i].path])
  {
    assert listing[i].path in S.AfterMap(m, None);
  }

  lemma {:induction false} RowIsIn(cat: Catalog, db: Database, ref: RowRef)
    requires T.GoodRows(cat, db) && ref in db
    ensures ref.table in cat ==> LeafIn(cat, db, ref.table, db[ref])
  {
    hide RowFits, PkOf;
    assert T.Storing(cat, ref, db[ref]);
  }

  lemma {:induction false} RowListed(cat: Catalog, m: M.LeafMap, pathOf: string -> FullPath, db: Database,
                                     listing: seq<L.Leaf>, ref: RowRef)
    returns (i: nat)
    requires Rec.Committed(m) && Mirrors(cat, m, pathOf, db) && T.GoodRows(cat, db)
    requires U.Lists(listing, S.AfterMap(m, None)) && ref in db
    ensures i < |listing| && LeafMeaning(cat, listing[i].item) == Ok(RowValue(ref.table, db[ref]))
  {
    hide LeafMeaning, Payload, LedgerKey, T.Storing, OnlyRows;
    var p := pathOf(LedgerKey(ref));
    assert R.ValueIn(m, p) == StoredAs(db, ref);
    assert p in S.AfterMap(m, None) && S.AfterMap(m, None)[p] == Payload(ref, db[ref]);
    i :| 0 <= i < |listing| && listing[i].path == p;
    assert T.Storing(cat, ref, db[ref]);
    RowDecodes(cat, ref, db[ref]);
  }

  // ------------------------------------------------------- rebuilding the space

  /** The leaf is a catalogued row with an entry at k. */
  ghost predicate OwnsAt(cat: Catalog, v: StoredValue, k: ByteString)
  {
    v.RowValue? && v.table in cat && RowFits(cat[v.table], v.row) &&
    Owns(cat, RowRef(v.table, PkOf(cat[v.table], v.row)), v.row, k)
  }

  /** Some of the first n leaves owns k. */
  ghost predicate LeafOwns(cat: Catalog, leaves: seq<StoredValue>, n: nat, k: ByteString)
    requires n <= |leaves|
  {
    exists i {:trigger leaves[i]} :: 0 <= i < n && OwnsAt(cat, leaves[i], k)
  }

  /** m' is m with the entries of the first n leaves written over it. */
  ghost predicate RebuiltTo(cat: Catalog, db: Database, leaves: seq<StoredValue>, n: nat, m: KeySpace, m': KeySpace)
    requires n <= |leaves|
  {
    forall k {:trigger Lookup(m', k)} ::
      Lookup(m', k) == if LeafOwns(cat, leaves, n, k) then Expected(cat, db, k) else Lookup(m, k)
  }

  lemma {:induction false} RebuildStep(cat: Catalog, db: Database, leaves: seq<StoredValue>, n: nat, m: KeySpace,
                                       m1: KeySpace, m2: KeySpace)
    requires WellCatalogued(cat) && ExportOf(cat, db, leaves) && n < |leaves| && RebuiltTo(cat, db, leaves, n, m, m1)
    requires leaves[n].RowValue? && leaves[n].table in cat && RowFits(cat[leaves[n].table], leaves[n].row)
    requires var def := cat[leaves[n].table];
             m2 == Run(m1, ScanOpsOf(def, PkOf(def, leaves[n].row), Pending(None, Some(leaves[n].row))))
    ensures RebuiltTo(cat, db, leaves, n + 1, m, m2)
  {
    hide Owns, Expected, ScanOpsOf, Run, PkOf, ValueOf, WellCatalogued, NoNulls;
    var leaf := leaves[n];
    var ref, p := RowRef(leaf.table, PkOf(cat[leaf.table], leaf.row)), Pending(None, Some(leaf.row));
    forall k ensures Lookup(m2, k) == if LeafOwns(cat, leaves, n + 1, k) then Expected(cat, db, k) else Lookup(m, k) {
      ScanOpsEffect(cat, ref, p, m1, k);
      assert LeafIn(cat, db, leaf.table, leaf.row);
      assert Lookup(m1, k) == if LeafOwns(cat, leaves, n, k) then Expected(cat, db, k) else Lookup(m, k);
      if Owns(cat, ref, leaf.row, k) {
        ExpectedOwner(cat, db, ref, k);
        assert LeafOwns(cat, leaves, n + 1, k);
      } else {
        NotThisLeaf(cat, leaves, n, k);
      }
    }
  }

  lemma {:induction false} NotThisLeaf(cat: Catalog, leaves: seq<StoredValue>, n: nat, k: ByteString)
    requires n < |leaves|
    requires !OwnsAt(cat, leaves[n], k)
    ensures LeafOwns(cat, leaves, n + 1, k) <==> LeafOwns(cat, leaves, n, k)
  {
    hide OwnsAt;
  }

  lemma {:induction false} SkipStep(cat: Catalog, db: Database, leaves: seq<StoredValue>, n: nat, m: KeySpace,
                                    m1: KeySpace)
    requires n < |leaves| && RebuiltTo(cat, db, leaves, n, m, m1) && !(leaves[n].RowValue? && leaves[n].table in cat)
    ensures RebuiltTo(cat, db, leaves, n + 1, m, m1)
  {
    hide Owns, Expected, RowFits, PkOf, LeafOwns;
    forall k ensures Lookup(m1, k) == if LeafOwns(cat, leaves, n + 1, k) then Expected(cat, db, k) else Lookup(m, k) {
      NotThisLeaf(cat, leaves, n, k);
    }
  }

  /** Every entry on the way is an old one or a required one, and the marker is old. */
  ghost predicate Halfway(cat: Catalog, db: Database, m: KeySpace, m': KeySpace)
  {
    forall k {:trigger Lookup(m', k)} ::
      Lookup(m', k) == Lookup(m, k) || (IsDerived(k) && Lookup(m', k) == Expected(cat, db, k))
  }

  lemma {:induction false} RebuiltIsHalfway(cat: Catalog, db: Database, leaves: seq<StoredValue>, n: nat, m: KeySpace,
                                            m': KeySpace)
    requires n <= |leaves| && RebuiltTo(cat, db, leaves, n, m, m')
    ensures Halfway(cat, db, m, m')
  {
    hide OwnsAt, Expected, IsDerived;
    forall k ensures Lookup(m', k) == Lookup(m, k) || (IsDerived(k) && Lookup(m', k) == Expected(cat, db, k)) {
      if i :| 0 <= i < n && OwnsAt(cat, leaves[i], k) {
        OwnedAtIsDerived(cat, leaves[i], k);
      }
    }
  }

  lemma {:induction false} OwnedAtIsDerived(cat: Catalog, v: StoredValue, k: ByteString)
    requires OwnsAt(cat, v, k)
    ensures IsDerived(k)
  {
    hide Owns, IsDerived;
    OwnedIsDerived(cat, RowRef(v.table, PkOf(cat[v.table], v.row)), v.row, k);
  }

  /** All required entries are in place; other index entries are as before. */
  ghost predicate Rebuilt(cat: Catalog, db: Database, m: KeySpace, m': KeySpace)
  {
    forall k {:trigger Lookup(m', k)} :: IsDerived(k) ==>
      Lookup(m', k) == if Expected(cat, db, k).Some? then Expected(cat, db, k) else Lookup(m, k)
  }

  lemma {:induction false} AllLeavesRebuilt(cat: Catalog, db: Database, leaves: seq<StoredValue>, m: KeySpace,
                                            m1: KeySpace, version: nat)
    requires WellCatalogued(cat) && GoodDb(cat, db) && ExportOf(cat, db, leaves)
    requires RebuiltTo(cat, db, leaves, |leaves|, m, m1)
    ensures Rebuilt(cat, db, m, Run(m1, [Marker(version)]))
  {
    hide Owns, Expected, PkOf, RebuiltTo, LeafOwns, Run, ExportOf, RowFits, WellCatalogued;
    var m2 := Run(m1, [Marker(version)]);
    forall k | IsDerived(k)
      ensures Lookup(m2, k) == if Expected(cat, db, k).Some? then Expected(cat, db, k) else Lookup(m, k)
    {
      OneOp(m1, Marker(version), k);
      RebuiltAt(cat, db, leaves, m, m1, k);
      LeavesOwnRequired(cat, db, leaves, k);
    }
  }

  lemma {:induction false} RebuiltAt(cat: Catalog, db: Database, leaves: seq<StoredValue>, m: KeySpace, m1: KeySpace,
                                     k: ByteString)
    requires RebuiltTo(cat, db, leaves, |leaves|, m, m1)
    ensures Lookup(m1, k) == if LeafOwns(cat, leaves, |leaves|, k) then Expected(cat, db, k) else Lookup(m, k)
  {
    hide Owns, Expected, LeafOwns;
  }

  lemma {:induction false} LeavesOwnRequired(cat: Catalog, db: Database, leaves: seq<StoredValue>, k: ByteString)
    requires WellCatalogued(cat) && GoodDb(cat, db) && ExportOf(cat, db, leaves)
    ensures LeafOwns(cat, leaves, |leaves|, k) <==> Expected(cat, db, k).Some?
  {
    hide Owns, PkOf, WellCatalogued, NoNulls;
    if i :| 0 <= i < |leaves| && OwnsAt(cat, leaves[i], k) {
      assert LeafIn(cat, db, leaves[i].table, leaves[i].row);
      ExpectedOwner(cat, db, RowRef(leaves[i].table, PkOf(cat[leaves[i].table], leaves[i].row)), k);
    }
    if ref :| ref in db && Owns(cat, ref, db[ref], k) {
      assert GoodRow(cat, ref, db[ref]);
      var i :| 0 <= i < |leaves| && leaves[i] == RowValue(ref.table, db[ref]);
      assert OwnsAt(cat, leaves[i], k);
    }
  }

  lemma {:induction false} NothingRebuilt(cat: Catalog, db: Database, leaves: seq<StoredValue>, m: KeySpace)
    ensures RebuiltTo(cat, db, leaves, 0, m, m) && Halfway(cat, db, m, m)
  {
    hide Owns, Expected;
  }

  /** The entries of one exported row. */
  method LeafOps(cat: Catalog, leaf: StoredValue, ghost db: Database) returns (ops: seq<ScanOp>)
    requires WellCatalogued(cat) && leaf.RowValue? && LeafIn(cat, db, leaf.table, leaf.row)
    ensures var def := cat[leaf.table]; ops == ScanOpsOf(def, PkOf(def, leaf.row), Pending(None, Some(leaf.row)))
  {
    hide EncodeSlots, IndexOpsOf, ScanKey;
    var def, row := cat[leaf.table], leaf.row;
    ProjectFits(def.kinds, row, def.pkOrds);
    var pk := EncodePK(def, row);
    var added := IndexOps(def, row, pk.value, false);
    assert def.id == leaf.table;
    assert [Set(ScanKey(def.id, pk.value), [])] + [] == [Set(ScanKey(def.id, pk.value), [])];
    ops := [Set(ScanKey(def.id, pk.value), [])] + added.value;
  }

  /** After a rebuild over a cleared scan space, the scan space is exact, every
      required index entry is there, and other index entries are as they were. */
  lemma {:induction false} RebuiltCovers(cat: Catalog, db: Database, m0: KeySpace, m1: KeySpace, m2: KeySpace)
    requires PartlyCleared(m0, m1) && ScanSpaceEmpty(m1) && Rebuilt(cat, db, m1, m2)
    ensures Reconciled(cat, db, m0, m2)
  {
    hide Expected;
    forall k | |k| > 0 && k[0] == SECONDARY_PREFIX
      ensures Lookup(m2, k) == if Expected(cat, db, k).Some? then Expected(cat, db, k) else Lookup(m0, k)
    {
      assert Lookup(m1, k) == Lookup(m0, k);
    }
  }

  /** What reconciling makes of a keyspace m: the scan space is exact, every required
      index entry is there, and other index entries are as they were. */
  ghost predicate Reconciled(cat: Catalog, db: Database, m: KeySpace, m': KeySpace)
  {
    Covers(cat, db, m') &&
    forall k {:trigger Lookup(m', k)} :: |k| > 0 && k[0] == SECONDARY_PREFIX ==>
      Lookup(m', k) == if Expected(cat, db, k).Some? then Expected(cat, db, k) else Lookup(m, k)
  }

  /** After a crash between the two writes, reconciling leaves the keyspace exact if
      and only if no index entry of the old database lost its row or its value;
      otherwise the index keeps entries nothing requires. */
  lemma {:induction false} CrashReconcileExactIff(cat: Catalog, before: Database, db: Database, m: KeySpace,
                                                  m': KeySpace)
    requires Exact(cat, before, m) && Reconciled(cat, db, m, m')
    ensures Exact(cat, db, m') <==>
            forall k {:trigger Expected(cat, before, k)} ::
              |k| > 0 && k[0] == SECONDARY_PREFIX && Expected(cat, before, k).Some? ==> Expected(cat, db, k).Some?
  {
    hide Expected;
    forall k | |k| > 0 && k[0] == SECONDARY_PREFIX
      ensures Lookup(m', k) == if Expected(cat, db, k).Some? then Expected(cat, db, k) else Expected(cat, before, k)
    {
      assert Lookup(m', k) == if Expected(cat, db, k).Some? then Expected(cat, db, k) else Lookup(m, k);
      assert Lookup(m, k) == Expected(cat, before, k);
    }
    if Exact(cat, db, m') {
      forall k | |k| > 0 && k[0] == SECONDARY_PREFIX && Expected(cat, before, k).Some?
        ensures Expected(cat, db, k).Some?
      {
        assert Lookup(m', k) == Expected(cat, db, k);
      }
    }
  }

  /** It does fail: the only row (1,5) is deleted, the store crashes before the derived
      write, and reconciling leaves the row's index entry behind. */
  lemma {:induction false} StaleEntryStays(m: KeySpace, m': KeySpace)
    requires Exact(PAIR_CATALOG, map[PairRef(1) := PairRow(1, Some(5))], m) && Reconciled(PAIR_CATALOG, map[], m, m')
    ensures var k := IndexKey(PAIR_DEF.indexes[0], PairRow(1, Some(5)), PairRef(1).pk);
            Lookup(m', k) == Some(PairRef(1).pk) && Expected(PAIR_CATALOG, map[], k) == None
    ensures !Exact(PAIR_CATALOG, map[], m')
  {
    hide EncodeSlots, BigEndian, WellCatalogued;
    var before, row, ref := map[PairRef(1) := PairRow(1, Some(5))], PairRow(1, Some(5)), PairRef(1);
    PairCatalogGood();
    PairStored(1, Some(5));
    var k := IndexKey(PAIR_DEF.indexes[0], row, ref.pk);
    KeyTags(PAIRS, ref.pk, PAIR_DEF.indexes[0], row);
    assert IndexEntry(PAIR_CATALOG[PAIRS], 0, row, ref.pk, k);
    assert Owns(PAIR_CATALOG, ref, before[ref], k);
    ExpectedOwner(PAIR_CATALOG, before, ref, k);
    assert Lookup(m, k) == Expected(PAIR_CATALOG, before, k);
    assert Lookup(m', k) == if Expected(PAIR_CATALOG, map[], k).Some? then Expected(PAIR_CATALOG, map[], k)
                            else Lookup(m, k);
  }

  /** What is left behind are entries of past rows, so every required entry is there and
      all others still spell out the value and the primary key they were made from. */
  lemma {:induction false} ReconciledTraceable(cat: Catalog, db: Database, m: KeySpace, m': KeySpace)
    requires Traceable(cat, m) && Reconciled(cat, db, m, m')
    ensures Covers(cat, db, m') && Traceable(cat, m')
  {
    hide Expected, Traced, Covers;
    forall k | k in m' && |k| > 0 && k[0] == SECONDARY_PREFIX ensures Traced(cat, k, m'[k]) {
      assert Lookup(m', k) == Some(m'[k]);
      if Expected(cat, db, k).Some? {
        ExpectedTraced(cat, db, k);
      } else {
        assert Lookup(m, k) == Some(m[k]) && m[k] == m'[k];
      }
    }
  }

  /** A conflict may then be false: with the entry of (1,5) left behind, a statement that
      writes (2,5) is refused although no row holds 5. */
  lemma {:induction false} StaleEntryRefuses(m: KeySpace, m': KeySpace)
    requires Exact(PAIR_CATALOG, map[PairRef(1) := PairRow(1, Some(5))], m) && Reconciled(PAIR_CATALOG, map[], m, m')
    ensures var ref, row := PairRef(2), PairRow(2, Some(5));
            var buf := map[ref := Pending(None, Some(row))];
            Covers(PAIR_CATALOG, map[], m') && Traceable(PAIR_CATALOG, m') &&
            C.TableUniqueFree(PAIR_CATALOG, map[], buf, ref, row) &&
            !C.TableEntryFree(PAIR_CATALOG, m', buf, ref, row)
  {
    hide EncodeSlots, BigEndian, WellCatalogued, Exact, Reconciled, Traceable, Covers, ScanKey;
    var ref, row := PairRef(2), PairRow(2, Some(5));
    var buf := map[ref := Pending(None, Some(row))];
    ExactTraceable(PAIR_CATALOG, map[PairRef(1) := PairRow(1, Some(5))], m);
    ReconciledTraceable(PAIR_CATALOG, map[], m, m');
    StaleEntryStays(m, m');
    PairRefsDiffer(1, 2);
    PairStored(1, Some(5));
    PairStored(2, Some(5));
    var key := C.KeyOf(PAIR_CATALOG, PAIRS, 0);
    assert PAIR_CATALOG[PAIRS].indexes[0] == PAIR_DEF.indexes[0] && |PAIR_DEF.indexes| == 1;
    var v := EncodeSlots(true, [Some(IntCell(5))]);
    assert Columns(PAIR_DEF.indexes[0], row) == [Some(IntCell(5))] == Columns(PAIR_DEF.indexes[0], PairRow(1, Some(5)));
    assert key(ref, row) == Some(v);
    var k := IndexKey(PAIR_DEF.indexes[0], PairRow(1, Some(5)), PairRef(1).pk);
    assert C.ValueStart(PAIR_CATALOG, PAIRS, 0, v) <= k && m'[k] != ref.pk;
    assert !C.EntryFree(PAIR_CATALOG, m', buf, PAIRS, 0, ref, row);
  }

  // ----------------------------------------------------------- reconciling

  /** The keyspace with the pending operations is rebuilt up to leaf n. */
  ghost predicate Progress(cat: Catalog, db: Database, leaves: seq<StoredValue>, n: nat, m0: KeySpace, m: KeySpace,
                           ops: seq<ScanOp>)
    requires n <= |leaves|
  {
    RebuiltTo(cat, db, leaves, n, m0, Run(m, ops)) && Halfway(cat, db, m0, m)
  }

  lemma {:induction false} NoProgress(cat: Catalog, db: Database, leaves: seq<StoredValue>, m: KeySpace)
    ensures Progress(cat, db, leaves, 0, m, m, [])
  {
    hide RebuiltTo, Halfway;
    RunNothing(m);
    NothingRebuilt(cat, db, leaves, m);
  }

  lemma {:induction false} Flushed(cat: Catalog, db: Database, leaves: seq<StoredValue>, n: nat, m0: KeySpace,
                                   m: KeySpace, ops: seq<ScanOp>)
    requires n <= |leaves| && Progress(cat, db, leaves, n, m0, m, ops)
    ensures Progress(cat, db, leaves, n, m0, Run(m, ops), [])
  {
    hide RebuiltTo, Halfway, Run;
    RunNothing(Run(m, ops));
    RebuiltIsHalfway(cat, db, leaves, n, m0, Run(m, ops));
  }

  lemma {:induction false} OneLeaf(cat: Catalog, db: Database, leaves: seq<StoredValue>, n: nat, m0: KeySpace,
                                   m: KeySpace, ops: seq<ScanOp>, added: seq<ScanOp>)
    requires WellCatalogued(cat) && ExportOf(cat, db, leaves) && n < |leaves|
    requires Progress(cat, db, leaves, n, m0, m, ops)
    requires if leaves[n].RowValue? && leaves[n].table in cat
             then RowFits(cat[leaves[n].table], leaves[n].row) &&
                  var def := cat[leaves[n].table];
                  added == ScanOpsOf(def, PkOf(def, leaves[n].row), Pending(None, Some(leaves[n].row)))
             else added == []
    ensures Progress(cat, db, leaves, n + 1, m0, m, ops + added)
  {
    hide RebuiltTo, Halfway, Run, ScanOpsOf, RowFits, PkOf, ExportOf, WellCatalogued;
    if leaves[n].RowValue? && leaves[n].table in cat {
      RunConcat(m, ops, added);
      RebuildStep(cat, db, leaves, n, m0, Run(m, ops), Run(m, ops + added));
    } else {
      assert ops + added == ops;
      SkipStep(cat, db, leaves, n, m0, Run(m, ops));
    }
  }

  /** Adds the entries of one chunk of leaves, flushing full buffers. */
  method RebuildChunk(keyspace: Keyspace, cat: Catalog, chunk: seq<L.Leaf>, ops0: seq<ScanOp>, ghost db: Database,
                      ghost leaves: seq<StoredValue>,
                      ghost n0: nat, ghost m0: KeySpace)
    returns (ok: bool, ops: seq<ScanOp>)
    requires WellCatalogued(cat) && ExportOf(cat, db, leaves) && n0 + |chunk| <= |leaves|
    requires Decodes(cat, chunk, leaves[n0..n0 + |chunk|])
    requires Progress(cat, db, leaves, n0, m0, keyspace.entries, ops0)
    modifies keyspace
    ensures !ok ==> !keyspace.reliable && Halfway(cat, db, m0, keyspace.entries)
    ensures ok ==> Progress(cat, db, leaves, n0 + |chunk|, m0, keyspace.entries, ops)
  {
    hide RebuiltTo, Halfway, Run, ScanOpsOf, RowFits, PkOf, ExportOf, WellCatalogued, LeafMeaning;
    ops := ops0;
    for i := 0 to |chunk|
      invariant Progress(cat, db, leaves, n0 + i, m0, keyspace.entries, ops)
    {
      var value := DecodeLeaf(cat, chunk[i].item);
      assert leaves[n0..n0 + |chunk|][i] == leaves[n0 + i];
      var added: seq<ScanOp> := [];
      if value.value.RowValue? && value.value.table in cat {
        ExportedAt(cat, db, leaves, n0 + i);
        added := LeafOps(cat, value.value, db);
      }
      OneLeaf(cat, db, leaves, n0 + i, m0, keyspace.entries, ops, added);
      ops := ops + added;
      if |ops| >= SCAN_CHUNK {
        Flushed(cat, db, leaves, n0 + i + 1, m0, keyspace.entries, ops);
        ok := keyspace.WriteBatch(ops);
        if !ok {
          return false, ops;
        }
        ops := [];
      }
    }
    return true, ops;
  }

  lemma {:induction false} ExportedAt(cat: Catalog, db: Database, leaves: seq<StoredValue>, n: nat)
    requires ExportOf(cat, db, leaves) && n < |leaves| && leaves[n].RowValue? && leaves[n].table in cat
    ensures LeafIn(cat, db, leaves[n].table, leaves[n].row)
  {
    hide LeafIn;
  }

  /** The full listing of the current contents, and what it decodes to. */
  lemma {:induction false} CurrentListing(led: L.Store, cat: Catalog, db: Database) returns (listing: seq<L.Leaf>,
                                          leaves: seq<StoredValue>)
    requires Backs(led, cat, db)
    ensures U.Lists(listing, S.AfterMap(led.versions[led.version].leaves, None)) && Decodes(cat, listing, leaves)
    ensures ExportOf(cat, db, leaves)
  {
    hide Mirrors, U.Lists, S.AfterMap, Decodes, ExportOf, T.GoodRows, Runs.Inv;
    L.CurrentFacts(led.State());
    HorizonReached(led.State());
    listing := Restoration.Listing(led.State(), led.version);
    leaves := ListingExports(cat, led.versions[led.version].leaves, led.pathOf, db, listing);
  }

  /** Re-derives every entry from the ledger's leaves, read chunk by chunk, and marks
      the keyspace for the ledger's version. */
  method Rebuild(keyspace: Keyspace, cat: Catalog, led: L.Store, ghost db: Database) returns (ok: bool)
    requires WellCatalogued(cat) && Backs(led, cat, db)
    modifies keyspace
    ensures !ok ==>
              (!keyspace.reliable || !led.backend.reliable) && Halfway(cat, db, old(keyspace.entries), keyspace.entries)
    ensures ok ==> Rebuilt(cat, db, old(keyspace.entries), keyspace.entries)
    ensures ok ==> Lookup(keyspace.entries, [META_KEY]) == Some(BigEndian(led.version, 8))
  {
    hide U.Lists, S.AfterMap, S.Chunk, ExportOf, Mirrors, T.GoodRows, RebuiltTo, Halfway, Rebuilt, Run, WellCatalogued,
         LeafMeaning, BigEndian, Runs.Inv;
    ghost var m0 := keyspace.entries;
    ghost var listing, leaves := CurrentListing(led, cat, db);
    ghost var m, rest := led.versions[led.version].leaves, listing;
    var ops: seq<ScanOp> := [];
    var startAfter: Option<FullPath> := None;
    NoProgress(cat, db, leaves, m0);
    HorizonReached(led.State());
    RowsFit(cat, db);
    var done := false;
    while !done
      invariant |rest| <= |listing| && rest == listing[|listing| - |rest|..] &&
                (!done ==> U.Lists(rest, S.AfterMap(m, startAfter)))
      invariant Progress(cat, db, leaves, |listing| - |rest|, m0, keyspace.entries, ops)
      invariant done ==> rest == []
      decreases |rest|, !done
    {
      var r := S.SnapshotLeaves(led, led.version, startAfter, SCAN_CHUNK);
      if r.Err? {
        return false;
      }
      var chunk := r.value.0;
      S.DoneIffNoneLeft(m, startAfter, SCAN_CHUNK, chunk, r.value.1, rest);
      ghost var n := |listing| - |rest|;
      PartDecodes(cat, listing, leaves, n, chunk);
      var ok1;
      ok1, ops := RebuildChunk(keyspace, cat, chunk, ops, db, leaves, n, m0);
      if !ok1 {
        return false;
      }
      done := r.value.1;
      if !done {
        S.ResumeContinues(m, startAfter, rest, |chunk|);
        startAfter := Some(chunk[|chunk| - 1].path);
      }
      rest := rest[|chunk|..];
    }
    ghost var eff := Run(keyspace.entries, ops);
    RunConcat(keyspace.entries, ops, [Marker(led.version)]);
    AllLeavesRebuilt(cat, db, leaves, m0, eff, led.version);
    OneOp(eff, Marker(led.version), [META_KEY]);
    ok := keyspace.WriteBatch(ops + [Marker(led.version)]);
  }

  lemma {:induction false} HorizonReached(s: Runs.Ledger)
    requires Runs.Inv(s)
    ensures s.horizon <= Runs.Version(s)
  {
    hide Runs.Readable, Runs.WellFormed, Runs.Evolves;
  }

  lemma {:induction false} RowsFit(cat: Catalog, db: Database)
    requires T.GoodRows(cat, db)
    ensures GoodDb(cat, db)
  {
    hide RowFits, PkOf;
    forall ref | ref in db ensures GoodRow(cat, ref, db[ref]) {
      assert T.Storing(cat, ref, db[ref]);
    }
  }

  lemma {:induction false} PartDecodes(cat: Catalog, listing: seq<L.Leaf>, leaves: seq<StoredValue>, n: nat,
                                       chunk: seq<L.Leaf>)
    requires Decodes(cat, listing, leaves) && n <= |listing| && chunk <= listing[n..]
    ensures n + |chunk| <= |leaves| && Decodes(cat, chunk, leaves[n..n + |chunk|])
  {
    hide LeafMeaning;
    forall i | 0 <= i < |chunk| ensures LeafMeaning(cat, chunk[i].item) == Ok(leaves[n..n + |chunk|][i]) {
      assert chunk[i] == listing[n..][i] == listing[n + i];
    }
  }

  /** Rebuilds the derived keyspace from the ledger when its marker disagrees. */
  method ReconcileScanSpace(store: SqlStore, led: L.Store) returns (r: Reply)
    requires store.Valid() && Backs(led, store.cat, store.rows) && led.version == store.version
    modifies store.keyspace
    ensures AppliedVersion(old(store.keyspace.entries)) == store.version ==>
              r == Done && store.keyspace.entries == old(store.keyspace.entries)
    ensures r != Done ==> r == Failed(DerivedFailed) && (!store.keyspace.reliable || !led.backend.reliable) &&
                          AppliedVersion(store.keyspace.entries) == AppliedVersion(old(store.keyspace.entries))
    ensures r == Done ==> AppliedVersion(store.keyspace.entries) == store.version
    ensures r == Done && AppliedVersion(old(store.keyspace.entries)) != store.version ==>
              Reconciled(store.cat, store.rows, old(store.keyspace.entries), store.keyspace.entries)
  {
    hide PartlyCleared, Halfway, Rebuilt, ScanSpaceEmpty, Reconciled, BigEndian, AppliedVersion, WellCatalogued, GoodDb,
         Backs;
    var cat, keyspace := store.cat, store.keyspace;
    if AppliedVersion(keyspace.entries) == store.version {
      return Done;
    }
    ghost var m0 := keyspace.entries;
    var cleared := ClearScanSpace(keyspace);
    ghost var m1 := keyspace.entries;
    if !cleared {
      NothingRebuilt(cat, store.rows, [], m1);
      MarkerKept(cat, store.rows, m0, m1, m1);
      return Failed(DerivedFailed);
    }
    var rebuilt := Rebuild(keyspace, cat, led, store.rows);
    if !rebuilt {
      MarkerKept(cat, store.rows, m0, m1, keyspace.entries);
      return Failed(DerivedFailed);
    }
    MarkerReads(keyspace.entries, store.version);
    RebuiltCovers(cat, store.rows, m0, m1, keyspace.entries);
    return Done;
  }

  lemma {:induction false} MarkerKept(cat: Catalog, db: Database, m0: KeySpace, m1: KeySpace, m2: KeySpace)
    requires PartlyCleared(m0, m1) && Halfway(cat, db, m1, m2)
    ensures AppliedVersion(m2) == AppliedVersion(m0)
  {
    hide Expected, FromBigEndian;
    assert !IsDerived([META_KEY]);
    assert Lookup(m2, [META_KEY]) == Lookup(m1, [META_KEY]) == Lookup(m0, [META_KEY]);
  }
}

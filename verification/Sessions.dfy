/** Sessions: statement editors, savepoints and the commit of a write-set.  */
module Sessions {
  import opened Hashing
  import opened KeyCodec
  import opened Tables
  import opened RowCodec
  import opened Keyspaces
  import opened Derived
  import opened SqlStorage
  import opened Transactions
  import opened UniqueChecks

  // ------------------------------------------------------------ committing

  /** The store is in order, whatever its derived keyspace holds. */
  ghost predicate Usable(store: SqlStore)
    reads store
  {
    store.Valid() && GoodRows(store.cat, store.rows)
  }

  /** And its derived keyspace has every required entry, as after a reconcile. */
  ghost predicate Covered(store: SqlStore)
    reads store, store.keyspace
  {
    Usable(store) && Tracked(store)
  }

  /** The write-set's rows can be stored, as far as their tables still exist. */
  ghost predicate StorableSet(cat: Catalog, buf: Buffer)
  {
    forall ref {:trigger buf[ref]} :: ref in buf && ref.table in cat ==> GoodPair(cat, ref, buf[ref])
  }

  /** The row the transaction sees under ref. */
  method ReadRowTxn(store: SqlStore, txn: Buffer, ref: RowRef) returns (r: Result<Row>)
    requires Usable(store) && ref.table in store.cat
    ensures r.Ok? ==> Visible(store.rows, txn, map[], ref) == Some(r.value)
    ensures r.Err? ==>
              (Visible(store.rows, txn, map[], ref).None? && r.error == if ref in txn then Invalid else Missing) ||
              (!store.ledgerReliable && r.error == ErrorKind.Backend)
  {
    hide EncodedRow, Exact, WellCatalogued, GoodDb, Decoded;
    if ref in txn {
      return if txn[ref].next.None? then Err(Invalid) else Ok(txn[ref].next.value);
    }
    var fails: bool := *;
    if !store.ledgerReliable && fails {
      return Err(ErrorKind.Backend);
    }
    if ref !in store.rows {
      return Err(Missing);
    }
    assert Storing(store.cat, ref, store.rows[ref]);
    var kinds := store.cat[ref.table].kinds;
    var raw := EncodeRow(kinds, store.rows[ref]);
    RowRoundTrip(kinds, store.rows[ref]);
    r := DecodeRow(kinds, raw.value);
  }

  /** Compares one committed row with the one the transaction recorded. */
  method ValidatePending(store: SqlStore, ref: RowRef, p: Pending) returns (r: Result<bool>)
    requires Usable(store) && ref.table in store.cat && GoodPair(store.cat, ref, p)
    ensures r.Err? ==> !store.ledgerReliable && r.error == ErrorKind.Backend
    ensures r.Ok? ==> (r.value <==> StillThere(Lookup(store.rows, ref), p.prior))
  {
    hide EncodedRow, Exact, WellCatalogued, GoodDb;
    var fails: bool := *;
    if !store.ledgerReliable && fails {
      return Err(ErrorKind.Backend);
    }
    var found := ref in store.rows;
    if p.prior.None? {
      return Ok(!found);
    }
    if !found {
      return Ok(false);
    }
    assert Storing(store.cat, ref, store.rows[ref]);
    var kinds := store.cat[ref.table].kinds;
    var raw := EncodeRow(kinds, store.rows[ref]);
    var prior := EncodeRow(kinds, p.prior.value);
    return Ok(raw == prior);
  }

  /** The changes gathered so far: the effective rows of the write-set outside rest. */
  ghost predicate Gathered(cat: Catalog, buf: Buffer, rest: set<RowRef>, changes: seq<Change>)
  {
    GoodBatch(cat, changes) &&
    (forall i {:trigger changes[i]} :: 0 <= i < |changes| ==>
      changes[i].ref in buf && changes[i].ref !in rest && changes[i].row == buf[changes[i].ref] &&
      !NetNoOp(changes[i].row)) &&
    (forall ref {:trigger buf[ref]} :: ref in buf && ref !in rest && !NetNoOp(buf[ref]) ==>
      exists i :: 0 <= i < |changes| && changes[i].ref == ref)
  }

  lemma {:induction false} GatherOne(cat: Catalog, buf: Buffer, rest: set<RowRef>, changes: seq<Change>, ref: RowRef)
    requires Gathered(cat, buf, rest, changes) && ref in buf && ref in rest && GoodPending(cat, ref, buf[ref])
    ensures NetNoOp(buf[ref]) ==> Gathered(cat, buf, rest - {ref}, changes)
    ensures !NetNoOp(buf[ref]) ==> Gathered(cat, buf, rest - {ref}, changes + [Change(ref, buf[ref])])
  {
    hide GoodPending;
    if !NetNoOp(buf[ref]) {
      var out := changes + [Change(ref, buf[ref])];
      forall i, j | 0 <= i < j < |out| ensures out[i].ref != out[j].ref {
        assert out[i] == changes[i];
      }
      forall r | r in buf && r !in rest - {ref} && !NetNoOp(buf[r])
        ensures exists i :: 0 <= i < |out| && out[i].ref == r
      {
        if r == ref {
          assert out[|changes|].ref == r;
        } else {
          var i :| 0 <= i < |changes| && changes[i].ref == r;
          assert out[i].ref == r;
        }
      }
    }
  }

  lemma {:induction false} NothingGathered(cat: Catalog, buf: Buffer)
    ensures Gathered(cat, buf, buf.Keys, [])
  {
  }

  /** Applying the gathered changes is applying the write-set. */
  lemma {:induction false} GatheredApplies(cat: Catalog, db: Database, buf: Buffer, changes: seq<Change>)
    requires Gathered(cat, buf, {}, changes)
    ensures ChangedAll(db, changes) == Applied(db, buf) && RunRows(db, BatchRowOps(changes)) == Applied(db, buf)
  {
    hide ChangedAll, Applied, AppliedRow, RunRows, BatchRowOps, GoodBatch;
    RowOpsMakeChanges(db, changes);
    forall ref ensures Lookup(ChangedAll(db, changes), ref) == Lookup(Applied(db, buf), ref) {
      AppliedAt(db, buf, ref);
      AppliedOne(db, buf, ref);
      if ref in buf && !NetNoOp(buf[ref]) {
        var i :| 0 <= i < |changes| && changes[i].ref == ref;
        TouchedRow(cat, db, changes, i);
      } else {
        RestUntouched(db, changes, ref);
      }
    }
    SameFinds(ChangedAll(db, changes), Applied(db, buf));
  }

  lemma {:induction false} AppliedOne(db: Database, buf: Buffer, ref: RowRef)
    ensures AppliedRow(db, buf, ref) == if ref in buf && !NetNoOp(buf[ref]) then buf[ref].next else Lookup(db, ref)
  {
  }

  lemma {:induction false} SameFinds(a: Database, b: Database)
    requires forall ref {:trigger Lookup(a, ref)} {:trigger Lookup(b, ref)} :: Lookup(a, ref) == Lookup(b, ref)
    ensures a == b
  {
    forall ref ensures ref in a <==> ref in b
              ensures ref in a ==> a[ref] == b[ref]
    {
      assert Lookup(a, ref) == Lookup(b, ref);
    }
  }

  /** Validates and encodes the write-set's effective rows. */
  method GatherOps(store: SqlStore, txn: Txn, moved: bool) returns (r: Reply, rowOps: seq<RowOp>, scanOps: seq<ScanOp>,
                   ghost changes: seq<Change>)
    requires Usable(store) && StorableSet(store.cat, txn.rows)
    ensures r == Done || (r == Failed(TableDropped) && exists ref :: ref in txn.rows && ref.table !in store.cat)
            || (r == Failed(ReadFailed) && !store.ledgerReliable) ||
            (r == Failed(Conflict) && moved && !Validated(store.rows, txn.rows))
    ensures r == Done ==> Gathered(store.cat, txn.rows, {}, changes) && FittingBuffer(store.cat, txn.rows)
    ensures r == Done ==> rowOps == BatchRowOps(changes) && scanOps == BatchScanOps(store.cat, changes)
    ensures r == Done && moved ==> Validated(store.rows, txn.rows)
  {
    hide Gathered, GoodPair, StillThere, RowOpsOf, ScanOpsOf, WellCatalogued, GoodDb, GoodRows, Exact;
    var buf := txn.rows;
    rowOps, scanOps, changes := [], [], [];
    NothingGathered(store.cat, buf);
    var rest := buf.Keys;
    while rest != {}
      invariant rest <= buf.Keys && Gathered(store.cat, buf, rest, changes)
      invariant GoodBatch(store.cat, changes) && rowOps == BatchRowOps(changes)
      invariant scanOps == BatchScanOps(store.cat, changes)
      invariant forall ref {:trigger buf[ref]} :: ref in buf && ref !in rest ==>
                  GoodPending(store.cat, ref, buf[ref]) &&
                  (moved && !NetNoOp(buf[ref]) ==> StillThere(Lookup(store.rows, ref), buf[ref].prior))
    {
      var ref :| ref in rest;
      var p := buf[ref];
      if ref.table !in store.cat {
        return Failed(TableDropped), rowOps, scanOps, changes;
      }
      PairIsPending(store.cat, ref, p);
      GatherOne(store.cat, buf, rest, changes, ref);
      rest := rest - {ref};
      if !NetNoOp(p) {
        if moved {
          var same := ValidatePending(store, ref, p);
          if same.Err? {
            return Failed(ReadFailed), rowOps, scanOps, changes;
          }
          if !same.value {
            return Failed(Conflict), rowOps, scanOps, changes;
          }
        }
        IdOf(store.cat, ref);
        var ro, so := BuildRowOps(store.cat[ref.table], ref.pk, p);
        ghost var more := changes + [Change(ref, p)];
        GatheredBatch(store.cat, buf, rest, more);
        assert more[..|more| - 1] == changes;
        rowOps, scanOps, changes := rowOps + ro, scanOps + so, more;
      }
    }
    return Done, rowOps, scanOps, changes;
  }

  lemma {:induction false} PairIsPending(cat: Catalog, ref: RowRef, p: Pending)
    requires ref.table in cat && GoodPair(cat, ref, p)
    ensures GoodPending(cat, ref, p)
  {
  }

  lemma {:induction false} IdOf(cat: Catalog, ref: RowRef)
    requires WellCatalogued(cat) && ref.table in cat
    ensures cat[ref.table].id == ref.table
  {
  }

  lemma {:induction false} GatheredBatch(cat: Catalog, buf: Buffer, rest: set<RowRef>, changes: seq<Change>)
    requires Gathered(cat, buf, rest, changes)
    ensures GoodBatch(cat, changes)
  {
  }

  /** The claims of one pending row on the first n indexes of its table. */
  ghost predicate ClaimsStandTo(cat: Catalog, db: Database, buf: Buffer, x: RowRef, n: nat)
    requires x in buf && x.table in cat && n <= |cat[x.table].indexes|
  {
    forall i {:trigger cat[x.table].indexes[i]} :: 0 <= i < n && cat[x.table].indexes[i].unique ==>
      UniqueIn(db, KeyOf(cat, x.table, i)) ==> ClaimStands(db, buf, KeyOf(cat, x.table, i), x)
  }

  /** The claims of one pending row on every unique index of its table. */
  ghost predicate ClaimsStand(cat: Catalog, db: Database, buf: Buffer, x: RowRef)
    requires x in buf && x.table in cat
  {
    ClaimsStandTo(cat, db, buf, x, |cat[x.table].indexes|)
  }

  /** Some unique index has a committed row in the way of the write-set. */
  ghost predicate UniqueBlocked(cat: Catalog, db: Database, buf: Buffer)
  {
    exists t, i {:trigger cat[t].indexes[i]} :: UniqueIndex(cat, t, i) && !Revalidated(db, buf, KeyOf(cat, t, i))
  }

  /** Every unique index that is free of duplicates stays compatible with the write-set. */
  ghost predicate UniquePassed(cat: Catalog, db: Database, buf: Buffer)
  {
    forall t, i {:trigger cat[t].indexes[i]} :: UniqueIndex(cat, t, i) && UniqueIn(db, KeyOf(cat, t, i)) ==>
      Revalidated(db, buf, KeyOf(cat, t, i))
  }

  ghost predicate UniqueIndex(cat: Catalog, t: Word, i: int)
  {
    t in cat && 0 <= i < |cat[t].indexes| && cat[t].indexes[i].unique
  }

  /** One chunk shows the entries of every value the write-set claims. */
  ghost predicate AllInSight(cat: Catalog, m: KeySpace, buf: Buffer)
  {
    forall x, i {:trigger InSight(cat, m, x.table, i, x, buf[x].next.value)} ::
      x in buf && buf[x].next.Some? && UniqueIndex(cat, x.table, i) ==>
        InSight(cat, m, x.table, i, x, buf[x].next.value)
  }

  /** On such a keyspace a write-set that passes the re-check has passed it. */
  ghost predicate PassIsRight(store: SqlStore, buf: Buffer)
    reads store, store.keyspace
  {
    Synced(store) ||
    (Covers(store.cat, store.rows, store.keyspace.entries) && AllInSight(store.cat, store.keyspace.entries, buf))
  }

  method RevalidateClaims(store: SqlStore, buf: Buffer, x: RowRef) returns (r: Result<bool>)
    requires Usable(store) && FittingBuffer(store.cat, buf) && x in buf
    ensures x.table in store.cat
    ensures r.Err? ==> !store.keyspace.reliable && r.error == ErrorKind.Backend
    ensures r.Ok? && !r.value && Synced(store) ==> UniqueBlocked(store.cat, store.rows, buf)
    ensures r.Ok? && r.value && PassIsRight(store, buf) ==> ClaimsStand(store.cat, store.rows, buf, x)
  {
    hide Exact, Covers, WellCatalogued, GoodDb, GoodRows, KeyOf, UniqueIn, ClaimStands, FittingBuffer, Revalidated,
         InSight, ClaimClear;
    FittingAt(store.cat, buf, x);
    var t := x.table;
    if buf[x].next.None? {
      NoClaims(store.cat, store.rows, buf, x);
      return Ok(true);
    }
    for i := 0 to |store.cat[t].indexes|
      invariant PassIsRight(store, buf) ==> ClaimsStandTo(store.cat, store.rows, buf, x, i)
    {
      if store.cat[t].indexes[i].unique {
        var stands := RevalidateRow(store, t, i, buf, x);
        if stands.Err? {
          return stands;
        }
        if !stands.value {
          if Synced(store) {
            NotStanding(store.rows, buf, KeyOf(store.cat, t, i), x);
          }
          return Ok(false);
        }
      }
    }
    return Ok(true);
  }

  lemma {:induction false} FittingAt(cat: Catalog, buf: Buffer, x: RowRef)
    requires FittingBuffer(cat, buf) && x in buf
    ensures GoodPending(cat, x, buf[x]) && x.table in cat
  {
    hide RowFits;
    assert GoodPending(cat, x, buf[x]);
  }

  lemma {:induction false} NoClaims(cat: Catalog, db: Database, buf: Buffer, x: RowRef)
    requires x in buf && x.table in cat && buf[x].next.None?
    ensures ClaimsStand(cat, db, buf, x)
  {
    hide KeyOf, UniqueIn;
  }

  lemma {:induction false} NotStanding(db: Database, buf: Buffer, key: UniqueKey, x: RowRef)
    requires x in buf && !ClaimStands(db, buf, key, x)
    ensures !Revalidated(db, buf, key)
  {
  }

  /** Asks of every claim of the write-set whether a committed row is in its way. */
  method RevalidateUnique(store: SqlStore, buf: Buffer) returns (r: Result<bool>)
    requires Usable(store) && FittingBuffer(store.cat, buf)
    ensures r.Err? ==> !store.keyspace.reliable && r.error == ErrorKind.Backend
    ensures r.Ok? && !r.value && Synced(store) ==> UniqueBlocked(store.cat, store.rows, buf)
    ensures r.Ok? && r.value && PassIsRight(store, buf) ==> UniquePassed(store.cat, store.rows, buf)
  {
    hide Usable, Synced, PassIsRight, KeyOf, UniqueIn, ClaimsStand, FittingBuffer, Revalidated, UniqueBlocked;
    var rest := buf.Keys;
    while rest != {}
      invariant rest <= buf.Keys
      invariant PassIsRight(store, buf) ==>
                  forall x {:trigger buf[x]} :: x in buf && x !in rest ==>
                    x.table in store.cat && ClaimsStand(store.cat, store.rows, buf, x)
    {
      var x :| x in rest;
      rest := rest - {x};
      var stands := RevalidateClaims(store, buf, x);
      if stands.Err? || !stands.value {
        return stands;
      }
    }
    if PassIsRight(store, buf) {
      forall t, i | UniqueIndex(store.cat, t, i) && UniqueIn(store.rows, KeyOf(store.cat, t, i))
        ensures Revalidated(store.rows, buf, KeyOf(store.cat, t, i))
      {
        AllStand(store.cat, store.rows, buf, t, i);
      }
    }
    return Ok(true);
  }

  lemma {:induction false} AllStand(cat: Catalog, db: Database, buf: Buffer, t: Word, i: nat)
    requires t in cat && i < |cat[t].indexes| && cat[t].indexes[i].unique && UniqueIn(db, KeyOf(cat, t, i))
    requires forall x {:trigger buf[x]} :: x in buf ==> x.table in cat && ClaimsStand(cat, db, buf, x)
    ensures Revalidated(db, buf, KeyOf(cat, t, i))
  {
    hide UniqueIn, IndexedValue;
    var key := KeyOf(cat, t, i);
    forall x, y, v | x in buf && y in db && y != x && HasKey(key, x, buf[x].next, v) && key(y, db[y]) == Some(v)
      ensures y in buf && !HasKey(key, y, buf[y].next, v)
    {
      ValueHasTable(cat, t, i, x, buf[x].next.value, v);
      assert ClaimsStand(cat, db, buf, x);
      assert cat[x.table].indexes[i].unique;
      assert ClaimStands(db, buf, key, x);
    }
  }

  lemma {:induction false} ValidatedBased(cat: Catalog, db: Database, buf: Buffer)
    requires GoodRows(cat, db) && StorableSet(cat, buf) && FittingBuffer(cat, buf) && Validated(db, buf)
    ensures EffectiveBased(db, buf)
  {
    hide EncodedRow, Storing;
    forall ref | ref in buf && !NetNoOp(buf[ref]) ensures Lookup(db, ref) == buf[ref].prior {
      assert StillThere(Lookup(db, ref), buf[ref].prior) && GoodPair(cat, ref, buf[ref]) &&
             GoodPending(cat, ref, buf[ref]);
      if buf[ref].prior.Some? {
        assert Storing(cat, ref, db[ref]);
        SameBytes(cat, ref, db[ref], buf[ref].prior.value);
      }
    }
  }

  /** Comparing stored bytes finds a row changed if and only if it is another row. */
  lemma {:induction false} ValidatedIff(cat: Catalog, db: Database, buf: Buffer)
    requires GoodRows(cat, db) && StorableSet(cat, buf) && FittingBuffer(cat, buf)
    ensures Validated(db, buf) <==> EffectiveBased(db, buf)
  {
    hide GoodRows, StorableSet, FittingBuffer, EncodedRow;
    if Validated(db, buf) {
      ValidatedBased(cat, db, buf);
    }
  }

  lemma {:induction false} GatheredExact(cat: Catalog, db: Database, m: KeySpace, buf: Buffer, changes: seq<Change>,
                                         version: nat)
    requires WellCatalogued(cat) && Exact(cat, db, m) && Gathered(cat, buf, {}, changes) && EffectiveBased(db, buf)
    ensures Exact(cat, Applied(db, buf), Run(m, BatchScanOps(cat, changes) + [Marker(version)]))
  {
    hide Exact, Run, BatchScanOps, WellCatalogued, ChangedAll, Applied, GoodBatch;
    forall i | 0 <= i < |changes| ensures Lookup(db, changes[i].ref) == changes[i].row.prior {
      assert buf[changes[i].ref] == changes[i].row;
    }
    GatheredApplies(cat, db, buf, changes);
    BatchKeepsExact(cat, db, m, changes);
    MarkerKeepsExact(cat, Applied(db, buf), m, BatchScanOps(cat, changes), version);
  }

  lemma {:induction false} GatheredCovers(cat: Catalog, db: Database, m: KeySpace, buf: Buffer, changes: seq<Change>,
                                          version: nat)
    requires WellCatalogued(cat) && Covers(cat, db, m) && Gathered(cat, buf, {}, changes) && EffectiveBased(db, buf)
    ensures Covers(cat, Applied(db, buf), Run(m, BatchScanOps(cat, changes) + [Marker(version)]))
  {
    hide Covers, Run, BatchScanOps, WellCatalogued, ChangedAll, Applied, GoodBatch;
    forall i | 0 <= i < |changes| ensures Lookup(db, changes[i].ref) == changes[i].row.prior {
      assert buf[changes[i].ref] == changes[i].row;
    }
    GatheredApplies(cat, db, buf, changes);
    BatchKeepsCover(cat, db, m, changes);
    MarkerKeepsCovers(cat, Applied(db, buf), m, BatchScanOps(cat, changes), version);
  }

  lemma {:induction false} AppliedRowsGood(cat: Catalog, db: Database, buf: Buffer)
    requires GoodRows(cat, db) && StorableSet(cat, buf) && FittingBuffer(cat, buf)
    ensures GoodRows(cat, Applied(db, buf)) && GoodDb(cat, Applied(db, buf))
  {
    hide RowFits, PkOf;
    forall ref | ref in Applied(db, buf) ensures Storing(cat, ref, Applied(db, buf)[ref]) {
      if ref in buf {
        assert GoodPair(cat, ref, buf[ref]) && GoodPending(cat, ref, buf[ref]);
      }
      if ref in db {
        assert Storing(cat, ref, db[ref]);
      }
    }
  }

  /** The rows and version after a ledger commit of the write-set. */
  ghost predicate Moved(rows: Database, version: nat, buf: Buffer, rows': Database, version': nat)
  {
    rows' == Applied(rows, buf) && version' == version + if rows' == rows then 0 else 1
  }

  /** The derived write of a commit: the entries of the write-set's effective rows and
      the marker in one batch, or nothing when there are none. */
  ghost predicate WroteBatch(cat: Catalog, buf: Buffer, changes: seq<Change>, version: nat, m: KeySpace, m': KeySpace)
  {
    Gathered(cat, buf, {}, changes) && GoodBatch(cat, changes) &&
    m' == if changes == [] then m else Run(m, BatchScanOps(cat, changes) + [Marker(version)])
  }

  /** What a completed commit does to rows and keyspace. */
  lemma {:induction false} CommitEffects(cat: Catalog, db: Database, m: KeySpace, buf: Buffer, changes: seq<Change>,
                                         version: nat)
    requires WellCatalogued(cat) && GoodRows(cat, db) && StorableSet(cat, buf) && FittingBuffer(cat, buf)
    requires Gathered(cat, buf, {}, changes)
    ensures GoodBatch(cat, changes) && RunRows(db, BatchRowOps(changes)) == ChangedAll(db, changes) == Applied(db, buf)
    ensures GoodRows(cat, Applied(db, buf)) && GoodDb(cat, Applied(db, buf))
    ensures BatchRowOps(changes) == [] <==> changes == []
    ensures var m' := Run(m, BatchScanOps(cat, changes) + [Marker(version)]);
            EffectiveBased(db, buf) ==>
              (Exact(cat, db, m) ==> Exact(cat, Applied(db, buf), m')) &&
              (Covers(cat, db, m) ==> Covers(cat, Applied(db, buf), m')) && (Traceable(cat, m) ==> Traceable(cat, m'))
  {
    hide Exact, Covers, Traceable, Run, BatchScanOps, WellCatalogued, ChangedAll, Applied, GoodBatch, RunRows, GoodRows,
         GoodDb, EffectiveBased, StorableSet, FittingBuffer, Gathered, BatchRowOps;
    GatheredBatch(cat, buf, {}, changes);
    GatheredApplies(cat, db, buf, changes);
    AppliedRowsGood(cat, db, buf);
    OpsIffChanges(cat, buf, changes);
    if EffectiveBased(db, buf) {
      if Exact(cat, db, m) {
        GatheredExact(cat, db, m, buf, changes, version);
      }
      if Covers(cat, db, m) {
        GatheredCovers(cat, db, m, buf, changes, version);
      }
      if Traceable(cat, m) {
        BatchKeepsTrace(cat, m, changes);
        MarkerKeepsTrace(cat, m, BatchScanOps(cat, changes), version);
      }
    }
  }

  /** Effective rows and only they need ledger operations. */
  lemma {:induction false} OpsIffChanges(cat: Catalog, buf: Buffer, changes: seq<Change>)
    requires Gathered(cat, buf, {}, changes)
    ensures BatchRowOps(changes) == [] <==> changes == []
  {
    hide GoodBatch;
    if changes != [] {
      var c := changes[|changes| - 1];
      assert !NetNoOp(c.row);
      assert |RowOpsOf(c.ref, c.row)| > 0;
    }
  }

  /** Applies a write-set as one ledger commit and one derived batch, revalidating
      it first when something else has committed since it began. */
  method CommitTxn(store: SqlStore, txn: Txn) returns (r: Reply)
    requires Usable(store) && StorableSet(store.cat, txn.rows) && store.version + 1 < TWO_64
    modifies store, store.keyspace
    ensures Usable(store)
    ensures r.Failed? && r.why != DerivedFailed ==>
              store.rows == old(store.rows) && store.version == old(store.version) &&
              store.keyspace.entries == old(store.keyspace.entries)
    ensures r == Done || r == Failed(DerivedFailed) ==>
              Moved(old(store.rows), old(store.version), txn.rows, store.rows, store.version)
    ensures (r == Done || r == Failed(DerivedFailed)) && old(store.version) != txn.base ==>
              Validated(old(store.rows), txn.rows) &&
              (old(PassIsRight(store, txn.rows)) ==> UniquePassed(store.cat, old(store.rows), txn.rows))
    ensures r == Done ==>
              exists changes ::
                WroteBatch(store.cat, txn.rows, changes, store.version, old(store.keyspace.entries),
                           store.keyspace.entries)
    ensures r == Done && (old(store.version) == txn.base ==> EffectiveBased(old(store.rows), txn.rows)) ==>
              (old(Synced(store)) ==> Synced(store)) && (old(Covered(store)) ==> Covered(store))
    ensures r == Failed(Conflict) ==>
              old(store.version) != txn.base &&
              (Validated(old(store.rows), txn.rows) && old(Synced(store)) ==>
                UniqueBlocked(store.cat, old(store.rows), txn.rows))
    ensures r == Failed(TableDropped) ==> exists ref :: ref in txn.rows && ref.table !in store.cat
    ensures r == Done || r == Failed(DerivedFailed) ==> forall ref :: ref in txn.rows ==> ref.table in store.cat
    ensures r.Failed? ==>
              r.why == Conflict || r.why == TableDropped ||
              (r.why == ReadFailed && !(store.ledgerReliable && store.keyspace.reliable)) ||
              (r.why == LedgerFailed && !store.ledgerReliable) || (r.why == DerivedFailed && !store.keyspace.reliable)
  {
    hide Exact, Covers, Traceable, AllInSight, WellCatalogued, GoodDb, GoodRows, KeyOf, UniqueIn, FittingBuffer,
         UniquePassed, UniqueBlocked, Validated, Gathered, Applied, Run, RunRows, BatchRowOps, BatchScanOps,
         EffectiveBased, StorableSet, ChangedAll, GoodBatch;
    ghost var rows0, m0 := store.rows, store.keyspace.entries;
    var moved := store.version != txn.base;
    var gathered, rowOps, scanOps, changes := GatherOps(store, txn, moved);
    if gathered != Done {
      return gathered;
    }
    TablesKnown(store.cat, txn.rows);
    if moved {
      var free := RevalidateUnique(store, txn.rows);
      if free.Err? {
        return Failed(ReadFailed);
      }
      if !free.value {
        return Failed(Conflict);
      }
      ValidatedBased(store.cat, rows0, txn.rows);
    }
    if |rowOps| == 0 {
      CommitEffects(store.cat, rows0, m0, txn.rows, changes, store.version);
      NoRowOps(rows0, rowOps);
      assert WroteBatch(store.cat, txn.rows, changes, store.version, m0, store.keyspace.entries);
      return Done;
    }
    r := store.Commit(rowOps, scanOps);
    CommitEffects(store.cat, rows0, m0, txn.rows, changes, store.version);
    if r == Done {
      assert WroteBatch(store.cat, txn.rows, changes, store.version, m0, store.keyspace.entries);
    }
  }

  lemma {:induction false} NoRowOps(rows: Database, ops: seq<RowOp>)
    requires |ops| == 0
    ensures RunRows(rows, ops) == rows
  {
  }

  /** What a statement outside a transaction commits: its rows as buffered, without a
      look at what is committed meanwhile. */
  ghost predicate WroteDirectly(cat: Catalog, db: Database, buf: Buffer, changes: seq<Change>, version: nat,
                                m: KeySpace, m': KeySpace)
  {
    Gathered(cat, buf, {}, changes) && GoodBatch(cat, changes) && Applied(db, buf) == ChangedAll(db, changes) &&
    m' == Run(m, BatchScanOps(cat, changes) + [Marker(version)])
  }

  /** Ends a statement outside a transaction.  The keyspace stays exact if and only if
      the statement accounts for the entries of the rows it finds committed. */
  method CloseDirect(store: SqlStore, pending: Buffer) returns (r: Reply)
    requires Usable(store) && StorableSet(store.cat, pending) && FittingBuffer(store.cat, pending)
    requires store.version + 1 < TWO_64
    modifies store, store.keyspace
    ensures Usable(store)
    ensures r.Failed? ==> !store.ledgerReliable || !store.keyspace.reliable
    ensures r.Failed? && r.why != DerivedFailed ==>
              store.rows == old(store.rows) && store.version == old(store.version) &&
              store.keyspace.entries == old(store.keyspace.entries)
    ensures r == Done || r == Failed(DerivedFailed) ==>
              Moved(old(store.rows), old(store.version), pending, store.rows, store.version)
    ensures r == Done && pending == map[] ==> store.keyspace.entries == old(store.keyspace.entries)
    ensures r == Done && pending != map[] ==>
              exists changes ::
                WroteDirectly(store.cat, old(store.rows), pending, changes, store.version, old(store.keyspace.entries),
                              store.keyspace.entries) &&
                (old(Synced(store)) ==> (Synced(store) <==> RetractsAll(store.cat, old(store.rows), changes)))
  {
    hide Exact, Covers, Traceable, WellCatalogued, GoodDb, GoodRows, Gathered, Applied, Run, RunRows, BatchRowOps,
         BatchScanOps, EffectiveBased, StorableSet, ChangedAll, GoodBatch, RetractsAll, FittingBuffer;
    ghost var rows0, m0 := store.rows, store.keyspace.entries;
    if |pending| == 0 {
      assert pending == map[];
      NothingMoves(store.rows, store.version);
      return Done;
    }
    TablesKnown(store.cat, pending);
    var gathered, rowOps, scanOps, changes := GatherOps(store, Txn(0, false, pending, []), false);
    if gathered != Done {
      return gathered;
    }
    r := store.Commit(rowOps, scanOps);
    CommitEffects(store.cat, rows0, m0, pending, changes, store.version);
    if r == Done {
      assert WroteDirectly(store.cat, rows0, pending, changes, store.version, m0, store.keyspace.entries);
      DirectExactIff(store.cat, rows0, m0, changes, store.version);
    }
  }

  lemma {:induction false} TablesKnown(cat: Catalog, buf: Buffer)
    requires FittingBuffer(cat, buf)
    ensures forall ref :: ref in buf ==> ref.table in cat
  {
    forall ref | ref in buf ensures ref.table in cat {
      FittingAt(cat, buf, ref);
    }
  }

  lemma {:induction false} DirectExactIff(cat: Catalog, db: Database, m: KeySpace, changes: seq<Change>, version: nat)
    requires WellCatalogued(cat) && GoodBatch(cat, changes)
    ensures Exact(cat, db, m) ==>
              (Exact(cat, ChangedAll(db, changes), Run(m, BatchScanOps(cat, changes) + [Marker(version)])) <==>
               RetractsAll(cat, db, changes))
  {
    hide Exact, Run, BatchScanOps, WellCatalogued, ChangedAll, GoodBatch, RetractsAll;
    MarkerKeepsExact(cat, ChangedAll(db, changes), m, BatchScanOps(cat, changes), version);
    if Exact(cat, db, m) {
      StaysExactIff(cat, db, m, changes);
    }
  }

  // -------------------------------------------------------------- savepoints

  function LowerChar(c: char): char
  {
    if 'A' <= c <= 'Z' then c - 'A' + 'a' else c
  }

  function Lower(s: string): (r: string)
    ensures |r| == |s|
  {
    if s == "" then "" else [LowerChar(s[0])] + Lower(s[1..])
  }

  /** Savepoint names ignore case. */
  predicate SameName(a: string, b: string)
  {
    Lower(a) == Lower(b)
  }

  /** The same character, or the two cases of one letter. */
  predicate SameLetter(a: char, b: char)
  {
    a == b || ('A' <= a <= 'Z' && b as int == a as int + 32) || ('A' <= b <= 'Z' && a as int == b as int + 32)
  }

  /** Names match if and only if they do so character by character. */
  lemma {:induction false} SameNameIff(a: string, b: string)
    ensures SameName(a, b) <==> |a| == |b| && forall i {:trigger a[i]} :: 0 <= i < |a| ==> SameLetter(a[i], b[i])
  {
    if a != "" && b != "" {
      SameNameIff(a[1..], b[1..]);
      assert Lower(a)[0] == LowerChar(a[0]) && Lower(a)[1..] == Lower(a[1..]);
      assert Lower(b)[0] == LowerChar(b[0]) && Lower(b)[1..] == Lower(b[1..]);
      if |a| == |b| && forall i {:trigger a[i]} :: 0 <= i < |a| ==> SameLetter(a[i], b[i]) {
        assert forall i :: 0 <= i < |a[1..]| ==> a[1..][i] == a[i + 1];
      } else if SameName(a, b) {
        assert forall i :: 0 < i < |a| ==> a[i] == a[1..][i - 1];
      }
    }
  }

  /** At most one savepoint per name. */
  ghost predicate DistinctNames(sps: seq<Savepoint>)
  {
    forall i, j :: 0 <= i < j < |sps| ==> !SameName(sps[i].name, sps[j].name)
  }

  /** i is the savepoint called name. */
  ghost predicate NamedAt(sps: seq<Savepoint>, name: string, i: int)
  {
    0 <= i < |sps| && SameName(sps[i].name, name)
  }

  /** Finds a savepoint, searching from the newest. */
  method FindSavepoint(sps: seq<Savepoint>, name: string) returns (r: Option<nat>)
    ensures r.None? ==> forall i {:trigger sps[i]} :: 0 <= i < |sps| ==> !SameName(sps[i].name, name)
    ensures r.Some? ==> NamedAt(sps, name, r.value) && forall i {:trigger sps[i]} :: r.value < i < |sps| ==>
              !SameName(sps[i].name, name)
  {
    hide SameName;
    var i := |sps|;
    while i > 0
      invariant 0 <= i <= |sps| && forall j {:trigger sps[j]} :: i <= j < |sps| ==> !SameName(sps[j].name, name)
    {
      i := i - 1;
      if SameName(sps[i].name, name) {
        return Some(i);
      }
    }
    return None;
  }

  /** Drops the first savepoint called name. */
  method DropSavepoint(sps: seq<Savepoint>, name: string) returns (out: seq<Savepoint>)
    ensures (forall i {:trigger sps[i]} :: 0 <= i < |sps| ==> !SameName(sps[i].name, name)) ==> out == sps
    ensures forall i :: NamedAt(sps, name, i) && (forall j :: 0 <= j < i ==> !NamedAt(sps, name, j)) ==>
              out == sps[..i] + sps[i + 1..]
  {
    hide SameName;
    for i := 0 to |sps|
      invariant forall j :: 0 <= j < i ==> !SameName(sps[j].name, name)
    {
      if SameName(sps[i].name, name) {
        assert NamedAt(sps, name, i);
        return sps[..i] + sps[i + 1..];
      }
    }
    return sps;
  }

  /** Saving under a name replaces the savepoint of that name and keeps names distinct. */
  lemma {:induction false} DropKeepsDistinct(sps: seq<Savepoint>, name: string, out: seq<Savepoint>, rows: Buffer)
    requires DistinctNames(sps)
    requires (forall i {:trigger sps[i]} :: 0 <= i < |sps| ==> !SameName(sps[i].name, name)) ==> out == sps
    requires forall i :: NamedAt(sps, name, i) && (forall j :: 0 <= j < i ==> !NamedAt(sps, name, j)) ==>
              out == sps[..i] + sps[i + 1..]
    ensures DistinctNames(out + [Savepoint(name, rows)])
    ensures forall i {:trigger out[i]} :: 0 <= i < |out| ==> out[i] in sps
  {
    hide SameName;
    if i :| NamedAt(sps, name, i) {
      assert forall j :: 0 <= j < |sps| && j != i ==> !NamedAt(sps, name, j) by {
        OneOfName(sps, name, i);
      }
      assert out == sps[..i] + sps[i + 1..];
      forall j | 0 <= j < |out| ensures out[j] in sps && !SameName(out[j].name, name) {
        var k := if j < i then j else j + 1;
        assert out[j] == sps[k] && !NamedAt(sps, name, k);
      }
    } else {
      forall j | 0 <= j < |sps| ensures !SameName(sps[j].name, name) {
        assert !NamedAt(sps, name, j);
      }
    }
  }

  lemma {:induction false} OneOfName(sps: seq<Savepoint>, name: string, i: int)
    requires DistinctNames(sps) && NamedAt(sps, name, i)
    ensures forall j :: 0 <= j < |sps| && j != i ==> !NamedAt(sps, name, j)
  {
  }

  /** Whatever was written and saved under other names since, rolling back to a
      savepoint restores the buffer it saved and keeps it; later ones are gone. */
  lemma {:induction false} RollbackRestores(base: seq<Savepoint>, saved: Savepoint, later: seq<Savepoint>, name: string,
                                            found: nat)
    requires SameName(saved.name, name) && forall i {:trigger later[i]} :: 0 <= i < |later| ==>
              !SameName(later[i].name, name)
    requires var sps := base + [saved] + later;
             NamedAt(sps, name, found) && forall i {:trigger sps[i]} :: found < i < |sps| ==>
               !SameName(sps[i].name, name)
    ensures var sps := base + [saved] + later; sps[found].rows == saved.rows && sps[..found + 1] == base + [saved]
  {
    hide SameName;
    var sps := base + [saved] + later;
    assert sps[|base|] == saved;
    forall i | |base| < i < |sps| ensures !SameName(sps[i].name, name) {
      assert sps[i] == later[i - |base| - 1];
    }
    assert sps[..|base| + 1] == base + [saved];
  }

  class Session {
    const store: SqlStore
    var txn: Option<Txn>

    constructor (store: SqlStore)
      ensures this.store == store && txn == None
    {
      this.store, txn := store, None;
    }

    /** The open transaction's savepoints have distinct names. */
    ghost predicate Valid()
      reads this
    {
      txn.Some? ==> DistinctNames(txn.value.savepoints)
    }

    /** The open transaction is based on the committed rows, or has been overtaken. */
    ghost predicate Current()
      reads this, store
    {
      txn.Some? ==> TxnCurrent(store.rows, store.version, txn.value)
    }

    /** Starts at the committed state: everything committed is visible, nothing else
        is, and committing at once would change nothing. */
    method StartTransaction(readOnly: bool)
      modifies this
      ensures Valid() && Current() && txn == Some(Txn(store.version, readOnly, map[], []))
      ensures forall ref {:trigger Lookup(store.rows, ref)} ::
                Visible(store.rows, txn.value.rows, map[], ref) == Lookup(store.rows, ref)
      ensures Moved(store.rows, store.version, txn.value.rows, store.rows, store.version)
    {
      NothingMoves(store.rows, store.version);
      txn := Some(Txn(store.version, readOnly, map[], []));
    }

    /** Commits and ends the transaction; a failed commit ends it too. */
    method CommitTransaction() returns (r: Reply)
      requires Usable(store) && (txn.Some? ==> StorableSet(store.cat, txn.value.rows)) && store.version + 1 < TWO_64
      modifies this, store, store.keyspace
      ensures txn == None && Valid()
      ensures old(txn).None? ==> r == Done && store.rows == old(store.rows) && store.version == old(store.version)
      ensures r.Failed? && r.why != DerivedFailed ==>
                store.rows == old(store.rows) && store.version == old(store.version) &&
                store.keyspace.entries == old(store.keyspace.entries)
      ensures old(txn).Some? && (r == Done || r == Failed(DerivedFailed)) ==>
                Moved(old(store.rows), old(store.version), old(txn).value.rows, store.rows, store.version)
      ensures old(txn).Some? && (r == Done || r == Failed(DerivedFailed)) &&
              old(store.version) != old(txn).value.base ==>
                Validated(old(store.rows), old(txn).value.rows) &&
                (old(PassIsRight(store, txn.value.rows)) ==>
                  UniquePassed(store.cat, old(store.rows), old(txn).value.rows))
      ensures old(txn).Some? && r == Done ==>
                exists changes ::
                  WroteBatch(store.cat, old(txn).value.rows, changes, store.version, old(store.keyspace.entries),
                             store.keyspace.entries)
      ensures r == Failed(Conflict) ==>
                old(txn).Some? && old(store.version) != old(txn).value.base &&
                (Validated(old(store.rows), old(txn).value.rows) && old(Synced(store)) ==>
                  UniqueBlocked(store.cat, old(store.rows), old(txn).value.rows))
      ensures r == Failed(TableDropped) ==>
                old(txn).Some? && exists ref :: ref in old(txn).value.rows && ref.table !in store.cat
      ensures r.Failed? ==>
                r.why == Conflict || r.why == TableDropped ||
                (r.why == ReadFailed && !(store.ledgerReliable && store.keyspace.reliable)) ||
                (r.why == LedgerFailed && !store.ledgerReliable) || (r.why == DerivedFailed && !store.keyspace.reliable)
      ensures Usable(store)
      ensures r == Done && old(Current()) ==>
                (old(Synced(store)) ==> Synced(store)) && (old(Covered(store)) ==> Covered(store))
    {
      hide Usable, Synced, PassIsRight, Covered, Moved, WroteBatch, UniqueBlocked, Validated, UniquePassed,
           EffectiveBased, StorableSet, BasedOn;
      if txn.None? {
        return Done;
      }
      var t := txn.value;
      if Current() && store.version == t.base {
        BasedIsEffective(store.rows, t.rows);
      }
      txn := None;
      r := CommitTxn(store, t);
    }

    method Rollback()
      modifies this
      ensures txn == None && Valid()
    {
      txn := None;
    }

    method CreateSavepoint(name: string) returns (r: Reply)
      requires Valid()
      modifies this
      ensures Valid()
      ensures old(txn).None? ==> r == Failed(NoTransaction) && txn == None
      ensures old(Current()) ==> Current()
      ensures old(txn).Some? ==>
                r == Done && txn.Some? && SavepointMove(old(txn).value, txn.value) &&
                txn.value.rows == old(txn).value.rows &&
                |txn.value.savepoints| > 0 &&
                txn.value.savepoints[|txn.value.savepoints| - 1] == Savepoint(name, txn.value.rows)
    {
      hide SameName, TxnCurrent;
      if txn.None? {
        return Failed(NoTransaction);
      }
      var t := txn.value;
      var kept := DropSavepoint(t.savepoints, name);
      DropKeepsDistinct(t.savepoints, name, kept, t.rows);
      SavedAmong(t, kept, Savepoint(name, t.rows));
      txn := Some(t.(savepoints := kept + [Savepoint(name, t.rows)]));
      if old(Current()) {
        SavepointStaysCurrent(store.rows, store.version, t, txn.value);
      }
      return Done;
    }

    method RollbackToSavepoint(name: string) returns (r: Reply)
      requires Valid()
      modifies this
      ensures Valid()
      ensures old(txn).None? ==> r == Failed(NoTransaction) && txn == None
      ensures old(Current()) ==> Current()
      ensures old(txn).Some? && r == Done ==>
                txn.Some? && SavepointMove(old(txn).value, txn.value) &&
                exists i ::
                  NamedAt(old(txn).value.savepoints, name, i) && txn.value.rows == old(txn).value.savepoints[i].rows &&
                            txn.value.savepoints == old(txn).value.savepoints[..i + 1]
      ensures old(txn).Some? && r != Done ==>
                r == Failed(NoSavepoint) && txn == old(txn) && forall i :: !NamedAt(old(txn).value.savepoints, name, i)
    {
      hide SameName, TxnCurrent;
      if txn.None? {
        return Failed(NoTransaction);
      }
      var t := txn.value;
      var at := FindSavepoint(t.savepoints, name);
      if at.None? {
        return Failed(NoSavepoint);
      }
      txn := Some(t.(rows := t.savepoints[at.value].rows, savepoints := t.savepoints[..at.value + 1]));
      if old(Current()) {
        SavepointStaysCurrent(store.rows, store.version, t, txn.value);
      }
      assert NamedAt(t.savepoints, name, at.value);
      return Done;
    }

    method ReleaseSavepoint(name: string) returns (r: Reply)
      requires Valid()
      modifies this
      ensures Valid()
      ensures old(txn).None? ==> r == Failed(NoTransaction) && txn == None
      ensures old(Current()) ==> Current()
      ensures old(txn).Some? && r == Done ==>
                txn.Some? && SavepointMove(old(txn).value, txn.value) && txn.value.rows == old(txn).value.rows &&
                exists i ::
                  NamedAt(old(txn).value.savepoints, name, i) && txn.value.savepoints == old(txn).value.savepoints[..i]
      ensures old(txn).Some? && r != Done ==>
                r == Failed(NoSavepoint) && txn == old(txn) && forall i :: !NamedAt(old(txn).value.savepoints, name, i)
    {
      hide SameName, TxnCurrent;
      if txn.None? {
        return Failed(NoTransaction);
      }
      var t := txn.value;
      var at := FindSavepoint(t.savepoints, name);
      if at.None? {
        return Failed(NoSavepoint);
      }
      txn := Some(t.(savepoints := t.savepoints[..at.value]));
      if old(Current()) {
        SavepointStaysCurrent(store.rows, store.version, t, txn.value);
      }
      assert NamedAt(t.savepoints, name, at.value);
      return Done;
    }
  }

  lemma {:induction false} NothingMoves(rows: Database, version: nat)
    ensures Moved(rows, version, map[], rows, version)
  {
    assert Applied(rows, map[]) == rows;
  }

  lemma {:induction false} SavedAmong(t: Txn, kept: seq<Savepoint>, last: Savepoint)
    requires (forall i {:trigger kept[i]} :: 0 <= i < |kept| ==> kept[i] in t.savepoints) && last.rows == t.rows
    ensures SavepointMove(t, t.(savepoints := kept + [last]))
  {
    var t' := t.(savepoints := kept + [last]);
    forall i | 0 <= i < |t'.savepoints| ensures t'.savepoints[i].rows == t.rows || SavedIn(t, t'.savepoints[i].rows) {
      if i < |kept| {
        assert t'.savepoints[i] == kept[i];
        var j :| 0 <= j < |t.savepoints| && t.savepoints[j] == kept[i];
      }
    }
  }
}

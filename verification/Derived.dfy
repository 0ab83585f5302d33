/** The derived keyspace: which entries a database needs, and the operations that
    keep them exact.  */
module Derived {
  import opened Hashing
  import opened KeyCodec
  import opened Tables
  import opened Keyspaces

  /** A row's identity: its table and its encoded primary key. */
  datatype RowRef = RowRef(table: Word, pk: ByteString)

  type Catalog = map<Word, TableDef>
  type Database = map<RowRef, Row>

  /** Table and index ids are unique across the catalogue. */
  ghost predicate WellCatalogued(cat: Catalog)
  {
    (forall t {:trigger cat[t]} :: t in cat ==> cat[t].id == t && WellDefined(cat[t])) &&
    (forall t, u, i, j {:trigger cat[t].indexes[i], cat[u].indexes[j]} ::
      t in cat && u in cat && 0 <= i < |cat[t].indexes| && 0 <= j < |cat[u].indexes| &&
      cat[t].indexes[i].id == cat[u].indexes[j].id ==>
        t == u && i == j)
  }

  ghost predicate GoodRow(cat: Catalog, ref: RowRef, row: Row)
  {
    ref.table in cat && RowFits(cat[ref.table], row) && ref.pk == PkOf(cat[ref.table], row)
  }

  ghost predicate GoodDb(cat: Catalog, db: Database)
  {
    forall ref {:trigger db[ref]} :: ref in db ==> GoodRow(cat, ref, db[ref])
  }

  /** k is the key of row under the index at position i. */
  ghost predicate IndexEntry(def: TableDef, i: int, row: Row, pk: ByteString, k: ByteString)
    requires RowFits(def, row)
  {
    0 <= i < |def.indexes| && k == IndexKey(def.indexes[i], row, pk)
  }

  /** k is an entry of this row: its scan key or one of its index keys. */
  ghost predicate Owns(cat: Catalog, ref: RowRef, row: Row, k: ByteString)
  {
    ref.table in cat && RowFits(cat[ref.table], row) &&
    (k == ScanKey(ref.table, ref.pk) || exists i :: IndexEntry(cat[ref.table], i, row, ref.pk, k))
  }

  /** Scan keys carry nothing; index keys carry the primary key. */
  function ValueOf(pk: ByteString, k: ByteString): ByteString
  {
    if |k| > 0 && k[0] == SCAN_PREFIX then [] else pk
  }

  /** Keys of the two derived spaces. */
  ghost predicate IsDerived(k: ByteString)
  {
    |k| > 0 && (k[0] == SCAN_PREFIX || k[0] == SECONDARY_PREFIX)
  }

  lemma {:induction false} KeyTags(id: Word, pk: ByteString, idx: IndexDef, row: Row)
    ensures |ScanKey(id, pk)| > 0 && ScanKey(id, pk)[0] == SCAN_PREFIX
    ensures OrdsIn(idx.ords, |row|) ==> |IndexKey(idx, row, pk)| > 0 && IndexKey(idx, row, pk)[0] == SECONDARY_PREFIX
  {
    hide BigEndian, EncodeSlots;
  }

  /** Entries of different rows never coincide, whatever the rows hold. */
  lemma {:induction false} OwnerUnique(cat: Catalog, a: RowRef, ra: Row, b: RowRef, rb: Row, k: ByteString)
    requires WellCatalogued(cat) && Owns(cat, a, ra, k) && Owns(cat, b, rb, k)
    ensures a == b
  {
    hide ScanKey, IndexKey, PkOf;
    var none := IndexDef(0, false, []);
    KeyTags(a.table, a.pk, none, ra);
    KeyTags(b.table, b.pk, none, rb);
    if k == ScanKey(a.table, a.pk) {
      if k != ScanKey(b.table, b.pk) {
        var j :| IndexEntry(cat[b.table], j, rb, b.pk, k);
        KeyTags(b.table, b.pk, cat[b.table].indexes[j], rb);
      } else {
        ScanKeyInjective(a.table, b.table, a.pk, b.pk);
      }
    } else {
      var i :| IndexEntry(cat[a.table], i, ra, a.pk, k);
      KeyTags(a.table, a.pk, cat[a.table].indexes[i], ra);
      var j :| IndexEntry(cat[b.table], j, rb, b.pk, k);
      IndexOwnerUnique(cat, a, ra, i, b, rb, j, k);
    }
  }

  lemma {:induction false} IndexOwnerUnique(cat: Catalog, a: RowRef, ra: Row, i: int, b: RowRef, rb: Row, j: int,
                                            k: ByteString)
    requires WellCatalogued(cat) && a.table in cat && b.table in cat && RowFits(cat[a.table], ra)
    requires RowFits(cat[b.table], rb)
    requires IndexEntry(cat[a.table], i, ra, a.pk, k) && IndexEntry(cat[b.table], j, rb, b.pk, k)
    ensures a == b && i == j && Columns(cat[a.table].indexes[i], ra) == Columns(cat[a.table].indexes[i], rb)
  {
    hide IndexKey;
    IndexKeySpace(cat[a.table].indexes[i], cat[b.table].indexes[j], ra, rb, a.pk, b.pk);
    assert cat[a.table].indexes[i].id == cat[b.table].indexes[j].id;
    IndexKeyInjective(cat[a.table], cat[a.table].indexes[i], ra, rb, a.pk, b.pk);
  }

  lemma {:induction false} OwnedIsDerived(cat: Catalog, ref: RowRef, row: Row, k: ByteString)
    requires Owns(cat, ref, row, k)
    ensures IsDerived(k)
  {
    hide ScanKey, IndexKey, PkOf;
    KeyTags(ref.table, ref.pk, IndexDef(0, false, []), row);
    if k != ScanKey(ref.table, ref.pk) {
      var i :| IndexEntry(cat[ref.table], i, row, ref.pk, k);
      KeyTags(ref.table, ref.pk, cat[ref.table].indexes[i], row);
    }
  }

  /** What the derived keyspace must hold at k for the database db. */
  ghost function Expected(cat: Catalog, db: Database, k: ByteString): Option<ByteString>
  {
    if exists ref :: ref in db && Owns(cat, ref, db[ref], k)
    then var ref :| ref in db && Owns(cat, ref, db[ref], k); Some(ValueOf(ref.pk, k))
    else None
  }

  lemma {:induction false} ExpectedOwner(cat: Catalog, db: Database, ref: RowRef, k: ByteString)
    requires WellCatalogued(cat) && ref in db && Owns(cat, ref, db[ref], k)
    ensures Expected(cat, db, k) == Some(ValueOf(ref.pk, k))
  {
    hide Owns;
    var other :| other in db && Owns(cat, other, db[other], k) && Expected(cat, db, k) == Some(ValueOf(other.pk, k));
    OwnerUnique(cat, ref, db[ref], other, db[other], k);
  }

  /** The derived keyspace agrees with the database. */
  ghost predicate Exact(cat: Catalog, db: Database, m: KeySpace)
  {
    forall k {:trigger Lookup(m, k)} :: IsDerived(k) ==> Lookup(m, k) == Expected(cat, db, k)
  }

  lemma {:induction false} ExactAt(cat: Catalog, db: Database, m: KeySpace, k: ByteString)
    requires Exact(cat, db, m) && IsDerived(k)
    ensures Lookup(m, k) == Expected(cat, db, k)
  {
    hide Expected, IsDerived;
  }

  // -------------------------------------------------------------- operations

  /** A row change not yet committed: from prior, None if there was no row, to next,
      None if there will be none. */
  datatype Pending = Pending(prior: Option<Row>, next: Option<Row>)

  /** Neither replaces nor becomes anything. */
  predicate NetNoOp(p: Pending)
  {
    p.prior.None? && p.next.None?
  }

  /** Row operations on the ledger. */
  datatype RowOp = PutRow(ref: RowRef, row: Row) | DelRow(ref: RowRef)

  function RunRows(db: Database, ops: seq<RowOp>): Database
    decreases |ops|
  {
    if ops == [] then db
    else
      var before := RunRows(db, ops[..|ops| - 1]);
      match ops[|ops| - 1]
      case PutRow(ref, row) => before[ref := row]
      case DelRow(ref) => before - {ref}
  }

  /** One write per index, setting the row's entry or unsetting it. */
  ghost function IndexOpsOf(def: TableDef, row: Row, pk: ByteString, remove: bool, n: nat): seq<ScanOp>
    requires RowFits(def, row) && n <= |def.indexes|
  {
    if n == 0 then []
    else
      var k := IndexKey(def.indexes[n - 1], row, pk);
      IndexOpsOf(def, row, pk, remove, n - 1) + [if remove then Unset(k) else Set(k, pk)]
  }

  method IndexOps(def: TableDef, row: Row, pk: ByteString, remove: bool) returns (r: Result<seq<ScanOp>>)
    requires RowFits(def, row)
    ensures r == Ok(IndexOpsOf(def, row, pk, remove, |def.indexes|))
  {
    hide EncodeSlots, SecondarySpace, NoNulls;
    var ops: seq<ScanOp> := [];
    for n := 0 to |def.indexes|
      invariant ops == IndexOpsOf(def, row, pk, remove, n)
    {
      var idx := def.indexes[n];
      ProjectFits(def.kinds, row, idx.ords);
      var cols := EncodeIndexCols(def, idx, row);
      var key := SecondarySpace(idx.id) + cols.value.0 + pk;
      ops := ops + [if remove then Unset(key) else Set(key, pk)];
    }
    return Ok(ops);
  }

  lemma {:induction false} ProjectFits(kinds: seq<Kind>, row: Row, ords: seq<nat>)
    requires Fits(row, kinds) && OrdsIn(ords, |row|)
    ensures Fits(Project(row, ords), Project(kinds, ords))
  {
  }

  ghost function ScanOpsOf(def: TableDef, pk: ByteString, p: Pending): seq<ScanOp>
    requires (p.prior.Some? ==> RowFits(def, p.prior.value)) && (p.next.Some? ==> RowFits(def, p.next.value))
  {
    var n := |def.indexes|;
    var retract := if p.prior.Some? then IndexOpsOf(def, p.prior.value, pk, true, n) else [];
    if p.next.Some? then [Set(ScanKey(def.id, pk), [])] + retract + IndexOpsOf(def, p.next.value, pk, false, n)
    else if p.prior.Some? then [Unset(ScanKey(def.id, pk))] + retract
    else []
  }

  ghost function RowOpsOf(ref: RowRef, p: Pending): seq<RowOp>
  {
    if p.next.Some? then [PutRow(ref, p.next.value)] else if p.prior.Some? then [DelRow(ref)] else []
  }

  /** One pending row as ledger and keyspace operations. */
  method BuildRowOps(def: TableDef, pk: ByteString, p: Pending) returns (rowOps: seq<RowOp>, scanOps: seq<ScanOp>)
    requires (p.prior.Some? ==> RowFits(def, p.prior.value)) && (p.next.Some? ==> RowFits(def, p.next.value))
    ensures rowOps == RowOpsOf(RowRef(def.id, pk), p) && scanOps == ScanOpsOf(def, pk, p)
  {
    hide IndexOpsOf, RowFits, ScanKey;
    rowOps, scanOps := [], [];
    var ref := RowRef(def.id, pk);
    if p.next.None? && p.prior.Some? {
      var ops := IndexOps(def, p.prior.value, pk, true);
      rowOps, scanOps := [DelRow(ref)], [Unset(ScanKey(def.id, pk))] + ops.value;
    } else if p.next.Some? {
      rowOps, scanOps := [PutRow(ref, p.next.value)], [Set(ScanKey(def.id, pk), [])];
      if p.prior.Some? {
        var gone := IndexOps(def, p.prior.value, pk, true);
        scanOps := scanOps + gone.value;
      } else {
        assert scanOps + [] == scanOps;
      }
      var added := IndexOps(def, p.next.value, pk, false);
      scanOps := scanOps + added.value;
    }
  }

  // ---------------------------------------------------- effect of operations

  ghost predicate IndexEntryBelow(def: TableDef, row: Row, pk: ByteString, k: ByteString, n: nat)
    requires RowFits(def, row)
  {
    exists i :: i < n && IndexEntry(def, i, row, pk, k)
  }

  lemma {:induction false} IndexOpsEffect(def: TableDef, row: Row, pk: ByteString, remove: bool, n: nat, m: KeySpace,
                                          k: ByteString)
    requires RowFits(def, row) && n <= |def.indexes|
    ensures Lookup(Run(m, IndexOpsOf(def, row, pk, remove, n)), k)
         == if IndexEntryBelow(def, row, pk, k, n) then (if remove then None else Some(pk)) else Lookup(m, k)
    decreases n
  {
    hide IndexKey, Run, NoNulls;
    if n == 0 {
      RunNothing(m);
    } else {
      IndexOpsEffect(def, row, pk, remove, n - 1, m, k);
      var key := IndexKey(def.indexes[n - 1], row, pk);
      var before, op := IndexOpsOf(def, row, pk, remove, n - 1), if remove then Unset(key) else Set(key, pk);
      RunConcat(m, before, [op]);
      OneOp(Run(m, before), op, k);
      if k == key {
        assert IndexEntry(def, n - 1, row, pk, k);
      }
    }
  }

  lemma {:induction false} OneOp(m: KeySpace, op: ScanOp, k: ByteString)
    ensures Lookup(Run(m, [op]), k) == if op.key == k then (if op.Set? then Some(op.value) else None) else Lookup(m, k)
  {
    assert [op][..0] == [];
  }

  lemma {:induction false} OwnsIs(cat: Catalog, ref: RowRef, row: Row, k: ByteString)
    requires ref.table in cat && RowFits(cat[ref.table], row)
    ensures Owns(cat, ref, row, k)
       <==> k == ScanKey(ref.table, ref.pk) || IndexEntryBelow(cat[ref.table], row, ref.pk, k, |cat[ref.table].indexes|)
    ensures IndexEntryBelow(cat[ref.table], row, ref.pk, k, |cat[ref.table].indexes|) ==> ValueOf(ref.pk, k) == ref.pk
    ensures ValueOf(ref.pk, ScanKey(ref.table, ref.pk)) == []
  {
    hide ScanKey, IndexKey, PkOf;
    var def := cat[ref.table];
    KeyTags(ref.table, ref.pk, IndexDef(0, false, []), row);
    if IndexEntryBelow(def, row, ref.pk, k, |def.indexes|) {
      var i :| i < |def.indexes| && IndexEntry(def, i, row, ref.pk, k);
      KeyTags(ref.table, ref.pk, def.indexes[i], row);
    }
  }

  /** The rows of a pending change fit its table. */
  ghost predicate GoodPending(cat: Catalog, ref: RowRef, p: Pending)
  {
    ref.table in cat && (p.prior.Some? ==> RowFits(cat[ref.table], p.prior.value)) &&
    (p.next.Some? ==> RowFits(cat[ref.table], p.next.value))
  }

  /** What a pending change leaves at k: its new entries present, its old ones gone. */
  ghost function After(cat: Catalog, ref: RowRef, p: Pending, m: KeySpace, k: ByteString): Option<ByteString>
  {
    if p.next.Some? && Owns(cat, ref, p.next.value, k) then Some(ValueOf(ref.pk, k))
    else if p.prior.Some? && Owns(cat, ref, p.prior.value, k) then None
    else Lookup(m, k)
  }

  lemma {:induction false} ScanOpsEffect(cat: Catalog, ref: RowRef, p: Pending, m: KeySpace, k: ByteString)
    requires WellCatalogued(cat) && GoodPending(cat, ref, p)
    ensures Lookup(Run(m, ScanOpsOf(cat[ref.table], ref.pk, p)), k) == After(cat, ref, p, m, k)
  {
    hide Owns, RowFits, IndexOpsOf, Run, ScanKey, IndexEntryBelow, ValueOf;
    var def, pk := cat[ref.table], ref.pk;
    assert def.id == ref.table;
    var n := |def.indexes|;
    var first := if p.next.Some? then Set(ScanKey(def.id, pk), []) else Unset(ScanKey(def.id, pk));
    var m1 := Run(m, [first]);
    OneOp(m, first, k);
    if p.prior.Some? {
      OwnsIs(cat, ref, p.prior.value, k);
      var gone := IndexOpsOf(def, p.prior.value, pk, true, n);
      RunConcat(m, [first], gone);
      IndexOpsEffect(def, p.prior.value, pk, true, n, m1, k);
      if p.next.Some? {
        AddedEffect(cat, ref, p.next.value, m, [first] + gone, k);
      }
    } else if p.next.Some? {
      assert [first] + [] == [first];
      AddedEffect(cat, ref, p.next.value, m, [first], k);
    } else {
      RunNothing(m);
    }
    if p.prior.Some? && p.next.Some? && k == ScanKey(ref.table, pk) {
      ScanKeyIsNoIndexKey(cat, ref, p.prior.value, k);
    }
  }

  lemma {:induction false} ScanKeyIsNoIndexKey(cat: Catalog, ref: RowRef, row: Row, k: ByteString)
    requires ref.table in cat && RowFits(cat[ref.table], row) && k == ScanKey(ref.table, ref.pk)
    ensures !IndexEntryBelow(cat[ref.table], row, ref.pk, k, |cat[ref.table].indexes|)
  {
    hide ScanKey, IndexKey;
    var def := cat[ref.table];
    forall i | IndexEntry(def, i, row, ref.pk, k) ensures false {
      KeyTags(ref.table, ref.pk, def.indexes[i], row);
    }
  }

  lemma {:induction false} RunNothing(m: KeySpace)
    ensures Run(m, []) == m
  {
  }

  lemma {:induction false} AddedEffect(cat: Catalog, ref: RowRef, row: Row, m: KeySpace, before: seq<ScanOp>,
                                       k: ByteString)
    requires ref.table in cat && RowFits(cat[ref.table], row)
    ensures var def := cat[ref.table];
            var m' := Run(m, before + IndexOpsOf(def, row, ref.pk, false, |def.indexes|));
            Lookup(m', k) == if IndexEntryBelow(def, row, ref.pk, k, |def.indexes|) then Some(ref.pk)
                             else Lookup(Run(m, before), k)
    ensures Owns(cat, ref, row, k)
       <==> k == ScanKey(ref.table, ref.pk) || IndexEntryBelow(cat[ref.table], row, ref.pk, k, |cat[ref.table].indexes|)
    ensures IndexEntryBelow(cat[ref.table], row, ref.pk, k, |cat[ref.table].indexes|) ==> ValueOf(ref.pk, k) == ref.pk
    ensures ValueOf(ref.pk, ScanKey(ref.table, ref.pk)) == []
  {
    hide Owns, RowFits, IndexOpsOf, Run, ScanKey, IndexEntryBelow, ValueOf;
    var def := cat[ref.table];
    OwnsIs(cat, ref, row, k);
    RunConcat(m, before, IndexOpsOf(def, row, ref.pk, false, |def.indexes|));
    IndexOpsEffect(def, row, ref.pk, false, |def.indexes|, Run(m, before), k);
  }

  // ------------------------------------------------------ exactness is kept

  ghost function Changed(db: Database, ref: RowRef, p: Pending): Database
  {
    if p.next.Some? then db[ref := p.next.value] else db - {ref}
  }

  lemma {:induction false} ExpectedAfter(cat: Catalog, db: Database, m: KeySpace, ref: RowRef, p: Pending,
                                         k: ByteString)
    requires WellCatalogued(cat) && Lookup(db, ref) == p.prior && Lookup(m, k) == Expected(cat, db, k)
    ensures Expected(cat, Changed(db, ref, p), k) == After(cat, ref, p, m, k)
  {
    hide Owns, ValueOf;
    var db' := Changed(db, ref, p);
    if p.next.Some? && Owns(cat, ref, p.next.value, k) {
      ExpectedOwner(cat, db', ref, k);
    } else if p.prior.Some? && Owns(cat, ref, p.prior.value, k) {
      forall x | x in db' && Owns(cat, x, db'[x], k) ensures false {
        OwnerUnique(cat, x, db'[x], ref, p.prior.value, k);
      }
    } else if x :| x in db && Owns(cat, x, db[x], k) {
      assert x != ref && db'[x] == db[x];
      ExpectedOwner(cat, db, x, k);
      ExpectedOwner(cat, db', x, k);
    } else {
      forall x | x in db' ensures !Owns(cat, x, db'[x], k) {
        if x != ref {
          assert db'[x] == db[x];
        }
      }
    }
  }

  // ------------------------------------------------------------ weaker cover

  /** The scan space is exact, and the index space holds every required entry. */
  ghost predicate Covers(cat: Catalog, db: Database, m: KeySpace)
  {
    forall k {:trigger Lookup(m, k)} :: IsDerived(k) && (k[0] == SCAN_PREFIX || Expected(cat, db, k).Some?) ==>
      Lookup(m, k) == Expected(cat, db, k)
  }

  lemma {:induction false} ExactCovers(cat: Catalog, db: Database, m: KeySpace)
    requires Exact(cat, db, m)
    ensures Covers(cat, db, m)
  {
    hide Expected, IsDerived;
  }

  /** The entry of some row of that primary key, stored or not. */
  ghost predicate Traced(cat: Catalog, k: ByteString, pk: ByteString)
  {
    exists ref, row {:trigger Owns(cat, ref, row, k)} :: Owns(cat, ref, row, k) && ref.pk == pk
  }

  /** Nothing but entries of rows is in the index space, though perhaps of rows long gone. */
  ghost predicate Traceable(cat: Catalog, m: KeySpace)
  {
    forall k {:trigger m[k]} :: k in m && |k| > 0 && k[0] == SECONDARY_PREFIX ==> Traced(cat, k, m[k])
  }

  lemma {:induction false} ExactTraceable(cat: Catalog, db: Database, m: KeySpace)
    requires Exact(cat, db, m)
    ensures Traceable(cat, m)
  {
    hide Exact, Owns;
    forall k | k in m && |k| > 0 && k[0] == SECONDARY_PREFIX ensures Traced(cat, k, m[k]) {
      ExactAt(cat, db, m, k);
      assert Lookup(m, k) == Some(m[k]);
      ExpectedTraced(cat, db, k);
    }
  }

  /** What a database requires under an index key is the entry of one of its rows. */
  lemma {:induction false} ExpectedTraced(cat: Catalog, db: Database, k: ByteString)
    requires |k| > 0 && k[0] == SECONDARY_PREFIX && Expected(cat, db, k).Some?
    ensures Traced(cat, k, Expected(cat, db, k).value)
  {
    hide Owns;
    var ref :| ref in db && Owns(cat, ref, db[ref], k) && Expected(cat, db, k) == Some(ValueOf(ref.pk, k));
  }

  lemma {:induction false} ChangeKeepsCover(cat: Catalog, db: Database, m: KeySpace, ref: RowRef, p: Pending)
    requires WellCatalogued(cat) && GoodPending(cat, ref, p) && Covers(cat, db, m) && Lookup(db, ref) == p.prior
    ensures Covers(cat, Changed(db, ref, p), Run(m, ScanOpsOf(cat[ref.table], ref.pk, p)))
  {
    hide Owns, Expected, ScanOpsOf, Run, RowFits;
    var db', m' := Changed(db, ref, p), Run(m, ScanOpsOf(cat[ref.table], ref.pk, p));
    forall k | IsDerived(k) && (k[0] == SCAN_PREFIX || Expected(cat, db', k).Some?)
      ensures Lookup(m', k) == Expected(cat, db', k)
    {
      ScanOpsEffect(cat, ref, p, m, k);
      if p.next.Some? && Owns(cat, ref, p.next.value, k) {
        ExpectedOwner(cat, db', ref, k);
      } else {
        if k[0] != SCAN_PREFIX {
          CoveredBefore(cat, db, ref, p, k);
        }
        assert Lookup(m, k) == Expected(cat, db, k);
        ExpectedAfter(cat, db, m, ref, p, k);
      }
    }
  }

  /** A required entry afterwards was required before, or the change adds it. */
  lemma {:induction false} CoveredBefore(cat: Catalog, db: Database, ref: RowRef, p: Pending, k: ByteString)
    requires WellCatalogued(cat) && Lookup(db, ref) == p.prior && Expected(cat, Changed(db, ref, p), k).Some?
    ensures (p.next.Some? && Owns(cat, ref, p.next.value, k)) || Expected(cat, db, k).Some?
  {
    hide Owns, ValueOf;
    var db' := Changed(db, ref, p);
    var x :| x in db' && Owns(cat, x, db'[x], k);
    if x != ref {
      assert db'[x] == db[x];
      ExpectedOwner(cat, db, x, k);
    }
  }

  // ------------------------------------------------------- batches of changes

  /** One row's change. */
  datatype Change = Change(ref: RowRef, row: Pending)

  /** Changes to distinct rows of catalogued tables. */
  ghost predicate GoodBatch(cat: Catalog, changes: seq<Change>)
  {
    (forall i {:trigger changes[i]} :: 0 <= i < |changes| ==> GoodPending(cat, changes[i].ref, changes[i].row)) &&
    (forall i, j :: 0 <= i < j < |changes| ==> changes[i].ref != changes[j].ref)
  }

  ghost function BatchScanOps(cat: Catalog, changes: seq<Change>): seq<ScanOp>
    requires GoodBatch(cat, changes)
    decreases |changes|
  {
    if changes == [] then []
    else
      var c := changes[|changes| - 1];
      BatchScanOps(cat, changes[..|changes| - 1]) + ScanOpsOf(cat[c.ref.table], c.ref.pk, c.row)
  }

  ghost function BatchRowOps(changes: seq<Change>): seq<RowOp>
    decreases |changes|
  {
    if changes == [] then []
    else BatchRowOps(changes[..|changes| - 1]) + RowOpsOf(changes[|changes| - 1].ref, changes[|changes| - 1].row)
  }

  /** The database after a batch. */
  ghost function ChangedAll(db: Database, changes: seq<Change>): Database
    decreases |changes|
  {
    if changes == [] then db
    else Changed(ChangedAll(db, changes[..|changes| - 1]), changes[|changes| - 1].ref, changes[|changes| - 1].row)
  }

  /** Every change is based on the committed row. */
  ghost predicate Based(db: Database, changes: seq<Change>)
  {
    forall i {:trigger changes[i]} :: 0 <= i < |changes| ==> Lookup(db, changes[i].ref) == changes[i].row.prior
  }

  lemma {:induction false} RestUntouched(db: Database, changes: seq<Change>, ref: RowRef)
    requires forall i {:trigger changes[i]} :: 0 <= i < |changes| ==> changes[i].ref != ref
    ensures Lookup(ChangedAll(db, changes), ref) == Lookup(db, ref)
    decreases |changes|
  {
    if changes != [] {
      var n := |changes| - 1;
      assert changes[n].ref != ref;
      assert forall i :: 0 <= i < n ==> changes[..n][i] == changes[i];
      RestUntouched(db, changes[..n], ref);
    }
  }

  lemma {:induction false} BatchInit(cat: Catalog, changes: seq<Change>)
    requires GoodBatch(cat, changes) && changes != []
    ensures var n := |changes| - 1;
            GoodBatch(cat, changes[..n]) && GoodPending(cat, changes[n].ref, changes[n].row) &&
            forall i {:trigger changes[..n][i]} :: 0 <= i < n ==> changes[..n][i].ref != changes[n].ref
  {
    var n := |changes| - 1;
    assert changes[n] == changes[n];
    assert forall i :: 0 <= i < n ==> changes[..n][i] == changes[i];
  }

  /** Each touched row ends as its change says. */
  lemma {:induction false} TouchedRow(cat: Catalog, db: Database, changes: seq<Change>, i: nat)
    requires GoodBatch(cat, changes) && i < |changes|
    ensures Lookup(ChangedAll(db, changes), changes[i].ref) == changes[i].row.next
    decreases |changes|
  {
    var n := |changes| - 1;
    BatchInit(cat, changes);
    if i < n {
      assert changes[..n][i].ref != changes[n].ref;
      TouchedRow(cat, db, changes[..n], i);
    }
  }

  /** A batch based on committed rows keeps a covering keyspace covering. */
  lemma {:induction false} BatchKeepsCover(cat: Catalog, db: Database, m: KeySpace, changes: seq<Change>)
    requires WellCatalogued(cat) && GoodBatch(cat, changes) && Based(db, changes) && Covers(cat, db, m)
    ensures Covers(cat, ChangedAll(db, changes), Run(m, BatchScanOps(cat, changes)))
    decreases |changes|
  {
    hide Covers, Run, ScanOpsOf, GoodPending, WellCatalogued, Changed;
    if changes == [] {
      RunNothing(m);
    } else {
      var n := |changes| - 1;
      var c := changes[n];
      BatchInit(cat, changes);
      assert forall i :: 0 <= i < n ==> changes[..n][i] == changes[i];
      BatchKeepsCover(cat, db, m, changes[..n]);
      RestUntouched(db, changes[..n], c.ref);
      RunConcat(m, BatchScanOps(cat, changes[..n]), ScanOpsOf(cat[c.ref.table], c.ref.pk, c.row));
      ChangeKeepsCover(cat, ChangedAll(db, changes[..n]), Run(m, BatchScanOps(cat, changes[..n])), c.ref, c.row);
    }
  }

  // ----------------------------------------------------- pointwise batch effect

  ghost predicate Adds(cat: Catalog, c: Change, k: ByteString)
  {
    c.row.next.Some? && Owns(cat, c.ref, c.row.next.value, k)
  }

  ghost predicate Drops(cat: Catalog, c: Change, k: ByteString)
  {
    c.row.prior.Some? && Owns(cat, c.ref, c.row.prior.value, k)
  }

  /** What a batch leaves at k. */
  lemma {:induction false} BatchEffect(cat: Catalog, m: KeySpace, changes: seq<Change>, k: ByteString)
    requires WellCatalogued(cat) && GoodBatch(cat, changes)
    ensures (forall i {:trigger changes[i]} ::
               0 <= i < |changes| ==> !Adds(cat, changes[i], k) && !Drops(cat, changes[i], k)) ==>
              Lookup(Run(m, BatchScanOps(cat, changes)), k) == Lookup(m, k)
    ensures forall i {:trigger changes[i]} ::
              0 <= i < |changes| && (Adds(cat, changes[i], k) || Drops(cat, changes[i], k)) ==>
              Lookup(Run(m, BatchScanOps(cat, changes)), k) ==
              if Adds(cat, changes[i], k) then Some(ValueOf(changes[i].ref.pk, k)) else None
    decreases |changes|
  {
    hide Run, ScanOpsOf, GoodPending, WellCatalogued, Owns, ValueOf;
    if changes == [] {
      RunNothing(m);
    } else {
      var n := |changes| - 1;
      var c, init := changes[n], changes[..n];
      BatchInit(cat, changes);
      BatchEffect(cat, m, init, k);
      assert forall i :: 0 <= i < n ==> init[i] == changes[i];
      RunConcat(m, BatchScanOps(cat, init), ScanOpsOf(cat[c.ref.table], c.ref.pk, c.row));
      ScanOpsEffect(cat, c.ref, c.row, Run(m, BatchScanOps(cat, init)), k);
      if Adds(cat, c, k) || Drops(cat, c, k) {
        forall i | 0 <= i < n ensures !Adds(cat, init[i], k) && !Drops(cat, init[i], k) {
          OneToucher(cat, c, init[i], k);
        }
      }
    }
  }

  /** A batch writes entries of rows only, whatever it is based on. */
  lemma {:induction false} BatchKeepsTrace(cat: Catalog, m: KeySpace, changes: seq<Change>)
    requires WellCatalogued(cat) && GoodBatch(cat, changes) && Traceable(cat, m)
    ensures Traceable(cat, Run(m, BatchScanOps(cat, changes)))
  {
    hide Owns, Run, BatchScanOps, WellCatalogued, GoodBatch;
    var m' := Run(m, BatchScanOps(cat, changes));
    forall k | k in m' && |k| > 0 && k[0] == SECONDARY_PREFIX ensures Traced(cat, k, m'[k]) {
      BatchEffect(cat, m, changes, k);
      assert Lookup(m', k) == Some(m'[k]);
      if i :| 0 <= i < |changes| && Adds(cat, changes[i], k) {
        assert changes[i] == changes[i];
      } else {
        assert forall i :: 0 <= i < |changes| ==> !Drops(cat, changes[i], k) by {
          forall i | 0 <= i < |changes| ensures !Drops(cat, changes[i], k) {
            assert changes[i] == changes[i];
          }
        }
        assert Lookup(m, k) == Some(m[k]);
      }
    }
  }

  lemma {:induction false} OneToucher(cat: Catalog, a: Change, b: Change, k: ByteString)
    requires WellCatalogued(cat) && a.ref != b.ref && (Adds(cat, a, k) || Drops(cat, a, k))
    ensures !Adds(cat, b, k) && !Drops(cat, b, k)
  {
    hide Owns, WellCatalogued;
    var ra := if Adds(cat, a, k) then a.row.next.value else a.row.prior.value;
    if Adds(cat, b, k) {
      OwnerUnique(cat, a.ref, ra, b.ref, b.row.next.value, k);
    } else if Drops(cat, b, k) {
      OwnerUnique(cat, a.ref, ra, b.ref, b.row.prior.value, k);
    }
  }

  ghost predicate Touches(cat: Catalog, changes: seq<Change>, k: ByteString)
  {
    exists i {:trigger changes[i]} :: 0 <= i < |changes| && (Adds(cat, changes[i], k) || Drops(cat, changes[i], k))
  }

  /** A row that the batch changes owns k as it is committed. */
  ghost predicate Orphaned(cat: Catalog, db: Database, changes: seq<Change>, k: ByteString)
  {
    exists i {:trigger changes[i]} ::
      0 <= i < |changes| && changes[i].ref in db && Owns(cat, changes[i].ref, db[changes[i].ref], k)
  }

  /** Every row that owns k afterwards is one the batch writes, or an untouched one. */
  lemma {:induction false} OwnerAfter(cat: Catalog, db: Database, changes: seq<Change>, k: ByteString, x: RowRef)
    requires GoodBatch(cat, changes)
    requires x in ChangedAll(db, changes) && Owns(cat, x, ChangedAll(db, changes)[x], k)
    ensures (exists i :: 0 <= i < |changes| && changes[i].ref == x && Adds(cat, changes[i], k)) ||
            (x in db && Owns(cat, x, db[x], k) && forall i {:trigger changes[i]} :: 0 <= i < |changes| ==>
              changes[i].ref != x)
  {
    hide Owns, ChangedAll, GoodPending;
    if i :| 0 <= i < |changes| && changes[i].ref == x {
      TouchedRow(cat, db, changes, i);
    } else {
      RestUntouched(db, changes, x);
    }
  }

  /** What is required at k after a batch: what the batch writes where it touches k;
      elsewhere as before, except for the entries of the rows it changes. */
  lemma {:induction false} BatchExpected(cat: Catalog, db: Database, m: KeySpace, changes: seq<Change>, k: ByteString)
    requires WellCatalogued(cat) && GoodBatch(cat, changes)
    ensures Touches(cat, changes, k) ==>
              Expected(cat, ChangedAll(db, changes), k) == Lookup(Run(m, BatchScanOps(cat, changes)), k)
    ensures !Touches(cat, changes, k) ==> Lookup(Run(m, BatchScanOps(cat, changes)), k) == Lookup(m, k)
    ensures !Touches(cat, changes, k) ==>
              Expected(cat, ChangedAll(db, changes), k) == if Orphaned(cat, db, changes, k) then None
                                                           else Expected(cat, db, k)
  {
    hide Run, BatchScanOps, ChangedAll, ValueOf, Owns, GoodPending;
    BatchEffect(cat, m, changes, k);
    if Touches(cat, changes, k) {
      var i :| 0 <= i < |changes| && (Adds(cat, changes[i], k) || Drops(cat, changes[i], k));
      TouchedExpected(cat, db, changes, i, k);
    } else {
      UntouchedExpected(cat, db, changes, k);
    }
  }

  lemma {:induction false} TouchedExpected(cat: Catalog, db: Database, changes: seq<Change>, i: nat, k: ByteString)
    requires WellCatalogued(cat) && GoodBatch(cat, changes) && i < |changes|
    requires Adds(cat, changes[i], k) || Drops(cat, changes[i], k)
    ensures Expected(cat, ChangedAll(db, changes), k)
         == if Adds(cat, changes[i], k) then Some(ValueOf(changes[i].ref.pk, k)) else None
  {
    hide ChangedAll, ValueOf, Owns, GoodBatch, WellCatalogued;
    var db', c := ChangedAll(db, changes), changes[i];
    TouchedRow(cat, db, changes, i);
    if Adds(cat, c, k) {
      ExpectedOwner(cat, db', c.ref, k);
    } else {
      forall x | x in db' ensures !Owns(cat, x, db'[x], k) {
        if Owns(cat, x, db'[x], k) {
          OwnerUnique(cat, x, db'[x], c.ref, c.row.prior.value, k);
        }
      }
    }
  }

  lemma {:induction false} UntouchedExpected(cat: Catalog, db: Database, changes: seq<Change>, k: ByteString)
    requires WellCatalogued(cat) && GoodBatch(cat, changes) && !Touches(cat, changes, k)
    ensures Expected(cat, ChangedAll(db, changes), k) == if Orphaned(cat, db, changes, k) then None
                                                         else Expected(cat, db, k)
  {
    hide ChangedAll, ValueOf, Owns, GoodBatch, WellCatalogued, Adds, Drops;
    var db' := ChangedAll(db, changes);
    if Orphaned(cat, db, changes, k) {
      var i :| 0 <= i < |changes| && changes[i].ref in db && Owns(cat, changes[i].ref, db[changes[i].ref], k);
      forall x | x in db' ensures !Owns(cat, x, db'[x], k) {
        if Owns(cat, x, db'[x], k) {
          OwnerAfter(cat, db, changes, k, x);
          OwnerUnique(cat, x, db[x], changes[i].ref, db[changes[i].ref], k);
        }
      }
    } else {
      forall x | x in db' && Owns(cat, x, db'[x], k) ensures x in db && Owns(cat, x, db[x], k) {
        OwnerAfter(cat, db, changes, k, x);
      }
      if x :| x in db && Owns(cat, x, db[x], k) {
        assert forall i {:trigger changes[i]} :: 0 <= i < |changes| ==> changes[i].ref != x;
        RestUntouched(db, changes, x);
        ExpectedOwner(cat, db, x, k);
        ExpectedOwner(cat, db', x, k);
      }
    }
  }

  /** After a completed commit, whatever its changes were based on, the keyspace is
      exact if and only if beforehand every key the commit does not itself write was
      empty where it belongs to a row being changed, and exact elsewhere. */
  lemma {:induction false} ExactAfterCommitIff(cat: Catalog, db: Database, m: KeySpace, changes: seq<Change>)
    requires WellCatalogued(cat) && GoodBatch(cat, changes)
    ensures Exact(cat, ChangedAll(db, changes), Run(m, BatchScanOps(cat, changes)))
       <==> forall k {:trigger Lookup(m, k)} :: IsDerived(k) && !Touches(cat, changes, k) ==>
              Lookup(m, k) == if Orphaned(cat, db, changes, k) then None else Expected(cat, db, k)
  {
    hide Run, BatchScanOps, GoodBatch, WellCatalogued, Expected, ChangedAll, Touches, Orphaned, IsDerived;
    var db', m' := ChangedAll(db, changes), Run(m, BatchScanOps(cat, changes));
    forall k ensures Touches(cat, changes, k) ==> Expected(cat, db', k) == Lookup(m', k)
             ensures !Touches(cat, changes, k) ==> Lookup(m', k) == Lookup(m, k)
             ensures !Touches(cat, changes, k) ==>
                       Expected(cat, db', k) == if Orphaned(cat, db, changes, k) then None else Expected(cat, db, k)
    {
      BatchExpected(cat, db, m, changes, k);
    }
    if Exact(cat, db', m') {
      forall k | IsDerived(k) && !Touches(cat, changes, k)
        ensures Lookup(m, k) == if Orphaned(cat, db, changes, k) then None else Expected(cat, db, k)
      {
        assert Lookup(m', k) == Expected(cat, db', k);
      }
    }
  }

  /** The change writes or unsets every entry of the row it finds committed. */
  ghost predicate Retracts(cat: Catalog, db: Database, c: Change)
  {
    c.ref in db ==> forall k {:trigger Owns(cat, c.ref, db[c.ref], k)} ::
                      Owns(cat, c.ref, db[c.ref], k) ==> Adds(cat, c, k) || Drops(cat, c, k)
  }

  ghost predicate RetractsAll(cat: Catalog, db: Database, changes: seq<Change>)
  {
    forall i {:trigger changes[i]} :: 0 <= i < |changes| ==> Retracts(cat, db, changes[i])
  }

  /** From an exact keyspace a batch leads to an exact one if and only if every change
      accounts for all entries of the committed row it replaces. */
  lemma {:induction false} StaysExactIff(cat: Catalog, db: Database, m: KeySpace, changes: seq<Change>)
    requires WellCatalogued(cat) && GoodBatch(cat, changes) && Exact(cat, db, m)
    ensures Exact(cat, ChangedAll(db, changes), Run(m, BatchScanOps(cat, changes))) <==> RetractsAll(cat, db, changes)
  {
    hide Run, BatchScanOps, GoodBatch, WellCatalogued, Expected, ChangedAll, Adds, Drops, Owns, IsDerived;
    ExactAfterCommitIff(cat, db, m, changes);
    if Exact(cat, ChangedAll(db, changes), Run(m, BatchScanOps(cat, changes))) {
      forall i, k | 0 <= i < |changes| && changes[i].ref in db && Owns(cat, changes[i].ref, db[changes[i].ref], k)
        ensures Adds(cat, changes[i], k) || Drops(cat, changes[i], k)
      {
        OrphanTouched(cat, db, m, changes, i, k);
      }
    }
    if RetractsAll(cat, db, changes) {
      forall k | IsDerived(k) && !Touches(cat, changes, k)
        ensures Lookup(m, k) == if Orphaned(cat, db, changes, k) then None else Expected(cat, db, k)
      {
        assert Lookup(m, k) == Expected(cat, db, k);
      }
    }
  }

  /** In an exact keyspace an entry of a changed row has to be touched, and only the
      row's own change can touch it. */
  lemma {:induction false} OrphanTouched(cat: Catalog, db: Database, m: KeySpace, changes: seq<Change>, i: nat,
                                         k: ByteString)
    requires WellCatalogued(cat) && GoodBatch(cat, changes) && Exact(cat, db, m) && i < |changes|
    requires changes[i].ref in db && Owns(cat, changes[i].ref, db[changes[i].ref], k)
    requires forall k {:trigger Lookup(m, k)} :: IsDerived(k) && !Touches(cat, changes, k) ==>
               Lookup(m, k) == if Orphaned(cat, db, changes, k) then None else Expected(cat, db, k)
    ensures Adds(cat, changes[i], k) || Drops(cat, changes[i], k)
  {
    hide WellCatalogued, Expected, Owns, IsDerived, GoodPending;
    OwnedIsDerived(cat, changes[i].ref, db[changes[i].ref], k);
    ExpectedOwner(cat, db, changes[i].ref, k);
    assert Lookup(m, k) == Expected(cat, db, k);
    assert Orphaned(cat, db, changes, k);
    var j :| 0 <= j < |changes| && (Adds(cat, changes[j], k) || Drops(cat, changes[j], k));
    var row := if Adds(cat, changes[j], k) then changes[j].row.next.value else changes[j].row.prior.value;
    OwnerUnique(cat, changes[i].ref, db[changes[i].ref], changes[j].ref, row, k);
  }

  /** A change based on the committed row accounts for its entries. */
  lemma {:induction false} BasedRetracts(cat: Catalog, db: Database, changes: seq<Change>)
    requires Based(db, changes)
    ensures RetractsAll(cat, db, changes)
  {
    hide Owns;
    forall i | 0 <= i < |changes| ensures Retracts(cat, db, changes[i]) {
      assert Lookup(db, changes[i].ref) == changes[i].row.prior;
    }
  }

  /** So a batch based on committed rows keeps the keyspace exact. */
  lemma {:induction false} BatchKeepsExact(cat: Catalog, db: Database, m: KeySpace, changes: seq<Change>)
    requires WellCatalogued(cat) && GoodBatch(cat, changes) && Based(db, changes) && Exact(cat, db, m)
    ensures Exact(cat, ChangedAll(db, changes), Run(m, BatchScanOps(cat, changes)))
  {
    hide Exact, Run, BatchScanOps, GoodBatch, WellCatalogued, ChangedAll, Based, RetractsAll;
    BasedRetracts(cat, db, changes);
    StaysExactIff(cat, db, m, changes);
  }

  lemma {:induction false} OneChange(db: Database, c: Change)
    ensures ChangedAll(db, [c]) == Changed(db, c.ref, c.row)
  {
    assert [c][..0] == [];
  }

  lemma {:induction false} FreshKeyMissing(cat: Catalog, db: Database, m: KeySpace, a: Change, k: ByteString)
    requires WellCatalogued(cat) && GoodBatch(cat, [a]) && Exact(cat, db, m) && a.row.next.Some? && a.ref !in db
    requires k == ScanKey(a.ref.table, a.ref.pk)
    ensures Owns(cat, a.ref, a.row.next.value, k) && Lookup(m, k) == None
  {
    hide ScanKey, WellCatalogued;
    assert [a][0] == a;
    KeyTags(a.ref.table, a.ref.pk, IndexDef(0, false, []), a.row.next.value);
    forall x | x in db ensures !Owns(cat, x, db[x], k) {
      if Owns(cat, x, db[x], k) {
        OwnerUnique(cat, x, db[x], a.ref, a.row.next.value, k);
      }
    }
    assert Lookup(m, k) == Expected(cat, db, k);
  }

  /** Row operations of a batch without net no-ops make exactly its changes. */
  lemma {:induction false} RowOpsMakeChanges(db: Database, changes: seq<Change>)
    requires forall i {:trigger changes[i]} :: 0 <= i < |changes| ==> !NetNoOp(changes[i].row)
    ensures RunRows(db, BatchRowOps(changes)) == ChangedAll(db, changes)
    decreases |changes|
  {
    hide RunRows, RowOpsOf, Changed;
    if changes == [] {
      RunNoRows(db);
    } else {
      var n := |changes| - 1;
      assert !NetNoOp(changes[n].row);
      assert forall i :: 0 <= i < n ==> changes[..n][i] == changes[i];
      RowOpsMakeChanges(db, changes[..n]);
      OneRowOp(db, BatchRowOps(changes[..n]), changes[n].ref, changes[n].row);
    }
  }

  lemma {:induction false} RunNoRows(db: Database)
    ensures RunRows(db, []) == db
  {
  }

  lemma {:induction false} OneRowOp(db: Database, before: seq<RowOp>, ref: RowRef, p: Pending)
    requires !NetNoOp(p)
    ensures RunRows(db, before + RowOpsOf(ref, p)) == Changed(RunRows(db, before), ref, p)
  {
    var ops := before + RowOpsOf(ref, p);
    assert ops[..|ops| - 1] == before;
  }
}

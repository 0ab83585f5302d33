/** The SQL store: one commit is a ledger write followed by a derived write that
    may be lost.  */
module SqlStorage {
  import opened Hashing
  import opened ByteStrings
  import opened KeyCodec
  import opened Tables
  import opened Keyspaces
  import opened Derived

  const SCAN_CHUNK: nat := 512

  datatype Failure =
    | Conflict            // a touched row or unique value changed underneath
    | TableDropped
    | DuplicateKey
    | UniqueViolation
    | ReadOnly
    | BadRow              // a row the codec refuses
    | LedgerFailed        // the ledger call failed; nothing was written
    | DerivedFailed       // the ledger committed, the derived write failed
    | ReadFailed          // a backend read failed; nothing was written
    | NoTransaction
    | NoSavepoint

  datatype Reply = Done | Failed(why: Failure)

  /** The marker of the ledger version the derived keyspace was written for. */
  function Marker(version: nat): ScanOp
  {
    Set([META_KEY], BigEndian(version, 8))
  }

  function AppliedVersion(m: KeySpace): nat
  {
    if [META_KEY] in m && |m[[META_KEY]]| == 8 then FromBigEndian(m[[META_KEY]]) else 0
  }

  // ------------------------------------------------------- clearing the space

  lemma {:induction false} OneByte(k: ByteString, b: Byte)
    requires |k| > 0
    ensures Less(k, [b]) <==> k[0] < b
  {
    var one := [b];
    assert one[1..] == [];
    assert !Less(k[1..], one[1..]);
  }

  /** [ 'i', 'j' ) is the scan space. */
  lemma {:induction false} ScanSpaceIs(k: ByteString)
    ensures Between([SCAN_PREFIX], k, [META_KEY]) <==> |k| > 0 && k[0] == SCAN_PREFIX
  {
    if |k| > 0 {
      OneByte(k, SCAN_PREFIX);
      OneByte(k, META_KEY);
    }
  }

  method Deletions(kvs: seq<KV>) returns (ops: seq<ScanOp>)
    ensures |ops| == |kvs| && forall i {:trigger ops[i]} :: 0 <= i < |kvs| ==> ops[i] == Unset(kvs[i].key)
  {
    ops := [];
    for i := 0 to |kvs|
      invariant |ops| == i && forall j {:trigger ops[j]} :: 0 <= j < i ==> ops[j] == Unset(kvs[j].key)
    {
      ops := ops + [Unset(kvs[i].key)];
    }
  }

  lemma {:induction false} DeletionsEffect(m: KeySpace, kvs: seq<KV>, ops: seq<ScanOp>, k: ByteString)
    requires |ops| == |kvs| && forall i {:trigger ops[i]} :: 0 <= i < |kvs| ==> ops[i] == Unset(kvs[i].key)
    ensures Lookup(Run(m, ops), k) == if exists i :: 0 <= i < |kvs| && kvs[i].key == k then None else Lookup(m, k)
    decreases |ops|
  {
    if ops != [] {
      var n := |ops| - 1;
      DeletionsEffect(m, kvs[..n], ops[..n], k);
      assert ops[n] == Unset(kvs[n].key);
      assert forall i :: 0 <= i < n ==> kvs[..n][i] == kvs[i];
    }
  }

  /** m' is m without some of its scan-space entries. */
  ghost predicate PartlyCleared(m: KeySpace, m': KeySpace)
  {
    forall k {:trigger Lookup(m', k)} ::
      Lookup(m', k) == Lookup(m, k) || (|k| > 0 && k[0] == SCAN_PREFIX && Lookup(m', k) == None)
  }

  ghost predicate ScanSpaceEmpty(m: KeySpace)
  {
    forall k {:trigger k in m} :: k in m && |k| > 0 ==> k[0] != SCAN_PREFIX
  }

  lemma {:induction false} ClearChunk(m0: KeySpace, m1: KeySpace, kvs: seq<KV>, ops: seq<ScanOp>, limit: nat)
    requires PartlyCleared(m0, m1) && FirstOf(kvs, m1, [SCAN_PREFIX], [META_KEY], limit) && limit > 0
    requires |ops| == |kvs| && forall i {:trigger ops[i]} :: 0 <= i < |kvs| ==> ops[i] == Unset(kvs[i].key)
    ensures PartlyCleared(m0, Run(m1, ops))
    ensures |kvs| < limit ==> ScanSpaceEmpty(Run(m1, ops))
    ensures |kvs| > 0 ==> |Run(m1, ops)| < |m1|
  {
    hide Run, Between;
    var m2 := Run(m1, ops);
    forall k ensures Lookup(m2, k) == Lookup(m0, k) || (|k| > 0 && k[0] == SCAN_PREFIX && Lookup(m2, k) == None) {
      DeletionsEffect(m1, kvs, ops, k);
      assert Lookup(m1, k) == Lookup(m0, k) || (|k| > 0 && k[0] == SCAN_PREFIX && Lookup(m1, k) == None);
      if i :| 0 <= i < |kvs| && kvs[i].key == k {
        assert kvs[i].key in InRange(m1, [SCAN_PREFIX], [META_KEY]);
        ScanSpaceIs(k);
      }
    }
    if |kvs| < limit {
      forall k | k in m2 && |k| > 0 ensures k[0] != SCAN_PREFIX {
        DeletionsEffect(m1, kvs, ops, k);
        ScanSpaceIs(k);
        assert k in InRange(m1, [SCAN_PREFIX], [META_KEY]) <==> k in m1 && k[0] == SCAN_PREFIX;
      }
    }
    if |kvs| > 0 {
      ShrinksBy(m1, m2, kvs, ops);
    }
  }

  lemma {:induction false} ShrinksBy(m1: KeySpace, m2: KeySpace, kvs: seq<KV>, ops: seq<ScanOp>)
    requires |ops| == |kvs| > 0 && (forall i {:trigger ops[i]} :: 0 <= i < |kvs| ==> ops[i] == Unset(kvs[i].key))
    requires m2 == Run(m1, ops) && kvs[0].key in m1
    ensures |m2| < |m1|
  {
    hide Run;
    var k := kvs[0].key;
    DeletionsEffect(m1, kvs, ops, k);
    forall x | x in m2 ensures x in m1 {
      DeletionsEffect(m1, kvs, ops, x);
    }
    KeysShrink(m1.Keys, m2.Keys, k);
  }

  lemma {:induction false} KeysShrink(a: set<ByteString>, b: set<ByteString>, k: ByteString)
    requires b <= a && k in a && k !in b
    ensures |b| < |a|
  {
    assert a == b + (a - b) && k in a - b;
    assert |a| == |b| + |a - b|;
  }

  /** Drops the whole scan space, chunk by chunk. */
  method ClearScanSpace(keyspace: Keyspace) returns (ok: bool)
    modifies keyspace
    ensures !ok ==> !keyspace.reliable
    ensures PartlyCleared(old(keyspace.entries), keyspace.entries)
    ensures ok ==> ScanSpaceEmpty(keyspace.entries)
  {
    hide PartlyCleared, ScanSpaceEmpty, FirstOf, Run;
    ghost var m0 := keyspace.entries;
    NothingCleared(m0);
    while true
      invariant PartlyCleared(m0, keyspace.entries)
      decreases |keyspace.entries|
    {
      var scan := keyspace.Scan([SCAN_PREFIX], [META_KEY], SCAN_CHUNK);
      if scan.Err? {
        return false;
      }
      var kvs := scan.value;
      var ops := Deletions(kvs);
      ClearChunk(m0, keyspace.entries, kvs, ops, SCAN_CHUNK);
      if |kvs| == 0 {
        NoOps(keyspace.entries, ops);
        return true;
      }
      var ok1 := keyspace.WriteBatch(ops);
      if !ok1 {
        return false;
      }
      if |kvs| < SCAN_CHUNK {
        return true;
      }
    }
  }

  lemma {:induction false} NothingCleared(m: KeySpace)
    ensures PartlyCleared(m, m)
  {
  }

  lemma {:induction false} NoOps(m: KeySpace, ops: seq<ScanOp>)
    requires |ops| == 0
    ensures Run(m, ops) == m
  {
  }

  // ---------------------------------------------------------------- the store

  lemma {:induction false} MarkerReads(m: KeySpace, version: Word)
    requires Lookup(m, [META_KEY]) == Some(BigEndian(version, 8))
    ensures AppliedVersion(m) == version
  {
    hide BigEndian, FromBigEndian;
    WordOrder(version, version);
  }

  lemma {:induction false} MarkerKeepsExact(cat: Catalog, db: Database, m: KeySpace, ops: seq<ScanOp>, version: nat)
    ensures Exact(cat, db, Run(m, ops + [Marker(version)])) <==> Exact(cat, db, Run(m, ops))
  {
    hide Run, Expected, BigEndian;
    RunConcat(m, ops, [Marker(version)]);
    var m1, m2 := Run(m, ops), Run(m, ops + [Marker(version)]);
    forall k | IsDerived(k) ensures Lookup(m2, k) == Lookup(m1, k) {
      OneOp(m1, Marker(version), k);
    }
    if Exact(cat, db, m2) {
      forall k | IsDerived(k) ensures Lookup(m1, k) == Expected(cat, db, k) {
        assert Lookup(m2, k) == Expected(cat, db, k);
      }
    }
  }

  lemma {:induction false} MarkerKeepsCovers(cat: Catalog, db: Database, m: KeySpace, ops: seq<ScanOp>, version: nat)
    requires Covers(cat, db, Run(m, ops))
    ensures Covers(cat, db, Run(m, ops + [Marker(version)]))
  {
    hide Run, Expected, BigEndian;
    RunConcat(m, ops, [Marker(version)]);
    var m1, m2 := Run(m, ops), Run(m, ops + [Marker(version)]);
    forall k | IsDerived(k) && (k[0] == SCAN_PREFIX || Expected(cat, db, k).Some?)
      ensures Lookup(m2, k) == Expected(cat, db, k)
    {
      OneOp(m1, Marker(version), k);
      assert Lookup(m1, k) == Expected(cat, db, k);
    }
  }

  lemma {:induction false} MarkerKeepsTrace(cat: Catalog, m: KeySpace, ops: seq<ScanOp>, version: nat)
    requires Traceable(cat, Run(m, ops))
    ensures Traceable(cat, Run(m, ops + [Marker(version)]))
  {
    hide Run, Traced, BigEndian;
    RunConcat(m, ops, [Marker(version)]);
    var m1, m2 := Run(m, ops), Run(m, ops + [Marker(version)]);
    forall k | k in m2 && |k| > 0 && k[0] == SECONDARY_PREFIX ensures Traced(cat, k, m2[k]) {
      OneOp(m1, Marker(version), k);
      assert Lookup(m2, k) == Some(m2[k]) == Lookup(m1, k) == Some(m1[k]);
    }
  }

  /** A derived write that failed is never made up for by later commits: the next
      completed commit marks the keyspace current while the entry is missing. */
  lemma {:induction false} LostDerivedWrite(cat: Catalog, db: Database, m: KeySpace, a: Change, b: Change,
                                            version: Word)
    requires WellCatalogued(cat) && GoodBatch(cat, [a]) && GoodBatch(cat, [b]) && a.ref != b.ref
    requires Exact(cat, db, m) && a.row.prior.None? && a.row.next.Some? && a.ref !in db
    requires Lookup(db, b.ref) == b.row.prior
    ensures var (db', m') := (ChangedAll(ChangedAll(db, [a]), [b]), Run(m, BatchScanOps(cat, [b]) + [Marker(version)]));
            AppliedVersion(m') == version && !Exact(cat, db', m')
  {
    hide Run, BatchScanOps, WellCatalogued, Expected, ScanKey, Exact, ChangedAll, AppliedVersion, BigEndian;
    var db1 := ChangedAll(db, [a]);
    var k := ScanKey(a.ref.table, a.ref.pk);
    assert [a][0] == a && [b][0] == b;
    OneChange(db, a);
    RestUntouched(db, [a], b.ref);
    FreshKeyMissing(cat, db, m, a, k);
    assert Adds(cat, a, k);
    OneToucher(cat, a, b, k);
    ExactAfterCommitIff(cat, db1, m, [b]);
    ExpectedOwner(cat, db1, a.ref, k);
    assert IsDerived(k) by {
      KeyTags(a.ref.table, a.ref.pk, IndexDef(0, false, []), a.row.next.value);
    }
    assert !Touches(cat, [b], k);
    MarkerKeepsExact(cat, ChangedAll(db1, [b]), m, BatchScanOps(cat, [b]), version);
    MarkedLast(m, BatchScanOps(cat, [b]), version);
    MarkerReads(Run(m, BatchScanOps(cat, [b]) + [Marker(version)]), version);
  }

  lemma {:induction false} MarkedLast(m: KeySpace, ops: seq<ScanOp>, version: nat)
    ensures Lookup(Run(m, ops + [Marker(version)]), [META_KEY]) == Some(BigEndian(version, 8))
  {
    hide Run;
    RunConcat(m, ops, [Marker(version)]);
    OneOp(Run(m, ops), Marker(version), [META_KEY]);
  }

  class SqlStore {
    const cat: Catalog
    const keyspace: Keyspace
    const ledgerReliable: bool
    var version: nat
    var rows: Database

    ghost predicate Valid()
      reads this
    {
      WellCatalogued(cat) && GoodDb(cat, rows) && version < TWO_64
    }

    constructor (cat: Catalog, keyspace: Keyspace, ledgerReliable: bool)
      requires WellCatalogued(cat)
      ensures Valid() && this.cat == cat && this.keyspace == keyspace && this.ledgerReliable == ledgerReliable
      ensures version == 0 && rows == map[]
    {
      this.cat, this.keyspace, this.ledgerReliable := cat, keyspace, ledgerReliable;
      version, rows := 0, map[];
    }

    /** One ledger batch, then the derived batch with the version marker. */
    method Commit(rowOps: seq<RowOp>, scanOps: seq<ScanOp>) returns (r: Reply)
      modifies this, keyspace
      ensures r == Done || r == Failed(LedgerFailed) || r == Failed(DerivedFailed)
      ensures r == Failed(LedgerFailed) ==>
                !ledgerReliable && rows == old(rows) && version == old(version) &&
                keyspace.entries == old(keyspace.entries)
      ensures r != Failed(LedgerFailed) ==>
                rows == RunRows(old(rows), rowOps) && version == old(version) + if rows == old(rows) then 0 else 1
      ensures r == Failed(DerivedFailed) ==> !keyspace.reliable && keyspace.entries == old(keyspace.entries)
      ensures r == Done ==> keyspace.entries == Run(old(keyspace.entries), scanOps + [Marker(version)])
    {
      hide Run, RunRows;
      var fails: bool := *;
      if !ledgerReliable && fails {
        return Failed(LedgerFailed);
      }
      var after := RunRows(rows, rowOps);
      if after != rows {
        rows, version := after, version + 1;
      }
      var ok := keyspace.WriteBatch(scanOps + [Marker(version)]);
      return if ok then Done else Failed(DerivedFailed);
    }
  }
}

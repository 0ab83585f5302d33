/** SQL rows as ledger contents: a batch of row operations is a ledger batch that
    changes exactly those rows.  */
module RowsInLedger {
  import opened Hashing
  import opened SparseMerkle
  import opened Records
  import opened KeyCodec
  import opened Tables
  import opened RowCodec
  import opened Derived
  import B = Batches
  import L = LedgerStore
  import Runs
  import R = Reading
  import T = Transactions
  import U = Updates

  const TAG_ROW: Byte := 3

  function Chars(b: ByteString): (s: string)
    ensures |s| == |b| && forall i :: 0 <= i < |b| ==> s[i] == b[i] as char
  {
    seq(|b|, i requires 0 <= i < |b| => b[i] as char)
  }

  /** The logical ledger key of a row. */
  function LedgerKey(ref: RowRef): string
  {
    "sql/r/" + (Chars(BigEndian(ref.table, 8)) + Chars(ref.pk))
  }

  /** The bytes of a row in the ledger: tag, table, columns. */
  function Payload(ref: RowRef, row: Row): Value
  {
    Bytes([TAG_ROW] + BigEndian(ref.table, 8) + EncodedRow(row))
  }

  function LedgerOp(op: RowOp): B.Op
  {
    match op
    case PutRow(ref, row) => B.Put(LedgerKey(ref), Payload(ref, row))
    case DelRow(ref) => B.Del(LedgerKey(ref))
  }

  function LedgerOps(ops: seq<RowOp>): (r: seq<B.Op>)
    ensures |r| == |ops| && forall i {:trigger r[i]} :: 0 <= i < |ops| ==> r[i] == LedgerOp(ops[i])
  {
    seq(|ops|, i requires 0 <= i < |ops| => LedgerOp(ops[i]))
  }

  lemma {:induction false} CharsInjective(a: ByteString, b: ByteString)
    requires Chars(a) == Chars(b)
    ensures a == b
  {
    assert |a| == |b|;
    forall i | 0 <= i < |a| ensures a[i] == b[i] {
      assert Chars(a)[i] == Chars(b)[i];
    }
  }

  lemma {:induction false} LedgerKeyParts(ref: RowRef)
    ensures |LedgerKey(ref)| == 14 + |ref.pk| && LedgerKey(ref)[0] == 's'
    ensures LedgerKey(ref)[6..14] == Chars(BigEndian(ref.table, 8)) && LedgerKey(ref)[14..] == Chars(ref.pk)
  {
    hide BigEndian, Chars;
    var head, word, pk := "sql/r/", Chars(BigEndian(ref.table, 8)), Chars(ref.pk);
    assert LedgerKey(ref) == head + (word + pk);
    assert (word + pk)[..8] == word && (word + pk)[8..] == pk;
    assert LedgerKey(ref)[6..] == word + pk;
  }

  /** Different rows have different logical keys, and none of them is reserved. */
  lemma {:induction false} LedgerKeyInjective(a: RowRef, b: RowRef)
    ensures LedgerKey(a) == LedgerKey(b) ==> a == b
    ensures !(B.RESERVED_PREFIX <= LedgerKey(a))
  {
    hide BigEndian, LedgerKey, Chars;
    LedgerKeyParts(a);
    LedgerKeyParts(b);
    assert B.RESERVED_PREFIX[0] == '\0';
    if LedgerKey(a) == LedgerKey(b) {
      CharsInjective(BigEndian(a.table, 8), BigEndian(b.table, 8));
      CharsInjective(a.pk, b.pk);
      WordOrder(a.table, b.table);
    }
  }

  /** The rows at hand have distinct paths. */
  ghost predicate Apart(pathOf: string -> FullPath, refs: set<RowRef>)
  {
    forall a, b :: a in refs && b in refs && a != b ==> pathOf(LedgerKey(a)) != pathOf(LedgerKey(b))
  }

  ghost function StoredAs(db: Database, ref: RowRef): Option<Value>
  {
    if ref in db then Some(Payload(ref, db[ref])) else None
  }

  /** The contents hold the rows of db, as far as refs goes. */
  ghost predicate HoldsRows(m: LeafMap, pathOf: string -> FullPath, db: Database, refs: set<RowRef>)
  {
    forall ref {:trigger LedgerKey(ref)} :: ref in refs ==> R.ValueIn(m, pathOf(LedgerKey(ref))) == StoredAs(db, ref)
  }

  ghost predicate OpsWithin(ops: seq<RowOp>, refs: set<RowRef>)
  {
    forall i {:trigger ops[i]} :: 0 <= i < |ops| ==> ops[i].ref in refs
  }

  /** What a ledger batch leaves at a path. */
  lemma {:induction false} AskedAt(m: LeafMap, d: map<Path, Option<Value>>, v: nat, p: Path)
    requires Committed(m)
    ensures R.ValueIn(U.Override(m, B.UpdatesOf(d), v), p) == if p in d then d[p] else R.ValueIn(m, p)
  {
  }

  /** The deduplicated batch asks of each row what the row operations make of it. */
  lemma {:induction false} DedupedRow(pathOf: string -> FullPath, db: Database, refs: set<RowRef>, ops: seq<RowOp>,
                                      ref: RowRef)
    requires Apart(pathOf, refs) && OpsWithin(ops, refs) && ref in refs
    ensures var (d, p, after) := (B.Deduped(LedgerOps(ops), pathOf), pathOf(LedgerKey(ref)), RunRows(db, ops));
            if p in d then d[p] == StoredAs(after, ref) else StoredAs(after, ref) == StoredAs(db, ref)
    decreases |ops|
  {
    hide Payload, LedgerKey;
    if ops != [] {
      var n := |ops| - 1;
      var init, op := ops[..n], ops[n];
      assert OpsWithin(init, refs);
      DedupedRow(pathOf, db, refs, init, ref);
      assert LedgerOps(ops)[..n] == LedgerOps(init) && LedgerOps(ops)[n] == LedgerOp(op);
      assert op.ref in refs;
    }
  }

  /** Row operations applied as a ledger batch leave the contents holding exactly the
      changed rows. */
  lemma {:induction false} LedgerFollowsRows(m: LeafMap, pathOf: string -> FullPath, db: Database, refs: set<RowRef>,
                                             ops: seq<RowOp>, v: nat)
    requires Committed(m) && HoldsRows(m, pathOf, db, refs) && Apart(pathOf, refs) && OpsWithin(ops, refs)
    ensures HoldsRows(L.Requested(m, LedgerOps(ops), pathOf, v), pathOf, RunRows(db, ops), refs)
  {
    hide Payload, LedgerKey, RunRows, B.Deduped, R.ValueIn, U.Override, B.UpdatesOf;
    forall ref | ref in refs
      ensures R.ValueIn(L.Requested(m, LedgerOps(ops), pathOf, v), pathOf(LedgerKey(ref))) ==
              StoredAs(RunRows(db, ops), ref)
    {
      AskedAt(m, B.Deduped(LedgerOps(ops), pathOf), v, pathOf(LedgerKey(ref)));
      DedupedRow(pathOf, db, refs, ops, ref);
    }
  }

  lemma {:induction false} PayloadInjective(cat: Catalog, ref: RowRef, a: Row, b: Row)
    requires T.Storing(cat, ref, a) && T.Storing(cat, ref, b) && Payload(ref, a) == Payload(ref, b)
    ensures a == b
  {
    hide EncodedRow, BigEndian, PkOf;
    var pa, pb := Payload(ref, a).bytes, Payload(ref, b).bytes;
    assert pa[9..] == EncodedRow(a) && pb[9..] == EncodedRow(b);
    RowBytesInjective(cat[ref.table].kinds, a, b);
  }

  /** The ledger batch is a no-op exactly when the rows stay the same, so the version
      moves exactly when they change. */
  lemma {:induction false} NoOpIffRowsStay(cat: Catalog, m: LeafMap, pathOf: string -> FullPath, db: Database,
                                           refs: set<RowRef>, ops: seq<RowOp>, v: nat)
    requires Committed(m) && HoldsRows(m, pathOf, db, refs) && Apart(pathOf, refs) && OpsWithin(ops, refs)
    requires db.Keys <= refs
    requires T.GoodRows(cat, db) && T.GoodRows(cat, RunRows(db, ops))
    ensures L.Requested(m, LedgerOps(ops), pathOf, v) == m <==> RunRows(db, ops) == db
  {
    hide Payload, LedgerKey, RunRows, B.Deduped, T.Storing, U.Override, B.UpdatesOf, R.ValueIn;
    var after := RunRows(db, ops);
    if L.Requested(m, LedgerOps(ops), pathOf, v) == m {
      LedgerFollowsRows(m, pathOf, db, refs, ops, v);
      RowsWithin(db, refs, ops);
      forall ref | ref in refs ensures StoredAs(after, ref) == StoredAs(db, ref)
                               ensures ref in after <==> ref in db
                               ensures ref in after ==> after[ref] == db[ref]
      {
        assert LedgerKey(ref) == LedgerKey(ref);
        if ref in after && ref in db {
          assert T.Storing(cat, ref, after[ref]) && T.Storing(cat, ref, db[ref]);
          PayloadInjective(cat, ref, after[ref], db[ref]);
        }
      }
    }
    if after == db {
      SameRowsNothingAsked(m, pathOf, db, refs, ops, v);
    }
  }

  lemma {:induction false} RowsWithin(db: Database, refs: set<RowRef>, ops: seq<RowOp>)
    requires db.Keys <= refs && OpsWithin(ops, refs)
    ensures RunRows(db, ops).Keys <= refs
    decreases |ops|
  {
    if ops != [] {
      var n := |ops| - 1;
      assert ops[n].ref in refs;
      assert forall i :: 0 <= i < n ==> ops[..n][i] == ops[i];
      RowsWithin(db, refs, ops[..n]);
    }
  }

  lemma {:induction false} SameRowsNothingAsked(m: LeafMap, pathOf: string -> FullPath, db: Database, refs: set<RowRef>,
                                                ops: seq<RowOp>, v: nat)
    requires Committed(m) && HoldsRows(m, pathOf, db, refs) && Apart(pathOf, refs) && OpsWithin(ops, refs)
    requires RunRows(db, ops) == db
    ensures L.Requested(m, LedgerOps(ops), pathOf, v) == m
  {
    hide Payload, LedgerKey, RunRows, B.Deduped;
    var d := B.Deduped(LedgerOps(ops), pathOf);
    forall p | p in d ensures d[p] == R.ValueIn(m, p) {
      B.OnlyNamed(LedgerOps(ops), pathOf, p);
      var i :| 0 <= i < |LedgerOps(ops)| && pathOf(LedgerOps(ops)[i].key) == p;
      var ref := ops[i].ref;
      assert LedgerOps(ops)[i].key == LedgerKey(ref);
      DedupedRow(pathOf, db, refs, ops, ref);
    }
    SameValuesKeep(m, d, v);
  }

  lemma {:induction false} SameValuesKeep(m: LeafMap, d: map<Path, Option<Value>>, v: nat)
    requires Committed(m) && forall p :: p in d ==> d[p] == R.ValueIn(m, p)
    ensures U.Override(m, B.UpdatesOf(d), v) == m
  {
    forall p | p in m ensures m[p].vh == ValueMac(p, m[p].vh.plaintext) && R.ValueIn(m, p) == Some(m[p].vh.plaintext) {
    }
  }

  // ---------------------------------------------- contents that mirror the rows

  /** The table a tagged row value names; anything else names none. */
  function TaggedTable(value: Value): Option<Word>
  {
    if value.Bytes? && |value.bytes| >= 9 && value.bytes[0] == TAG_ROW then Some(EightByteWord(value.bytes[1..9]))
    else None
  }

  function EightByteWord(b: ByteString): Word
    requires |b| == 8
  {
    EightByteBound(b);
    EightBytes();
    FromBigEndian(b)
  }

  lemma {:induction false} PayloadParts(ref: RowRef, row: Row)
    ensures Payload(ref, row).Bytes? && |Payload(ref, row).bytes| >= 9
    ensures Payload(ref, row).bytes[9..] == EncodedRow(row)
    ensures TaggedTable(Payload(ref, row)) == Some(ref.table)
  {
    hide EncodedRow, BigEndian, FromBigEndian;
    var b := Payload(ref, row).bytes;
    assert b[1..9] == BigEndian(ref.table, 8) && b[9..] == EncodedRow(row);
    WordOrder(ref.table, ref.table);
  }

  ghost predicate OfTable(cat: Catalog, value: Option<Value>)
  {
    value.Some? && TaggedTable(value.value).Some? && TaggedTable(value.value).value in cat
  }

  ghost predicate StoresRow(m: LeafMap, pathOf: string -> FullPath, db: Database, p: Path, ref: RowRef)
  {
    ref in db && p == pathOf(LedgerKey(ref)) && R.ValueIn(m, p) == Some(Payload(ref, db[ref]))
  }

  /** A value that is tagged as a row of a catalogued table is that row. */
  ghost predicate OnlyRows(cat: Catalog, m: LeafMap, pathOf: string -> FullPath, db: Database)
  {
    forall p {:trigger R.ValueIn(m, p)} :: OfTable(cat, R.ValueIn(m, p)) ==>
      exists ref :: StoresRow(m, pathOf, db, p, ref)
  }

  /** The contents hold every row of the database, and no other row of its tables. */
  ghost predicate Mirrors(cat: Catalog, m: LeafMap, pathOf: string -> FullPath, db: Database)
  {
    HoldsRows(m, pathOf, db, db.Keys) && OnlyRows(cat, m, pathOf, db)
  }

  /** A batch of row operations keeps contents and rows in step. */
  lemma {:induction false} BatchMirrors(cat: Catalog, m: LeafMap, pathOf: string -> FullPath, db: Database,
                                        refs: set<RowRef>, ops: seq<RowOp>, v: nat)
    requires Committed(m) && Mirrors(cat, m, pathOf, db) && Apart(pathOf, refs) && OpsWithin(ops, refs)
    requires db.Keys <= refs
    ensures Mirrors(cat, L.Requested(m, LedgerOps(ops), pathOf, v), pathOf, RunRows(db, ops))
  {
    hide Payload, LedgerKey, RunRows, B.Deduped, R.ValueIn, U.Override, B.UpdatesOf, TaggedTable;
    var m', after, d := L.Requested(m, LedgerOps(ops), pathOf, v), RunRows(db, ops), B.Deduped(LedgerOps(ops), pathOf);
    RowsWithin(db, refs, ops);
    forall ref | ref in after.Keys ensures R.ValueIn(m', pathOf(LedgerKey(ref))) == StoredAs(after, ref) {
      AskedAt(m, d, v, pathOf(LedgerKey(ref)));
      DedupedRow(pathOf, db, refs, ops, ref);
      assert ref in db ==> LedgerKey(ref) == LedgerKey(ref);
    }
    forall p | OfTable(cat, R.ValueIn(m', p)) ensures exists ref :: StoresRow(m', pathOf, after, p, ref) {
      AskedAt(m, d, v, p);
      var ref := RowBehind(cat, m, pathOf, db, ops, p);
      DedupedRow(pathOf, db, refs, ops, ref);
      assert StoresRow(m', pathOf, after, p, ref);
    }
  }

  /** The row behind a path that a batch writes, or that held a row before. */
  lemma {:induction false} RowBehind(cat: Catalog, m: LeafMap, pathOf: string -> FullPath, db: Database,
                                     ops: seq<RowOp>, p: Path)
    returns (ref: RowRef)
    requires OnlyRows(cat, m, pathOf, db) && (p in B.Deduped(LedgerOps(ops), pathOf) || OfTable(cat, R.ValueIn(m, p)))
    ensures p == pathOf(LedgerKey(ref)) && (ref in db || exists i :: 0 <= i < |ops| && ops[i].ref == ref)
    ensures p !in B.Deduped(LedgerOps(ops), pathOf) ==> StoresRow(m, pathOf, db, p, ref)
  {
    hide Payload, LedgerKey, B.Deduped, R.ValueIn, OfTable;
    if p in B.Deduped(LedgerOps(ops), pathOf) {
      B.OnlyNamed(LedgerOps(ops), pathOf, p);
      var i :| 0 <= i < |LedgerOps(ops)| && pathOf(LedgerOps(ops)[i].key) == p;
      ref := ops[i].ref;
      assert LedgerOps(ops)[i].key == LedgerKey(ref);
    } else {
      ref :| StoresRow(m, pathOf, db, p, ref);
    }
  }

  /** So does the chain head, which is no row and has a path of its own. */
  lemma {:induction false} HeadMirrors(cat: Catalog, m: LeafMap, pathOf: string -> FullPath, db: Database, hp: Path,
                                       head: Digest, v: nat)
    requires Committed(m) && Mirrors(cat, m, pathOf, db) && forall ref :: ref in db ==> pathOf(LedgerKey(ref)) != hp
    ensures Mirrors(cat, L.WithHead(m, hp, head, v), pathOf, db)
  {
    hide Payload, LedgerKey, TaggedTable;
    var m', d := L.WithHead(m, hp, head, v), map[hp := Some(Head(head))];
    assert B.UpdatesOf(d) == map[hp := Some(ValueMac(hp, Head(head)))];
    forall p ensures R.ValueIn(m', p) == if p == hp then Some(Head(head)) else R.ValueIn(m, p) {
      AskedAt(m, d, v, p);
    }
    forall ref | ref in db.Keys ensures R.ValueIn(m', pathOf(LedgerKey(ref))) == StoredAs(db, ref) {
      assert LedgerKey(ref) == LedgerKey(ref);
    }
    forall p | OfTable(cat, R.ValueIn(m', p)) ensures exists ref :: StoresRow(m', pathOf, db, p, ref) {
      HeadUntagged(head);
      var ref :| StoresRow(m, pathOf, db, p, ref);
      assert StoresRow(m', pathOf, db, p, ref);
    }
  }

  lemma {:induction false} HeadUntagged(head: Digest)
    ensures TaggedTable(Head(head)) == None
  {
  }

  // ------------------------------------------------------ committing to a store

  /** The ledger's current contents mirror the rows. */
  ghost predicate Backs(led: L.Store, cat: Catalog, db: Database)
    reads led, led.backend
  {
    led.Valid() && T.GoodRows(cat, db) && Mirrors(cat, led.versions[led.version].leaves, led.pathOf, db)
  }

  /** And nothing is stored for the rows of refs that the database does not have. */
  ghost predicate Backing(led: L.Store, cat: Catalog, db: Database, refs: set<RowRef>)
    reads led, led.backend
  {
    Backs(led, cat, db) && db.Keys <= refs && HoldsRows(led.versions[led.version].leaves, led.pathOf, db, refs)
  }

  /** A store that holds nothing backs the empty database. */
  lemma {:induction false} EmptyBacks(led: L.Store, cat: Catalog, refs: set<RowRef>)
    requires led.Valid() && led.versions[led.version].leaves == map[]
    ensures Backing(led, cat, map[], refs)
  {
    hide Runs.Inv, LedgerKey, TaggedTable;
  }

  /** The rows at hand have paths of their own, apart from the chain head's. */
  ghost predicate OwnPaths(pathOf: string -> FullPath, refs: set<RowRef>)
  {
    Apart(pathOf, refs) && forall ref {:trigger LedgerKey(ref)} :: ref in refs ==>
      pathOf(LedgerKey(ref)) != pathOf(B.HISTORY_KEY)
  }

  lemma {:induction false} NoReservedRows(pathOf: string -> FullPath, refs: set<RowRef>, ops: seq<RowOp>)
    requires OwnPaths(pathOf, refs) && OpsWithin(ops, refs)
    ensures !L.HasReserved(LedgerOps(ops)) && L.HeadPathFree(LedgerOps(ops), pathOf)
  {
    hide LedgerKey;
    forall i | 0 <= i < |LedgerOps(ops)|
      ensures !(B.RESERVED_PREFIX <= LedgerOps(ops)[i].key) && pathOf(LedgerOps(ops)[i].key) != pathOf(B.HISTORY_KEY)
    {
      assert ops[i].ref in refs && LedgerOps(ops)[i].key == LedgerKey(ops[i].ref);
      LedgerKeyInjective(ops[i].ref, ops[i].ref);
    }
  }

  /** What a store with a chain or without one holds after an effective batch. */
  lemma {:induction false} NextMirrors(cat: Catalog, m: LeafMap, pathOf: string -> FullPath, db: Database,
                                       refs: set<RowRef>, ops: seq<RowOp>, v: nat, head: Digest)
    requires Committed(m) && Mirrors(cat, m, pathOf, db) && HoldsRows(m, pathOf, db, refs) && OwnPaths(pathOf, refs)
    requires OpsWithin(ops, refs)
    requires db.Keys <= refs && Committed(L.Requested(m, LedgerOps(ops), pathOf, v))
    ensures var (m', after) := (L.Requested(m, LedgerOps(ops), pathOf, v), RunRows(db, ops));
            var m'' := L.WithHead(m', pathOf(B.HISTORY_KEY), head, v);
            after.Keys <= refs && Mirrors(cat, m', pathOf, after) && HoldsRows(m', pathOf, after, refs) &&
            Mirrors(cat, m'', pathOf, after) && HoldsRows(m'', pathOf, after, refs)
  {
    hide LedgerKey, RunRows, L.Requested, L.WithHead, OnlyRows, HoldsRows;
    var m', after, hp := L.Requested(m, LedgerOps(ops), pathOf, v), RunRows(db, ops), pathOf(B.HISTORY_KEY);
    RowsWithin(db, refs, ops);
    BatchMirrors(cat, m, pathOf, db, refs, ops, v);
    LedgerFollowsRows(m, pathOf, db, refs, ops, v);
    forall ref | ref in after ensures pathOf(LedgerKey(ref)) != hp {
      assert ref in refs;
    }
    HeadMirrors(cat, m', pathOf, after, hp, head, v);
    HeadHolds(m', pathOf, after, refs, hp, head, v);
  }

  lemma {:induction false} HeadHolds(m: LeafMap, pathOf: string -> FullPath, db: Database, refs: set<RowRef>, hp: Path,
                                     head: Digest, v: nat)
    requires Committed(m) && HoldsRows(m, pathOf, db, refs) && forall ref {:trigger LedgerKey(ref)} :: ref in refs ==>
              pathOf(LedgerKey(ref)) != hp
    ensures HoldsRows(L.WithHead(m, hp, head, v), pathOf, db, refs)
  {
    hide LedgerKey, Payload;
    var d := map[hp := Some(Head(head))];
    assert B.UpdatesOf(d) == map[hp := Some(ValueMac(hp, Head(head)))];
    forall ref | ref in refs
      ensures R.ValueIn(L.WithHead(m, hp, head, v), pathOf(LedgerKey(ref))) == StoredAs(db, ref)
    {
      AskedAt(m, d, v, pathOf(LedgerKey(ref)));
    }
  }

  lemma {:induction false} RequestedCommitted(m: LeafMap, ops: seq<RowOp>, pathOf: string -> FullPath, v: nat)
    requires Committed(m)
    ensures Committed(L.Requested(m, LedgerOps(ops), pathOf, v))
  {
    hide B.Deduped, LedgerKey, Payload;
  }

  /** What a batch of row operations leads to: with a chain head or without one the
      contents hold the resulting rows, and nothing is asked for if they stay. */
  lemma {:induction false} BatchLeads(cat: Catalog, m: LeafMap, pathOf: string -> FullPath, db: Database,
                                      refs: set<RowRef>, ops: seq<RowOp>, v: nat, head: Digest)
    requires Committed(m) && T.GoodRows(cat, db) && db.Keys <= refs
    requires Mirrors(cat, m, pathOf, db) && HoldsRows(m, pathOf, db, refs)
    requires OwnPaths(pathOf, refs) && OpsWithin(ops, refs) && T.GoodRows(cat, RunRows(db, ops))
    ensures L.Requested(m, LedgerOps(ops), pathOf, v) == m <==> RunRows(db, ops) == db
    ensures var (m', after) := (L.Requested(m, LedgerOps(ops), pathOf, v), RunRows(db, ops));
            var m'' := L.WithHead(m', pathOf(B.HISTORY_KEY), head, v);
            after.Keys <= refs && Mirrors(cat, m', pathOf, after) && HoldsRows(m', pathOf, after, refs) &&
            Mirrors(cat, m'', pathOf, after) && HoldsRows(m'', pathOf, after, refs)
  {
    hide Mirrors, HoldsRows, T.GoodRows, RunRows, OpsWithin, OwnPaths, L.Requested, L.WithHead, Committed, Apart;
    RequestedCommitted(m, ops, pathOf, v);
    NextMirrors(cat, m, pathOf, db, refs, ops, v, head);
    PathsApart(pathOf, refs);
    NoOpIffRowsStay(cat, m, pathOf, db, refs, ops, v);
  }

  lemma {:induction false} CurrentCommitted(s: Runs.Ledger)
    requires Runs.Inv(s)
    ensures |s.versions| > 0 && Committed(s.versions[Runs.Version(s)].leaves)
  {
    hide Runs.Inv, Runs.Readable, Committed;
    L.CurrentFacts(s);
  }

  /** The same for the batch a store is given. */
  lemma {:induction false} CommitLeads(led: L.Store, ops: seq<RowOp>, cat: Catalog, db: Database, refs: set<RowRef>)
    requires Backing(led, cat, db, refs) && OwnPaths(led.pathOf, refs) && OpsWithin(ops, refs)
    requires T.GoodRows(cat, RunRows(db, ops))
    ensures !L.HasReserved(LedgerOps(ops)) && L.HeadPathFree(LedgerOps(ops), led.pathOf)
    ensures led.version < |led.versions| && RunRows(db, ops).Keys <= refs
    ensures led.Promised(LedgerOps(ops)).1 == led.version + if RunRows(db, ops) == db then 0 else 1
    ensures var m' := led.NextLeaves(LedgerOps(ops));
            Mirrors(cat, m', led.pathOf, RunRows(db, ops)) && HoldsRows(m', led.pathOf, RunRows(db, ops), refs)
  {
    hide Mirrors, HoldsRows, T.GoodRows, RunRows, OpsWithin, OwnPaths, Runs.Inv, L.Requested, L.WithHead,
         L.HeadPathFree,
         L.HasReserved, Committed, LedgerOps;
    NoReservedRows(led.pathOf, refs, ops);
    CurrentCommitted(led.State());
    BatchLeads(cat, led.versions[led.version].leaves, led.pathOf, db, refs, ops, led.version + 1, led.NextHead());
  }

  /** The ledger half of a commit: on success the contents hold exactly the rows the
      operations lead to, and the version moves if and only if the rows change. */
  method CommitRows(led: L.Store, ops: seq<RowOp>, ghost cat: Catalog, ghost db: Database, ghost refs: set<RowRef>)
    returns (r: Result<(Digest, nat)>)
    requires Backing(led, cat, db, refs) && OwnPaths(led.pathOf, refs) && OpsWithin(ops, refs)
    requires T.GoodRows(cat, RunRows(db, ops))
    modifies led, led.backend
    ensures r.Err? ==> !led.backend.reliable && r.error == ErrorKind.Backend
    ensures r.Err? ==> Backing(led, cat, db, refs) && led.version == old(led.version)
    ensures r.Ok? ==> Backing(led, cat, RunRows(db, ops), refs)
    ensures r.Ok? ==> led.version == old(led.version) + if RunRows(db, ops) == db then 0 else 1
  {
    hide Mirrors, HoldsRows, T.GoodRows, RunRows, OpsWithin, OwnPaths, Runs.Inv, L.Requested, L.WithHead,
         L.HeadPathFree,
         L.HasReserved, Runs.Commit, L.Store.NextLeaves, L.Store.Promised;
    CommitLeads(led, ops, cat, db, refs);
    r := led.PutBatch(LedgerOps(ops));
  }

  lemma {:induction false} PathsApart(pathOf: string -> FullPath, refs: set<RowRef>)
    requires OwnPaths(pathOf, refs)
    ensures Apart(pathOf, refs)
  {
    hide LedgerKey, Apart;
  }
}

/** Session transactions over committed state: interleavings, lost updates and
    unique indexes.  */
module Transactions {
  import opened Hashing
  import opened Tables
  import opened RowCodec
  import opened Derived

  /** A write-set: the pending end state of each touched row. */
  type Buffer = map<RowRef, Pending>

  datatype Savepoint = Savepoint(name: string, rows: Buffer)

  datatype Txn = Txn(base: nat, readOnly: bool, rows: Buffer, savepoints: seq<Savepoint>)

  /** The write-set once a statement is done: its end states, over the earliest
      recorded prior of each row. */
  function Folded(txn: Buffer, stmt: Buffer): Buffer
  {
    map ref | ref in txn.Keys + stmt.Keys ::
      if ref !in stmt then txn[ref] else if ref in txn then Pending(txn[ref].prior, stmt[ref].next) else stmt[ref]
  }

  lemma {:induction false} FoldNothing(txn: Buffer)
    ensures Folded(txn, map[]) == txn
  {
  }

  // -------------------------------------------------------------- statements

  /** Sets the end state of a row the statement touched, or starts from what the
      statement found. */
  function Written(stmt: Buffer, ref: RowRef, found: Option<Row>, next: Option<Row>): Buffer
  {
    stmt[ref := Pending(if ref in stmt then stmt[ref].prior else found, next)]
  }

  /** A row the statement sees: its own write, the transaction's, or the committed one. */
  function Visible(db: Database, txn: Buffer, stmt: Buffer, ref: RowRef): Option<Row>
  {
    if ref in stmt then stmt[ref].next else if ref in txn then txn[ref].next else Lookup(db, ref)
  }

  /** A statement sees what the transaction will once the statement has folded into it:
      its own writes come first. */
  lemma {:induction false} VisibleFolded(db: Database, txn: Buffer, stmt: Buffer, ref: RowRef)
    ensures Visible(db, txn, stmt, ref) == Visible(db, Folded(txn, stmt), map[], ref)
    ensures Visible(db, map[], stmt, ref) == if ref in stmt then stmt[ref].next else Lookup(db, ref)
  {
  }

  /** A unique index, as the key each row has in it; None is exempt. */
  type UniqueKey = (RowRef, Row) -> Option<ByteString>

  ghost predicate HasKey(key: UniqueKey, ref: RowRef, row: Option<Row>, v: ByteString)
  {
    row.Some? && key(ref, row.value) == Some(v)
  }

  /** Some other committed row has the value. */
  ghost predicate CommittedConflict(db: Database, key: UniqueKey, ref: RowRef, v: ByteString)
  {
    exists q {:trigger q in db} :: q in db && q != ref && key(q, db[q]) == Some(v)
  }

  /** Some other pending row will have the value. */
  ghost predicate PendingConflict(buf: Buffer, key: UniqueKey, ref: RowRef, v: ByteString)
  {
    exists p {:trigger p in buf} :: p in buf && p != ref && HasKey(key, p, buf[p].next, v)
  }

  /** Some other pending row gives the value up. */
  ghost predicate Freed(buf: Buffer, key: UniqueKey, ref: RowRef, v: ByteString)
  {
    exists p {:trigger p in buf} ::
      p in buf && p != ref && HasKey(key, p, buf[p].prior, v) && !HasKey(key, p, buf[p].next, v)
  }

  /** The statement-time check for writing row at ref with the buffer buf in effect. */
  ghost predicate UniqueFree(db: Database, buf: Buffer, key: UniqueKey, ref: RowRef, row: Row)
  {
    key(ref, row).Some? ==>
      var v := key(ref, row).value;
      if CommittedConflict(db, key, ref, v) then Freed(buf, key, ref, v) else !PendingConflict(buf, key, ref, v)
  }

  ghost predicate AllUniqueFree(db: Database, buf: Buffer, keys: seq<UniqueKey>, ref: RowRef, row: Row)
  {
    forall u {:trigger keys[u]} :: 0 <= u < |keys| ==> UniqueFree(db, buf, keys[u], ref, row)
  }

  /** A row the table can store. */
  ghost predicate Storing(cat: Catalog, ref: RowRef, row: Row)
  {
    GoodRow(cat, ref, row) && Storable(row)
  }

  ghost predicate GoodPair(cat: Catalog, ref: RowRef, p: Pending)
  {
    (p.prior.Some? ==> Storing(cat, ref, p.prior.value)) && (p.next.Some? ==> Storing(cat, ref, p.next.value))
  }

  ghost predicate GoodRows(cat: Catalog, db: Database)
  {
    forall ref {:trigger db[ref]} :: ref in db ==> Storing(cat, ref, db[ref])
  }

  /** One successful write of a statement: found is the row the engine read through
      the transaction, exact while nothing else has committed. */
  ghost predicate Edits(cat: Catalog, db: Database, version: nat, txn: Txn, stmt: Buffer, stmt': Buffer,
                        keys: seq<UniqueKey>,
                        ref: RowRef, found: Option<Row>, next: Option<Row>)
  {
    stmt' == Written(stmt, ref, found, next) && GoodPair(cat, ref, Pending(found, next)) &&
    (version == txn.base && ref !in stmt && ref !in txn.rows ==> found == Lookup(db, ref)) &&
    (next.Some? ==> AllUniqueFree(db, Folded(txn.rows, stmt'), keys, ref, next.value))
  }

  // ------------------------------------------------------------------ worlds

  datatype SessionState = Idle | Active(txn: Txn, stmt: Buffer)

  datatype World = World(version: nat, rows: Database, sessions: map<nat, SessionState>)

  ghost predicate Running(w: World, s: nat)
  {
    s in w.sessions && w.sessions[s].Active?
  }

  function With(w: World, s: nat, state: SessionState): World
  {
    World(w.version, w.rows, w.sessions[s := state])
  }

  ghost predicate Begin(w: World, w': World, s: nat)
  {
    exists ro :: w' == With(w, s, Active(Txn(w.version, ro, map[], []), map[]))
  }

  ghost predicate Edit(cat: Catalog, w: World, w': World, s: nat, keys: seq<UniqueKey>)
  {
    Running(w, s) &&
    var (txn, stmt) := (w.sessions[s].txn, w.sessions[s].stmt);
    exists stmt', ref, found, next ::
      Edits(cat, w.rows, w.version, txn, stmt, stmt', keys, ref, found, next) && w' == With(w, s, Active(txn, stmt'))
  }

  /** A statement that fails drops its own writes only. */
  ghost predicate Discard(w: World, w': World, s: nat)
  {
    Running(w, s) && w' == With(w, s, Active(w.sessions[s].txn, map[]))
  }

  /** A statement that completes becomes part of the write-set. */
  ghost predicate Close(w: World, w': World, s: nat)
  {
    Running(w, s) &&
    var (txn, stmt) := (w.sessions[s].txn, w.sessions[s].stmt);
    w' == With(w, s, Active(txn.(rows := Folded(txn.rows, stmt)), map[]))
  }

  /** Between statements a savepoint operation keeps the buffer or goes back to a
      saved one, and saves at most the current buffer. */
  ghost predicate SavepointStep(w: World, w': World, s: nat)
  {
    Running(w, s) && w.sessions[s].stmt == map[] &&
    exists txn' :: w' == With(w, s, Active(txn', map[])) && SavepointMove(w.sessions[s].txn, txn')
  }

  ghost predicate SavepointMove(txn: Txn, txn': Txn)
  {
    txn'.base == txn.base && txn'.readOnly == txn.readOnly &&
    (txn'.rows == txn.rows || SavedIn(txn, txn'.rows)) &&
    forall i {:trigger txn'.savepoints[i]} :: 0 <= i < |txn'.savepoints| ==>
      txn'.savepoints[i].rows == txn.rows || SavedIn(txn, txn'.savepoints[i].rows)
  }

  ghost predicate SavedIn(txn: Txn, rows: Buffer)
  {
    exists i {:trigger txn.savepoints[i]} :: 0 <= i < |txn.savepoints| && txn.savepoints[i].rows == rows
  }

  ghost predicate Rollback(w: World, w': World, s: nat)
  {
    w' == With(w, s, Idle)
  }

  // ------------------------------------------------------------------ commits

  /** The database after a buffer is applied; net no-ops are skipped. */
  ghost function Applied(db: Database, buf: Buffer): Database
  {
    map ref | ref in db.Keys + buf.Keys && AppliedRow(db, buf, ref).Some? :: AppliedRow(db, buf, ref).value
  }

  ghost function AppliedRow(db: Database, buf: Buffer, ref: RowRef): Option<Row>
  {
    if ref in buf && !NetNoOp(buf[ref]) then buf[ref].next else Lookup(db, ref)
  }

  /** Committing leaves a row as the transaction sees it, unless the transaction saw none
      where it found none and there is one now. */
  lemma {:induction false} CommitLeavesSeen(db: Database, buf: Buffer, ref: RowRef)
    ensures Lookup(Applied(db, buf), ref) == Visible(db, buf, map[], ref) <==>
            !(ref in buf && buf[ref].prior.None? && buf[ref].next.None? && ref in db)
  {
  }

  /** For each effective row, what is committed equals the recorded prior bytewise. */
  ghost predicate Validated(db: Database, buf: Buffer)
  {
    forall ref {:trigger buf[ref]} :: ref in buf && !NetNoOp(buf[ref]) ==> StillThere(Lookup(db, ref), buf[ref].prior)
  }

  ghost predicate StillThere(committed: Option<Row>, prior: Option<Row>)
  {
    if prior.None? then committed.None? else committed.Some? && EncodedRow(committed.value) == EncodedRow(prior.value)
  }

  /** No committed row outside the write-set, or kept by it, has a value the
      write-set claims. */
  ghost predicate Revalidated(db: Database, buf: Buffer, key: UniqueKey)
  {
    forall x, y, v {:trigger HasKey(key, x, buf[x].next, v), db[y]} ::
      x in buf && y in db && y != x && HasKey(key, x, buf[x].next, v) && key(y, db[y]) == Some(v) ==>
        y in buf && !HasKey(key, y, buf[y].next, v)
  }

  /** Every index that is free of duplicates stays compatible with the write-set. */
  ghost predicate AllRevalidated(db: Database, buf: Buffer, keys: seq<UniqueKey>)
  {
    forall u {:trigger keys[u]} :: 0 <= u < |keys| && UniqueIn(db, keys[u]) ==> Revalidated(db, buf, keys[u])
  }

  /** A ledger commit: at most one version, and only if the rows change. */
  ghost predicate LedgerMoves(w: World, w': World, rows: Database)
  {
    w'.rows == rows && w'.version == if rows == w.rows then w.version else w.version + 1
  }

  ghost predicate Commit(w: World, w': World, s: nat, keys: seq<UniqueKey>)
  {
    Running(w, s) && w.sessions[s].stmt == map[] &&
    var txn := w.sessions[s].txn;
    (w.version != txn.base ==> Validated(w.rows, txn.rows) && AllRevalidated(w.rows, txn.rows, keys)) &&
    LedgerMoves(w, w', Applied(w.rows, txn.rows)) && w'.sessions == w.sessions[s := Idle]
  }

  /** A refused commit ends the transaction and leaves the ledger as it is. */
  ghost predicate CommitRefused(w: World, w': World, s: nat)
  {
    Running(w, s) && w' == With(w, s, Idle)
  }

  /** Versions only rise, and rows change only in a new version. */
  ghost predicate VersionTells(w: World, w': World)
  {
    w'.version >= w.version && (w'.rows != w.rows ==> w'.version > w.version)
  }

  /** Anything else that commits to the ledger: another store user, a statement outside
      a transaction, or a commit of the catalog or of row ids that leaves rows alone. */
  ghost predicate Elsewhere(cat: Catalog, w: World, w': World)
  {
    w'.sessions == w.sessions && GoodRows(cat, w'.rows) && VersionTells(w, w')
  }

  ghost predicate Next(cat: Catalog, w: World, w': World, s: nat, keys: seq<UniqueKey>)
  {
    || Begin(w, w', s)
    || Edit(cat, w, w', s, keys)
    || Discard(w, w', s)
    || Close(w, w', s)
    || SavepointStep(w, w', s)
    || Rollback(w, w', s)
    || Commit(w, w', s, keys)
    || CommitRefused(w, w', s)
    || Elsewhere(cat, w, w')
  }

  // --------------------------------------------------------------- invariants

  ghost predicate BasedOn(db: Database, buf: Buffer)
  {
    forall ref {:trigger buf[ref]} :: ref in buf ==> buf[ref].prior == Lookup(db, ref)
  }

  ghost predicate UniqueIn(db: Database, key: UniqueKey)
  {
    forall a, b {:trigger db[a], db[b]} :: a in db && b in db && a != b && key(a, db[a]).Some? ==>
      key(a, db[a]) != key(b, db[b])
  }

  /** Two pending rows share a value only when a third one had it. */
  ghost predicate SharedOnlyIfFreed(key: UniqueKey, buf: Buffer)
  {
    forall x, y, v {:trigger HasKey(key, x, buf[x].next, v), HasKey(key, y, buf[y].next, v)} ::
      x in buf && y in buf && x != y && HasKey(key, x, buf[x].next, v) && HasKey(key, y, buf[y].next, v) ==>
        HadBy(key, buf, x, y, v)
  }

  ghost predicate HadBy(key: UniqueKey, buf: Buffer, x: RowRef, y: RowRef, v: ByteString)
  {
    exists p {:trigger buf[p]} :: p in buf && p != x && p != y && HasKey(key, p, buf[p].prior, v)
  }

  /** A committed row whose value the buffer claims is itself in the buffer. */
  ghost predicate ClaimsTouched(key: UniqueKey, db: Database, buf: Buffer)
  {
    forall x, y, v {:trigger HasKey(key, x, buf[x].next, v), db[y]} ::
      x in buf && y in db && y != x && HasKey(key, x, buf[x].next, v) && key(y, db[y]) == Some(v) ==> y in buf
  }

  ghost predicate BufferInv(cat: Catalog, db: Database, current: bool, keys: seq<UniqueKey>, buf: Buffer)
  {
    (forall ref {:trigger buf[ref]} :: ref in buf ==> GoodPair(cat, ref, buf[ref])) &&
    (current ==> BasedOn(db, buf)) &&
    (forall u {:trigger keys[u]} :: 0 <= u < |keys| ==>
      SharedOnlyIfFreed(keys[u], buf) && (current && UniqueIn(db, keys[u]) ==> ClaimsTouched(keys[u], db, buf)))
  }

  ghost predicate SessionInv(cat: Catalog, version: nat, db: Database, keys: seq<UniqueKey>, state: SessionState)
  {
    state.Active? ==>
      var txn := state.txn;
      txn.base <= version &&
      BufferInv(cat, db, version == txn.base, keys, txn.rows) &&
      BufferInv(cat, db, version == txn.base, keys, Folded(txn.rows, state.stmt)) &&
      forall i {:trigger txn.savepoints[i]} :: 0 <= i < |txn.savepoints| ==>
        BufferInv(cat, db, version == txn.base, keys, txn.savepoints[i].rows)
  }

  ghost predicate Inv(cat: Catalog, w: World, keys: seq<UniqueKey>)
  {
    GoodRows(cat, w.rows) && forall s {:trigger w.sessions[s]} :: s in w.sessions ==>
      SessionInv(cat, w.version, w.rows, keys, w.sessions[s])
  }

  lemma {:induction false} EmptyBuffer(cat: Catalog, db: Database, current: bool, keys: seq<UniqueKey>)
    ensures BufferInv(cat, db, current, keys, map[])
  {
  }

  /** Folding a write is writing to the folded buffer. */
  lemma {:induction false} FoldSet(txn: Buffer, stmt: Buffer, ref: RowRef, found: Option<Row>, next: Option<Row>)
    ensures Folded(txn, Written(stmt, ref, found, next)) == Written(Folded(txn, stmt), ref, found, next)
  {
  }

  lemma {:induction false} SetKeepsShared(key: UniqueKey, db: Database, buf: Buffer, ref: RowRef, found: Option<Row>,
                                          next: Option<Row>)
    requires SharedOnlyIfFreed(key, buf) &&
             (next.Some? ==> UniqueFree(db, Written(buf, ref, found, next), key, ref, next.value))
    ensures SharedOnlyIfFreed(key, Written(buf, ref, found, next))
  {
    var buf' := Written(buf, ref, found, next);
    forall x, y, v | x in buf' && y in buf' && x != y &&
                     HasKey(key, x, buf'[x].next, v) && HasKey(key, y, buf'[y].next, v)
      ensures HadBy(key, buf', x, y, v)
    {
      if x == ref || y == ref {
        var z := if x == ref then y else x;
        assert z in buf' && z != ref && HasKey(key, z, buf'[z].next, v);
        FreedByThird(key, db, buf', ref, z, v);
      } else {
        assert HadBy(key, buf, x, y, v);
        var p :| p in buf && p != x && p != y && HasKey(key, p, buf[p].prior, v);
        assert buf'[p].prior == buf[p].prior;
      }
    }
  }

  lemma {:induction false} FreedByThird(key: UniqueKey, db: Database, buf: Buffer, ref: RowRef, z: RowRef,
                                        v: ByteString)
    requires ref in buf && z in buf && z != ref && HasKey(key, ref, buf[ref].next, v) && HasKey(key, z, buf[z].next, v)
    requires UniqueFree(db, buf, key, ref, buf[ref].next.value)
    ensures HadBy(key, buf, ref, z, v) && HadBy(key, buf, z, ref, v)
  {
    assert PendingConflict(buf, key, ref, v);
    var p :| p in buf && p != ref && HasKey(key, p, buf[p].prior, v) && !HasKey(key, p, buf[p].next, v);
    assert p != z && buf[p] == buf[p];
  }

  lemma {:induction false} SetKeepsClaims(key: UniqueKey, db: Database, buf: Buffer, ref: RowRef, found: Option<Row>,
                                          next: Option<Row>)
    requires ClaimsTouched(key, db, buf) && UniqueIn(db, key) && BasedOn(db, Written(buf, ref, found, next))
    requires next.Some? ==> UniqueFree(db, Written(buf, ref, found, next), key, ref, next.value)
    ensures ClaimsTouched(key, db, Written(buf, ref, found, next))
  {
    var buf' := Written(buf, ref, found, next);
    forall x, y, v | x in buf' && y in db && y != x && HasKey(key, x, buf'[x].next, v) && key(y, db[y]) == Some(v)
      ensures y in buf'
    {
      if x == ref {
        assert CommittedConflict(db, key, ref, v);
        var p :| p in buf' && p != ref && HasKey(key, p, buf'[p].prior, v) && !HasKey(key, p, buf'[p].next, v);
        assert buf'[p].prior == Lookup(db, p);
        assert p in db && key(p, db[p]) == key(y, db[y]);
      } else {
        assert HasKey(key, x, buf[x].next, v);
      }
    }
  }

  lemma {:induction false} SetKeepsInv(cat: Catalog, db: Database, current: bool, keys: seq<UniqueKey>, buf: Buffer,
                                       ref: RowRef, found: Option<Row>, next: Option<Row>)
    requires BufferInv(cat, db, current, keys, buf) && GoodPair(cat, ref, Pending(found, next))
    requires current && ref !in buf ==> found == Lookup(db, ref)
    requires next.Some? ==> AllUniqueFree(db, Written(buf, ref, found, next), keys, ref, next.value)
    ensures BufferInv(cat, db, current, keys, Written(buf, ref, found, next))
  {
    hide SharedOnlyIfFreed, UniqueIn, ClaimsTouched, UniqueFree, Storing;
    var buf' := Written(buf, ref, found, next);
    forall r | r in buf' ensures GoodPair(cat, r, buf'[r]) && (current ==> buf'[r].prior == Lookup(db, r)) {
      if r in buf {
        assert buf[r] == buf[r];
      }
    }
    forall u | 0 <= u < |keys|
      ensures SharedOnlyIfFreed(keys[u], buf') &&
              (current && UniqueIn(db, keys[u]) ==> ClaimsTouched(keys[u], db, buf'))
    {
      SetKeepsShared(keys[u], db, buf, ref, found, next);
      if current && UniqueIn(db, keys[u]) {
        SetKeepsClaims(keys[u], db, buf, ref, found, next);
      }
    }
  }

  /** Once something else has committed, nothing is claimed about currency. */
  lemma {:induction false} StaleInv(cat: Catalog, db: Database, current: bool, db': Database, keys: seq<UniqueKey>,
                                    buf: Buffer)
    requires BufferInv(cat, db, current, keys, buf)
    ensures BufferInv(cat, db', false, keys, buf)
  {
    hide SharedOnlyIfFreed, UniqueIn, ClaimsTouched, GoodPair;
  }

  lemma {:induction false} OthersKeep(cat: Catalog, w: World, w': World, keys: seq<UniqueKey>, s: nat)
    requires Inv(cat, w, keys) && VersionTells(w, w') && s in w.sessions
    ensures SessionInv(cat, w'.version, w'.rows, keys, w.sessions[s])
  {
    hide BufferInv, GoodRows, Folded;
    var state := w.sessions[s];
    assert SessionInv(cat, w.version, w.rows, keys, state);
    if state.Active? && w'.version != w.version {
      var txn := state.txn;
      var current := w.version == txn.base;
      StaleInv(cat, w.rows, current, w'.rows, keys, txn.rows);
      StaleInv(cat, w.rows, current, w'.rows, keys, Folded(txn.rows, state.stmt));
      forall i | 0 <= i < |txn.savepoints| ensures BufferInv(cat, w'.rows, false, keys, txn.savepoints[i].rows) {
        StaleInv(cat, w.rows, current, w'.rows, keys, txn.savepoints[i].rows);
      }
    }
  }

  lemma {:induction false} EditKeeps(cat: Catalog, w: World, w': World, s: nat, keys: seq<UniqueKey>)
    requires Inv(cat, w, keys) && Edit(cat, w, w', s, keys)
    ensures SessionInv(cat, w'.version, w'.rows, keys, w'.sessions[s])
  {
    hide BufferInv, GoodRows, Folded, AllUniqueFree, GoodPair;
    var txn, stmt := w.sessions[s].txn, w.sessions[s].stmt;
    assert SessionInv(cat, w.version, w.rows, keys, w.sessions[s]);
    var stmt', ref, found, next :| Edits(cat, w.rows, w.version, txn, stmt, stmt', keys, ref, found, next) &&
                                   w' == With(w, s, Active(txn, stmt'));
    FoldSet(txn.rows, stmt, ref, found, next);
    FoldedHas(txn.rows, stmt, ref);
    SetKeepsInv(cat, w.rows, w.version == txn.base, keys, Folded(txn.rows, stmt), ref, found, next);
  }

  lemma {:induction false} FoldedHas(txn: Buffer, stmt: Buffer, ref: RowRef)
    ensures ref in Folded(txn, stmt) <==> ref in txn || ref in stmt
  {
  }

  lemma {:induction false} SavepointKeeps(cat: Catalog, version: nat, db: Database, keys: seq<UniqueKey>, txn: Txn,
                                          txn': Txn)
    requires SessionInv(cat, version, db, keys, Active(txn, map[])) && SavepointMove(txn, txn')
    ensures SessionInv(cat, version, db, keys, Active(txn', map[]))
  {
    hide BufferInv, Folded;
    FoldNothing(txn.rows);
    FoldNothing(txn'.rows);
    var state := Active(txn, map[]);
    assert state.txn == txn;
    if txn'.rows != txn.rows {
      var i :| 0 <= i < |txn.savepoints| && txn.savepoints[i].rows == txn'.rows;
      assert BufferInv(cat, db, version == txn.base, keys, txn.savepoints[i].rows);
    }
    forall i | 0 <= i < |txn'.savepoints|
      ensures BufferInv(cat, db, version == txn.base, keys, txn'.savepoints[i].rows)
    {
      if txn'.savepoints[i].rows != txn.rows {
        var j :| 0 <= j < |txn.savepoints| && txn.savepoints[j].rows == txn'.savepoints[i].rows;
      }
    }
  }

  lemma {:induction false} AppliedAt(db: Database, buf: Buffer, ref: RowRef)
    ensures Lookup(Applied(db, buf), ref) == AppliedRow(db, buf, ref)
  {
  }

  lemma {:induction false} AppliedGood(cat: Catalog, db: Database, current: bool, keys: seq<UniqueKey>, buf: Buffer)
    requires GoodRows(cat, db) && BufferInv(cat, db, current, keys, buf)
    ensures GoodRows(cat, Applied(db, buf))
  {
    hide Storing, SharedOnlyIfFreed, UniqueIn, ClaimsTouched, BasedOn;
    forall ref | ref in Applied(db, buf) ensures Storing(cat, ref, Applied(db, buf)[ref]) {
      if ref in buf {
        assert GoodPair(cat, ref, buf[ref]);
      }
      if ref in db {
        assert Storing(cat, ref, db[ref]);
      }
    }
  }

  /** The acting session's new state keeps its invariant. */
  lemma {:induction false} ActorKeeps(cat: Catalog, w: World, w': World, s: nat, keys: seq<UniqueKey>)
    requires Inv(cat, w, keys) && Next(cat, w, w', s, keys) && !Elsewhere(cat, w, w') && s in w'.sessions
    ensures SessionInv(cat, w'.version, w'.rows, keys, w'.sessions[s])
  {
    hide BufferInv, GoodRows, Folded, Edit, Validated, AllRevalidated, Applied, SavepointMove;
    if Begin(w, w', s) {
      EmptyBuffer(cat, w.rows, true, keys);
      FoldNothing(map[]);
    } else if Edit(cat, w, w', s, keys) {
      EditKeeps(cat, w, w', s, keys);
    } else if Discard(w, w', s) {
      assert SessionInv(cat, w.version, w.rows, keys, w.sessions[s]);
      FoldNothing(w.sessions[s].txn.rows);
    } else if Close(w, w', s) {
      assert SessionInv(cat, w.version, w.rows, keys, w.sessions[s]);
      FoldNothing(Folded(w.sessions[s].txn.rows, w.sessions[s].stmt));
    } else if SavepointStep(w, w', s) {
      assert SessionInv(cat, w.version, w.rows, keys, w.sessions[s]);
      var txn' :| w' == With(w, s, Active(txn', map[])) && SavepointMove(w.sessions[s].txn, txn');
      SavepointKeeps(cat, w.version, w.rows, keys, w.sessions[s].txn, txn');
    }
  }

  lemma {:induction false} RowsMove(cat: Catalog, w: World, w': World, s: nat, keys: seq<UniqueKey>)
    requires Inv(cat, w, keys) && Next(cat, w, w', s, keys)
    ensures VersionTells(w, w') && GoodRows(cat, w'.rows)
    ensures forall x {:trigger w'.sessions[x]} :: x in w'.sessions && x != s ==>
              x in w.sessions && w'.sessions[x] == w.sessions[x]
  {
    hide BufferInv, GoodRows, Folded, Validated, AllRevalidated, Applied, SavepointMove, Edits;
    if Commit(w, w', s, keys) {
      assert SessionInv(cat, w.version, w.rows, keys, w.sessions[s]);
      AppliedGood(cat, w.rows, w.version == w.sessions[s].txn.base, keys, w.sessions[s].txn.rows);
    }
  }

  lemma {:induction false} NextKeeps(cat: Catalog, w: World, w': World, s: nat, keys: seq<UniqueKey>)
    requires Inv(cat, w, keys) && Next(cat, w, w', s, keys)
    ensures Inv(cat, w', keys)
  {
    hide SessionInv, GoodRows, Next, VersionTells, Elsewhere;
    RowsMove(cat, w, w', s, keys);
    forall x | x in w'.sessions ensures SessionInv(cat, w'.version, w'.rows, keys, w'.sessions[x]) {
      if x != s {
        OthersKeep(cat, w, w', keys, x);
      } else if Elsewhere(cat, w, w') {
        ElsewhereSessions(cat, w, w');
        OthersKeep(cat, w, w', keys, x);
      } else {
        ActorKeeps(cat, w, w', s, keys);
      }
    }
  }

  lemma {:induction false} ElsewhereSessions(cat: Catalog, w: World, w': World)
    requires Elsewhere(cat, w, w')
    ensures w'.sessions == w.sessions
  {
    hide GoodRows, LedgerMoves;
  }

  /** A run: any interleaving of session steps and other commits. */
  ghost predicate Interleaving(cat: Catalog, worlds: seq<World>, actors: seq<nat>, keys: seq<UniqueKey>)
  {
    |worlds| > 0 && |actors| == |worlds| && worlds[0].sessions == map[] && GoodRows(cat, worlds[0].rows) &&
    forall i {:trigger worlds[i]} :: 0 < i < |worlds| ==> Next(cat, worlds[i - 1], worlds[i], actors[i], keys)
  }

  lemma {:induction false} RunKeeps(cat: Catalog, worlds: seq<World>, actors: seq<nat>, keys: seq<UniqueKey>, i: nat)
    requires Interleaving(cat, worlds, actors, keys) && i < |worlds|
    ensures Inv(cat, worlds[i], keys)
  {
    hide Next, GoodRows, SessionInv;
    if i > 0 {
      RunKeeps(cat, worlds, actors, keys, i - 1);
      assert Next(cat, worlds[i - 1], worlds[i], actors[i], keys);
      NextKeeps(cat, worlds[i - 1], worlds[i], actors[i], keys);
    }
  }

  // ------------------------------------------------------------ lost updates

  /** At a successful commit every touched row is the one the transaction recorded. */
  lemma {:induction false} CommitBased(cat: Catalog, w: World, w': World, s: nat, keys: seq<UniqueKey>, ref: RowRef)
    requires Inv(cat, w, keys) && Commit(w, w', s, keys)
    requires ref in w.sessions[s].txn.rows && !NetNoOp(w.sessions[s].txn.rows[ref])
    ensures Lookup(w.rows, ref) == w.sessions[s].txn.rows[ref].prior
  {
    hide AllRevalidated, SharedOnlyIfFreed, UniqueIn, ClaimsTouched, Applied, EncodedRow, Folded, RowFits;
    var buf := w.sessions[s].txn.rows;
    assert SessionInv(cat, w.version, w.rows, keys, w.sessions[s]);
    assert GoodPair(cat, ref, buf[ref]);
    if w.version != w.sessions[s].txn.base && buf[ref].prior.Some? {
      assert StillThere(Lookup(w.rows, ref), buf[ref].prior);
      assert Storing(cat, ref, w.rows[ref]);
      SameBytes(cat, ref, w.rows[ref], buf[ref].prior.value);
    }
  }

  lemma {:induction false} SameBytes(cat: Catalog, ref: RowRef, a: Row, b: Row)
    requires Storing(cat, ref, a) && Storing(cat, ref, b) && EncodedRow(a) == EncodedRow(b)
    ensures a == b
  {
    hide EncodedRow, PkOf;
    RowBytesInjective(cat[ref.table].kinds, a, b);
  }

  /** Over any interleaving: a successful commit overwrites only rows that are still
      as the transaction found them, writes exactly its own rows, and takes at most
      one ledger version. */
  lemma {:induction false} NoLostUpdate(cat: Catalog, worlds: seq<World>, actors: seq<nat>, keys: seq<UniqueKey>,
                                        i: nat, ref: RowRef)
    requires Interleaving(cat, worlds, actors, keys) && 0 < i < |worlds|
    requires Commit(worlds[i - 1], worlds[i], actors[i], keys)
    ensures var (w, w', buf) := (worlds[i - 1], worlds[i], worlds[i - 1].sessions[actors[i]].txn.rows);
            if ref in buf && !NetNoOp(buf[ref])
            then Lookup(w.rows, ref) == buf[ref].prior && Lookup(w'.rows, ref) == buf[ref].next
            else Lookup(w'.rows, ref) == Lookup(w.rows, ref)
    ensures worlds[i].version <= worlds[i - 1].version + 1
    ensures worlds[i].version == worlds[i - 1].version <==> worlds[i].rows == worlds[i - 1].rows
  {
    hide Next, GoodRows, SessionInv, Validated, AllRevalidated, Applied;
    var w, w', s := worlds[i - 1], worlds[i], actors[i];
    var buf := w.sessions[s].txn.rows;
    RunKeeps(cat, worlds, actors, keys, i - 1);
    AppliedAt(w.rows, buf, ref);
    if ref in buf && !NetNoOp(buf[ref]) {
      CommitBased(cat, w, w', s, keys, ref);
    }
  }

  // ---------------------------------------------------------- effective rows

  /** Every effective row of a write-set is based on the committed one. */
  ghost predicate EffectiveBased(db: Database, buf: Buffer)
  {
    forall ref {:trigger buf[ref]} :: ref in buf && !NetNoOp(buf[ref]) ==> Lookup(db, ref) == buf[ref].prior
  }

  /** Over any interleaving, a write-set whose version is still current is based on
      the committed rows. */
  lemma {:induction false} RunBases(cat: Catalog, worlds: seq<World>, actors: seq<nat>, keys: seq<UniqueKey>, i: nat,
                                    s: nat)
    requires Interleaving(cat, worlds, actors, keys) && i < |worlds| && Running(worlds[i], s)
    requires worlds[i].version == worlds[i].sessions[s].txn.base
    ensures EffectiveBased(worlds[i].rows, worlds[i].sessions[s].txn.rows)
  {
    hide Next, GoodRows, Folded, SharedOnlyIfFreed, UniqueIn, ClaimsTouched, GoodPair;
    RunKeeps(cat, worlds, actors, keys, i);
    assert SessionInv(cat, worlds[i].version, worlds[i].rows, keys, worlds[i].sessions[s]);
  }

  /** While nothing else has committed, the write-set and everything saved of it are
      based on the committed rows. */
  ghost predicate TxnCurrent(db: Database, version: nat, txn: Txn)
  {
    txn.base <= version &&
    (version == txn.base ==>
      BasedOn(db, txn.rows) && forall i {:trigger txn.savepoints[i]} :: 0 <= i < |txn.savepoints| ==>
        BasedOn(db, txn.savepoints[i].rows))
  }

  /** Whatever commits, a transaction stays current or is overtaken for good. */
  lemma {:induction false} OvertakenOrCurrent(db: Database, version: nat, txn: Txn, db': Database, version': nat)
    requires TxnCurrent(db, version, txn) && version' >= version && (db' != db ==> version' > version)
    ensures TxnCurrent(db', version', txn)
  {
    hide BasedOn;
  }

  lemma {:induction false} SavepointStaysCurrent(db: Database, version: nat, txn: Txn, txn': Txn)
    requires TxnCurrent(db, version, txn) && SavepointMove(txn, txn')
    ensures TxnCurrent(db, version, txn')
  {
    hide BasedOn;
    if version == txn.base {
      if txn'.rows != txn.rows {
        var i :| 0 <= i < |txn.savepoints| && txn.savepoints[i].rows == txn'.rows;
      }
      forall i | 0 <= i < |txn'.savepoints| ensures BasedOn(db, txn'.savepoints[i].rows) {
        if txn'.savepoints[i].rows != txn.rows {
          var j :| 0 <= j < |txn.savepoints| && txn.savepoints[j].rows == txn'.savepoints[i].rows;
        }
      }
    }
  }

  lemma {:induction false} WriteStaysBased(db: Database, buf: Buffer, ref: RowRef, found: Option<Row>,
                                           next: Option<Row>)
    requires BasedOn(db, buf) && (ref !in buf ==> found == Lookup(db, ref))
    ensures BasedOn(db, Written(buf, ref, found, next))
  {
    var buf' := Written(buf, ref, found, next);
    forall r | r in buf' ensures buf'[r].prior == Lookup(db, r) {
      assert r in buf ==> buf[r].prior == Lookup(db, r);
    }
  }

  lemma {:induction false} BasedIsEffective(db: Database, buf: Buffer)
    requires BasedOn(db, buf)
    ensures EffectiveBased(db, buf)
  {
  }

  /** So is every write-set that commits. */
  lemma {:induction false} CommitsBased(cat: Catalog, worlds: seq<World>, actors: seq<nat>, keys: seq<UniqueKey>,
                                        i: nat)
    requires Interleaving(cat, worlds, actors, keys) && 0 < i < |worlds|
    requires Commit(worlds[i - 1], worlds[i], actors[i], keys)
    ensures EffectiveBased(worlds[i - 1].rows, worlds[i - 1].sessions[actors[i]].txn.rows)
  {
    hide Next, GoodRows, SessionInv, Validated, AllRevalidated, Applied;
    var w, w', s := worlds[i - 1], worlds[i], actors[i];
    RunKeeps(cat, worlds, actors, keys, i - 1);
    var buf := w.sessions[s].txn.rows;
    forall ref | ref in buf && !NetNoOp(buf[ref]) ensures Lookup(w.rows, ref) == buf[ref].prior {
      CommitBased(cat, w, w', s, keys, ref);
    }
  }
}

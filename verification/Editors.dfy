/** Statement editors: INSERT, UPDATE and DELETE inside a session transaction.  */
module Editors {
  import opened Hashing
  import opened KeyCodec
  import opened Tables
  import opened RowCodec
  import opened Derived
  import opened SqlStorage
  import opened Transactions
  import opened UniqueChecks
  import opened Sessions
  import Uniqueness

  /** The rows of both buffers can be stored. */
  ghost predicate GoodBuffers(cat: Catalog, txn: Buffer, stmt: Buffer)
  {
    (forall ref {:trigger txn[ref]} :: ref in txn ==> ref.table in cat && GoodPair(cat, ref, txn[ref])) &&
    (forall ref {:trigger stmt[ref]} :: ref in stmt ==> ref.table in cat && GoodPair(cat, ref, stmt[ref]))
  }

  lemma {:induction false} FoldedFits(cat: Catalog, txn: Buffer, stmt: Buffer)
    requires GoodBuffers(cat, txn, stmt)
    ensures FittingBuffer(cat, Folded(txn, stmt))
  {
    hide RowFits, PkOf;
    var buf := Folded(txn, stmt);
    forall ref | ref in buf ensures GoodPending(cat, ref, buf[ref]) {
      if ref in txn {
        assert GoodPair(cat, ref, txn[ref]);
      }
      if ref in stmt {
        assert GoodPair(cat, ref, stmt[ref]);
      }
    }
  }

  lemma {:induction false} SetGood(cat: Catalog, txn: Buffer, stmt: Buffer, ref: RowRef, found: Option<Row>,
                                   next: Option<Row>)
    requires GoodBuffers(cat, txn, stmt) && ref.table in cat && GoodPair(cat, ref, Pending(found, next))
    ensures GoodBuffers(cat, txn, Written(stmt, ref, found, next))
  {
    hide Storing;
    var out := Written(stmt, ref, found, next);
    forall r | r in out ensures r.table in cat && GoodPair(cat, r, out[r]) {
      if r in stmt {
        assert GoodPair(cat, r, stmt[r]);
      }
    }
  }

  /** A write of the row that was found keeps the folded write-set based. */
  lemma {:induction false} WriteCurrent(db: Database, txn: Buffer, stmt: Buffer, ref: RowRef, found: Option<Row>,
                                        next: Option<Row>)
    ensures BasedOn(db, Folded(txn, stmt)) && (ref !in Folded(txn, stmt) ==> found == Lookup(db, ref)) ==>
              BasedOn(db, Folded(txn, Written(stmt, ref, found, next)))
    ensures ref in Folded(txn, stmt) <==> ref in txn || ref in stmt
  {
    hide BasedOn;
    FoldSet(txn, stmt, ref, found, next);
    FoldedHas(txn, stmt, ref);
    if BasedOn(db, Folded(txn, stmt)) && (ref !in Folded(txn, stmt) ==> found == Lookup(db, ref)) {
      WriteStaysBased(db, Folded(txn, stmt), ref, found, next);
    }
  }

  class TableEditor {
    const session: Session
    const table: Word
    /** The statement's own writes. */
    var pending: Buffer

    constructor (session: Session, table: Word)
      ensures this.session == session && this.table == table && pending == map[]
    {
      this.session, this.table, pending := session, table, map[];
    }

    ghost predicate Ready()
      reads this, session, session.store, session.store.keyspace
    {
      session.txn.Some? && Usable(session.store) && table in session.store.cat &&
      GoodBuffers(session.store.cat, session.txn.value.rows, pending)
    }

    /** A row the engine hands over: values of the columns' kinds. */
    ghost predicate Typed(row: Row)
      reads this, session, session.store
    {
      table in session.store.cat && Fits(row, session.store.cat[table].kinds) && Storable(row)
    }

    /** The row's reference, unless a primary key column is NULL. */
    ghost function RefOf(row: Row): Option<RowRef>
      requires Ready() && Typed(row)
      reads this, session, session.store, session.store.keyspace
    {
      var def := session.store.cat[table];
      assert WellDefined(def);
      if NoNulls(Project(row, def.pkOrds)) then Some(RowRef(table, PkOf(def, row))) else None
    }

    method Reference(row: Row) returns (r: Option<RowRef>)
      requires Ready() && Typed(row)
      ensures r == RefOf(row)
      ensures r.Some? ==> Storing(session.store.cat, r.value, row) && r.value.table == table
    {
      hide EncodeSlots, GoodRows, GoodBuffers, GoodDb;
      var def := session.store.cat[table];
      assert WellDefined(def);
      ProjectFits(def.kinds, row, def.pkOrds);
      var pk := EncodePK(def, row);
      r := if pk.Ok? then Some(RowRef(table, pk.value)) else None;
    }

    /** What the statement sees at a key. */
    ghost function Sees(ref: RowRef): Option<Row>
      requires session.txn.Some?
      reads this, session, session.store
    {
      Visible(session.store.rows, session.txn.value.rows, pending, ref)
    }

    /** The write-set as it will be once the statement folds. */
    ghost function Effective(): Buffer
      requires session.txn.Some?
      reads this, session
    {
      Folded(session.txn.value.rows, pending)
    }

    /** The write-set, with the statement's own writes or without them, is based on the
        committed rows, or the transaction has been overtaken. */
    ghost predicate Current()
      reads this, session, session.store
    {
      session.Current() &&
      (session.txn.Some? && session.store.version == session.txn.value.base ==>
        BasedOn(session.store.rows, Effective()))
    }

    /** The row is as the engine reads it: the committed one, when nothing has been
        committed since the transaction began and it has not touched the row. */
    ghost predicate AsRead(row: Row)
      requires Ready() && Typed(row)
      reads this, session, session.store, session.store.keyspace
    {
      RefOf(row).Some? && session.store.version == session.txn.value.base && RefOf(row).value !in Effective() ==>
        Lookup(session.store.rows, RefOf(row).value) == Some(row)
    }

    /** No read of the ledger or the keyspace can fail. */
    ghost predicate ReadsHold()
      reads session, session.store
    {
      session.store.ledgerReliable && session.store.keyspace.reliable
    }

    /** The row would be free in every unique index if the statement's writes were these. */
    ghost predicate FreeWith(writes: Buffer, ref: RowRef, row: Row)
      requires session.txn.Some? && ref.table in session.store.cat
      reads session, session.store
    {
      TableUniqueFree(session.store.cat, session.store.rows, Folded(session.txn.value.rows, writes), ref, row)
    }

    method Check(ref: RowRef, row: Row) returns (r: Reply)
      requires Ready() && ref.table == table && Storing(session.store.cat, ref, row)
      ensures r == Done && FreeIsRight(session.store, Effective()) ==>
                TableUniqueFree(session.store.cat, session.store.rows, Effective(), ref, row)
      ensures r == Failed(UniqueViolation) && Synced(session.store) ==>
                !TableUniqueFree(session.store.cat, session.store.rows, Effective(), ref, row)
      ensures r == Done || r == Failed(UniqueViolation) || (r == Failed(ReadFailed) && !session.store.keyspace.reliable)
    {
      hide Synced, FreeIsRight, GoodRows, GoodBuffers, GoodDb, TableUniqueFree, TableEntryFree, Traceable, RowFits,
           FittingBuffer, WellCatalogued, PkOf;
      FoldedFits(session.store.cat, session.txn.value.rows, pending);
      var free := CheckUnique(session.store, Folded(session.txn.value.rows, pending), ref, row);
      if free.Err? {
        return Failed(ReadFailed);
      }
      return if free.value then Done else Failed(UniqueViolation);
    }

    /** Whether a row is there for the statement: its own buffer was already asked. */
    method Exists(ref: RowRef) returns (r: Result<bool>)
      requires Ready() && ref !in pending
      ensures r.Err? ==> !session.store.ledgerReliable && r.error == ErrorKind.Backend
      ensures r.Ok? ==> (r.value <==> Sees(ref).Some?)
    {
      hide Usable, Synced, GoodBuffers;
      if ref in session.txn.value.rows {
        return Ok(session.txn.value.rows[ref].next.Some?);
      }
      var fails: bool := *;
      if !session.store.ledgerReliable && fails {
        return Err(ErrorKind.Backend);
      }
      return Ok(ref in session.store.rows);
    }

    method Insert(row: Row) returns (r: Reply)
      requires Ready() && Typed(row)
      modifies this`pending
      ensures Ready()
      ensures r == Failed(ReadOnly) <==> session.txn.value.readOnly
      ensures r == Failed(BadRow) <==> !session.txn.value.readOnly && old(RefOf(row)).None?
      ensures !session.txn.value.readOnly && old(RefOf(row)).Some? && old(Sees(RefOf(row).value)).Some? ==>
                (r == Failed(DuplicateKey) || r == Failed(ReadFailed)) && pending == old(pending)
      ensures !session.txn.value.readOnly && Synced(session.store) && ReadsHold() ==>
                (r == Done <==>
                  old(RefOf(row)).Some? && old(Sees(RefOf(row).value)).None? &&
                  FreeWith(Written(old(pending), old(RefOf(row)).value, None, Some(row)), old(RefOf(row)).value, row))
      ensures r == Done || r == Failed(UniqueViolation) ==>
                old(RefOf(row)).Some? && var ref := old(RefOf(row)).value;
                old(Sees(ref)).None? && pending == Written(old(pending), ref, None, Some(row)) &&
                (r == Done && FreeIsRight(session.store, Effective()) ==>
                  TableUniqueFree(session.store.cat, session.store.rows, Effective(), ref, row)) &&
                (r != Done && Synced(session.store) ==>
                  !TableUniqueFree(session.store.cat, session.store.rows, Effective(), ref, row))
      ensures r == Failed(DuplicateKey) ==> old(RefOf(row).Some? && Sees(RefOf(row).value).Some?)
      ensures old(Current()) ==> Current()
      ensures r.Failed? && r.why != UniqueViolation && r.why != ReadFailed ==> pending == old(pending)
      ensures r.Failed? ==> r.why == ReadOnly || r.why == BadRow || r.why == DuplicateKey || r.why == UniqueViolation ||
                            (r.why == ReadFailed && (!session.store.ledgerReliable || !session.store.keyspace.reliable))
    {
      hide Usable, Synced, GoodBuffers, TableUniqueFree, Storing, PkOf, NoNulls, Fits, Folded, BasedOn;
      if session.txn.value.readOnly {
        return Failed(ReadOnly);
      }
      var ref := Reference(row);
      if ref.None? {
        return Failed(BadRow);
      }
      if ref.value in pending {
        if pending[ref.value].next.Some? {
          return Failed(DuplicateKey);
        }
      } else {
        var exists_ := Exists(ref.value);
        if exists_.Err? {
          return Failed(ReadFailed);
        }
        if exists_.value {
          return Failed(DuplicateKey);
        }
      }
      SetGood(session.store.cat, session.txn.value.rows, pending, ref.value, None, Some(row));
      WriteCurrent(session.store.rows, session.txn.value.rows, pending, ref.value, None, Some(row));
      pending := Written(pending, ref.value, None, Some(row));
      r := Check(ref.value, row);
    }

    method Delete(row: Row) returns (r: Reply)
      requires Ready() && Typed(row)
      modifies this`pending
      ensures Ready()
      ensures r == Failed(ReadOnly) <==> session.txn.value.readOnly
      ensures r == Failed(BadRow) <==> !session.txn.value.readOnly && old(RefOf(row)).None?
      ensures r == Done <==> !session.txn.value.readOnly && old(RefOf(row)).Some?
      ensures r == Done ==>
                old(RefOf(row)).Some? && pending == Written(old(pending), old(RefOf(row)).value, Some(row), None)
      ensures r.Failed? ==> (r.why == ReadOnly || r.why == BadRow) && pending == old(pending)
      ensures old(Current() && AsRead(row)) ==> Current()
    {
      hide Usable, Synced, GoodBuffers, Storing, PkOf, NoNulls, Fits, Folded, BasedOn;
      if session.txn.value.readOnly {
        return Failed(ReadOnly);
      }
      var ref := Reference(row);
      if ref.None? {
        return Failed(BadRow);
      }
      SetGood(session.store.cat, session.txn.value.rows, pending, ref.value, Some(row), None);
      WriteCurrent(session.store.rows, session.txn.value.rows, pending, ref.value, Some(row), None);
      pending := Written(pending, ref.value, Some(row), None);
      return Done;
    }

    /** An update that keeps the key rewrites the row; one that moves it deletes the
        old row and inserts the new one. */
    method Update(oldRow: Row, newRow: Row) returns (r: Reply)
      requires Ready() && Typed(oldRow) && Typed(newRow)
      modifies this`pending
      ensures Ready()
      ensures r == Failed(ReadOnly) <==> session.txn.value.readOnly
      ensures r == Failed(BadRow) <==>
                !session.txn.value.readOnly && (old(RefOf(oldRow)).None? || old(RefOf(newRow)).None?)
      ensures r == Failed(ReadOnly) || r == Failed(BadRow) ==> pending == old(pending)
      ensures r == Done || r == Failed(UniqueViolation) ==> old(RefOf(oldRow)).Some? && old(RefOf(newRow)).Some?
      ensures !session.txn.value.readOnly && old(RefOf(oldRow)).Some? && old(RefOf(newRow)) == old(RefOf(oldRow)) ==>
                pending == Written(old(pending), old(RefOf(newRow)).value, Some(oldRow), Some(newRow)) &&
                r != Failed(DuplicateKey)
      ensures !session.txn.value.readOnly && old(RefOf(oldRow)).Some? && old(RefOf(newRow)).Some? &&
              old(RefOf(newRow)) != old(RefOf(oldRow)) && old(Sees(RefOf(newRow).value)).Some? ==>
                (r == Failed(DuplicateKey) || r == Failed(ReadFailed)) &&
                pending == Written(old(pending), old(RefOf(oldRow)).value, Some(oldRow), None)
      ensures r == Done || r == Failed(UniqueViolation) ==>
                old(RefOf(oldRow)) == old(RefOf(newRow)) ||
                var (a, b) := (old(RefOf(oldRow)).value, old(RefOf(newRow)).value);
                old(Sees(b)).None? &&
                pending == Written(Written(old(pending), a, Some(oldRow), None), b, None, Some(newRow))
      ensures r == Done && FreeIsRight(session.store, Effective()) ==>
                TableUniqueFree(session.store.cat, session.store.rows, Effective(), old(RefOf(newRow)).value, newRow)
      ensures r == Failed(UniqueViolation) && Synced(session.store) ==>
                !TableUniqueFree(session.store.cat, session.store.rows, Effective(), old(RefOf(newRow)).value, newRow)
      ensures r == Failed(DuplicateKey) ==>
                old(RefOf(newRow).Some? && RefOf(newRow) != RefOf(oldRow) && Sees(RefOf(newRow).value).Some?)
      ensures r.Failed? ==> r.why == ReadOnly || r.why == BadRow || r.why == DuplicateKey || r.why == UniqueViolation ||
                            (r.why == ReadFailed && !ReadsHold())
      ensures !session.txn.value.readOnly && Synced(session.store) && ReadsHold() ==>
                (r == Done <==>
                  old(RefOf(oldRow)).Some? && old(RefOf(newRow)).Some? &&
                  var (a, b) := (old(RefOf(oldRow)).value, old(RefOf(newRow)).value);
                  var moved := Written(Written(old(pending), a, Some(oldRow), None), b, None, Some(newRow));
                  if a == b then FreeWith(Written(old(pending), b, Some(oldRow), Some(newRow)), b, newRow)
                  else old(Sees(b)).None? && FreeWith(moved, b, newRow))
      ensures old(Current() && AsRead(oldRow)) ==> Current()
    {
      hide Usable, Synced, GoodBuffers, TableUniqueFree, Storing, PkOf, NoNulls, Fits, Folded, BasedOn;
      if session.txn.value.readOnly {
        return Failed(ReadOnly);
      }
      var a := Reference(oldRow);
      var b := Reference(newRow);
      if a.None? || b.None? {
        return Failed(BadRow);
      }
      if a == b {
        SetGood(session.store.cat, session.txn.value.rows, pending, b.value, Some(oldRow), Some(newRow));
        WriteCurrent(session.store.rows, session.txn.value.rows, pending, b.value, Some(oldRow), Some(newRow));
        pending := Written(pending, b.value, Some(oldRow), Some(newRow));
        r := Check(b.value, newRow);
        return;
      }
      var deleted := Delete(oldRow);
      if deleted != Done {
        return deleted;
      }
      r := Insert(newRow);
    }

    /** Drops the statement's writes: the write-set and what the statement sees are
        the transaction's again. */
    method DiscardChanges()
      modifies this`pending
      ensures pending == map[] && (old(Current()) ==> Current())
      ensures session.txn.Some? ==>
                Effective() == session.txn.value.rows &&
                forall ref {:trigger Sees(ref)} ::
                  Sees(ref) == Visible(session.store.rows, session.txn.value.rows, map[], ref)
    {
      pending := map[];
      if session.txn.Some? {
        FoldNothing(session.txn.value.rows);
      }
    }

    /** Ends the statement: its writes fold into the transaction. */
    method Close()
      requires session.txn.Some?
      modifies this`pending, session`txn
      ensures pending == map[] && session.txn.Some?
      ensures session.txn.value == old(session.txn.value).(rows := Folded(old(session.txn.value.rows), old(pending)))
      ensures (old(Current()) ==> Current()) && Effective() == old(Effective())
    {
      hide Folded, BasedOn;
      FoldNothing(Folded(session.txn.value.rows, pending));
      if |pending| == 0 {
        assert pending == map[];
        FoldNothing(session.txn.value.rows);
        return;
      }
      session.txn := Some(session.txn.value.(rows := Folded(session.txn.value.rows, pending)));
      pending := map[];
    }
  }

  // ------------------------------------------------ editor calls as run steps

  /** The keys of the catalogue's unique indexes. */
  ghost predicate UniqueKeysOf(cat: Catalog, keys: seq<UniqueKey>)
  {
    forall u {:trigger keys[u]} :: 0 <= u < |keys| ==>
      exists t, i: nat :: UniqueIndex(cat, t, i) && keys[u] == KeyOf(cat, t, i)
  }

  lemma {:induction false} TableChecksSuffice(cat: Catalog, db: Database, buf: Buffer, keys: seq<UniqueKey>,
                                              ref: RowRef, row: Row)
    requires UniqueKeysOf(cat, keys) && ref.table in cat && TableUniqueFree(cat, db, buf, ref, row)
    ensures AllUniqueFree(db, buf, keys, ref, row)
  {
    hide IndexedValue, CommittedConflict, PendingConflict, Freed;
    forall u | 0 <= u < |keys| ensures UniqueFree(db, buf, keys[u], ref, row) {
      var t, i: nat :| UniqueIndex(cat, t, i) && keys[u] == KeyOf(cat, t, i);
      if t == ref.table {
        assert cat[ref.table].indexes[i].unique;
      } else {
        OtherTable(cat, t, i, ref, row);
      }
    }
  }

  lemma {:induction false} OtherTable(cat: Catalog, t: Word, i: nat, ref: RowRef, row: Row)
    requires ref.table != t
    ensures KeyOf(cat, t, i)(ref, row) == None
  {
  }

  /** A successful insert is an edit step of the interleaving model. */
  lemma {:induction false} InsertIsEdit(cat: Catalog, db: Database, version: nat, txn: Txn, stmt: Buffer,
                                        keys: seq<UniqueKey>, ref: RowRef, row: Row)
    requires UniqueKeysOf(cat, keys) && Storing(cat, ref, row) && Visible(db, txn.rows, stmt, ref).None?
    requires TableUniqueFree(cat, db, Folded(txn.rows, Written(stmt, ref, None, Some(row))), ref, row)
    ensures Edits(cat, db, version, txn, stmt, Written(stmt, ref, None, Some(row)), keys, ref, None, Some(row))
  {
    hide TableUniqueFree, Folded, RowFits, PkOf;
    TableChecksSuffice(cat, db, Folded(txn.rows, Written(stmt, ref, None, Some(row))), keys, ref, row);
  }

  /** So is an update or a delete of a row the engine read, even if another session
      has changed the row since. */
  lemma {:induction false} RewriteIsEdit(cat: Catalog, db: Database, version: nat, txn: Txn, stmt: Buffer,
                                         keys: seq<UniqueKey>,
                                         ref: RowRef, found: Row, next: Option<Row>)
    requires UniqueKeysOf(cat, keys) && Storing(cat, ref, found) && (next.Some? ==> Storing(cat, ref, next.value))
    requires version == txn.base && ref !in stmt && ref !in txn.rows ==> Lookup(db, ref) == Some(found)
    requires next.Some? ==>
              TableUniqueFree(cat, db, Folded(txn.rows, Written(stmt, ref, Some(found), next)), ref, next.value)
    ensures Edits(cat, db, version, txn, stmt, Written(stmt, ref, Some(found), next), keys, ref, Some(found), next)
  {
    hide TableUniqueFree, Folded, RowFits, PkOf;
    if next.Some? {
      TableChecksSuffice(cat, db, Folded(txn.rows, Written(stmt, ref, Some(found), next)), keys, ref, next.value);
    }
  }

  /** A write-set that the re-check blocks would have put two rows with the same columns
      into a unique index. */
  lemma {:induction false} BlockedDuplicates(cat: Catalog, db: Database, buf: Buffer)
    requires WellCatalogued(cat) && GoodRows(cat, db) && StorableSet(cat, buf) && FittingBuffer(cat, buf)
    requires UniqueBlocked(cat, db, buf)
    ensures exists t, i: nat :: UniqueIndex(cat, t, i) && !DistinctColumns(Applied(db, buf), t, cat[t].indexes[i])
  {
    hide WellCatalogued, GoodRows, StorableSet, FittingBuffer, Revalidated, Applied, DistinctColumns, GoodDb, UniqueIn;
    var t, i :| UniqueIndex(cat, t, i) && !Revalidated(db, buf, KeyOf(cat, t, i));
    assert UniqueIndex(cat, t, i);
    Uniqueness.RefusedCommitDuplicates(KeyOf(cat, t, i), db, buf);
    AppliedRowsGood(cat, db, buf);
    UniqueMeansColumns(cat, Applied(db, buf), t, i);
  }

  /** What the commit of a write-set guarantees is a commit step of the model. */
  lemma {:induction false} CommitIsStep(cat: Catalog, w: World, w': World, s: nat, keys: seq<UniqueKey>)
    requires UniqueKeysOf(cat, keys) && Running(w, s) && w.sessions[s].stmt == map[]
    requires w'.sessions == w.sessions[s := Idle]
    requires Moved(w.rows, w.version, w.sessions[s].txn.rows, w'.rows, w'.version)
    requires w.version != w.sessions[s].txn.base ==>
               Validated(w.rows, w.sessions[s].txn.rows) && UniquePassed(cat, w.rows, w.sessions[s].txn.rows)
    ensures Commit(w, w', s, keys)
  {
    hide Validated, Revalidated, UniqueIn, Applied, IndexedValue;
    var buf := w.sessions[s].txn.rows;
    if w.version != w.sessions[s].txn.base {
      forall u | 0 <= u < |keys| && UniqueIn(w.rows, keys[u]) ensures Revalidated(w.rows, buf, keys[u]) {
        var t, i: nat :| UniqueIndex(cat, t, i) && keys[u] == KeyOf(cat, t, i);
        assert cat[t].indexes[i].unique;
      }
    }
  }
}

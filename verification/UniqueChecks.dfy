/** Unique-index checks against the committed keyspace and the pending rows.  */
module UniqueChecks {
  import opened Hashing
  import opened ByteStrings
  import opened KeyCodec
  import opened Tables
  import opened Keyspaces
  import opened Derived
  import opened SqlStorage
  import opened Transactions
  import opened Overlay

  /** The index at position i of table t. */
  ghost predicate IsIndex(cat: Catalog, t: Word, i: nat)
  {
    WellCatalogued(cat) && t in cat && i < |cat[t].indexes|
  }

  function LongEnough(ords: seq<nat>, row: Row): bool
  {
    forall j {:trigger ords[j]} :: 0 <= j < |ords| ==> ords[j] < |row|
  }

  /** A row's value in an index; rows of other tables and rows with a NULL have none. */
  function IndexedValue(cat: Catalog, t: Word, i: nat, ref: RowRef, row: Row): Option<ByteString>
  {
    if ref.table == t && t in cat && i < |cat[t].indexes| && LongEnough(cat[t].indexes[i].ords, row) &&
       NoNulls(Columns(cat[t].indexes[i], row))
    then Some(EncodeSlots(true, Columns(cat[t].indexes[i], row))) else None
  }

  function KeyOf(cat: Catalog, t: Word, i: nat): UniqueKey
  {
    (ref: RowRef, row: Row) => IndexedValue(cat, t, i, ref, row)
  }

  /** The start of the entries that carry a value. */
  ghost function ValueStart(cat: Catalog, t: Word, i: nat, v: ByteString): ByteString
    requires t in cat && i < |cat[t].indexes|
  {
    SecondarySpace(cat[t].indexes[i].id) + v
  }

  /** v is the encoding of a tuple of the index. */
  ghost predicate ValueOfIndex(cat: Catalog, t: Word, i: nat, slots: seq<Option<Cell>>, v: ByteString)
    requires IsIndex(cat, t, i)
  {
    Fits(slots, Project(cat[t].kinds, cat[t].indexes[i].ords)) && NoNulls(slots) && v == EncodeSlots(true, slots)
  }

  lemma {:induction false} IndexSound(cat: Catalog, t: Word, i: nat)
    requires IsIndex(cat, t, i)
    ensures OrdsIn(cat[t].indexes[i].ords, |cat[t].kinds|) && WellDefined(cat[t]) && cat[t].id == t
  {
    assert cat[t].id == t;
    assert cat[t].indexes[i] == cat[t].indexes[i];
  }

  /** A row has a value in the index unless a column is NULL, and two rows have the same
      value if and only if they have the same columns. */
  lemma {:induction false} SameValueIff(cat: Catalog, t: Word, i: nat, a: RowRef, x: Row, b: RowRef, y: Row)
    requires IsIndex(cat, t, i) && a.table == t && b.table == t && RowFits(cat[t], x) && RowFits(cat[t], y)
    ensures OrdsIn(cat[t].indexes[i].ords, |x|) && OrdsIn(cat[t].indexes[i].ords, |y|)
    ensures var idx := cat[t].indexes[i];
            (IndexedValue(cat, t, i, a, x).Some? <==> NoNulls(Columns(idx, x))) &&
            (NoNulls(Columns(idx, x)) ==>
              (IndexedValue(cat, t, i, a, x) == IndexedValue(cat, t, i, b, y) <==> Columns(idx, x) == Columns(idx, y)))
  {
    hide EncodeSlots, WellCatalogued;
    IndexSound(cat, t, i);
    var kinds, idx := cat[t].kinds, cat[t].indexes[i];
    ProjectFits(kinds, x, idx.ords);
    ProjectFits(kinds, y, idx.ords);
    var p, q := Columns(idx, x), Columns(idx, y);
    if NoNulls(p) && NoNulls(q) && EncodeSlots(true, p) == EncodeSlots(true, q) {
      TupleInjective(true, p, q, [], []);
    }
  }

  /** What uniqueness means: no two rows of the table have the same columns of the index
      and no NULL among them. */
  lemma {:induction false} UniqueMeansColumns(cat: Catalog, db: Database, t: Word, i: nat)
    requires IsIndex(cat, t, i) && GoodDb(cat, db)
    ensures UniqueIn(db, KeyOf(cat, t, i)) <==> DistinctColumns(db, t, cat[t].indexes[i])
  {
    hide IndexedValue, EncodeSlots, WellCatalogued, RowFits, NoNulls, Columns;
    var idx := cat[t].indexes[i];
    forall a, b | a in db && b in db && a != b
      ensures (IndexedValue(cat, t, i, a, db[a]).Some? &&
               IndexedValue(cat, t, i, a, db[a]) == IndexedValue(cat, t, i, b, db[b])) <==>
              SameColumns(db, t, idx, a, b)
    {
      assert GoodRow(cat, a, db[a]) && GoodRow(cat, b, db[b]);
      if a.table == t && b.table == t {
        SameValueIff(cat, t, i, a, db[a], b, db[b]);
      } else {
        ForeignHasNone(cat, t, i, a, db[a]);
        ForeignHasNone(cat, t, i, b, db[b]);
      }
    }
  }

  lemma {:induction false} ForeignHasNone(cat: Catalog, t: Word, i: nat, ref: RowRef, row: Row)
    ensures ref.table != t ==> IndexedValue(cat, t, i, ref, row) == None
  {
  }

  ghost predicate SameColumns(db: Database, t: Word, idx: IndexDef, a: RowRef, b: RowRef)
    requires a in db && b in db
  {
    a.table == t && b.table == t && OrdsIn(idx.ords, |db[a]|) && OrdsIn(idx.ords, |db[b]|) &&
    Columns(idx, db[a]) == Columns(idx, db[b]) && NoNulls(Columns(idx, db[a]))
  }

  ghost predicate DistinctColumns(db: Database, t: Word, idx: IndexDef)
  {
    forall a, b {:trigger db[a], db[b]} :: a in db && b in db && a != b ==> !SameColumns(db, t, idx, a, b)
  }

  /** A row's entry under the value is exactly its index key. */
  lemma {:induction false} RowEntry(cat: Catalog, db: Database, m: KeySpace, t: Word, i: nat, v: ByteString,
                                    ref: RowRef)
    requires IsIndex(cat, t, i) && GoodDb(cat, db) && Covers(cat, db, m) && ref in db
    requires IndexedValue(cat, t, i, ref, db[ref]) == Some(v)
    ensures Lookup(m, ValueStart(cat, t, i, v) + ref.pk) == Some(ref.pk)
  {
    hide EncodeSlots, BigEndian, PkOf, NoNulls, Expected;
    IndexSound(cat, t, i);
    assert GoodRow(cat, ref, db[ref]);
    var k := ValueStart(cat, t, i, v) + ref.pk;
    assert IndexEntry(cat[t], i, db[ref], ref.pk, k);
    assert Owns(cat, ref, db[ref], k);
    ExpectedOwner(cat, db, ref, k);
    KeyTags(t, ref.pk, cat[t].indexes[i], db[ref]);
    assert Lookup(m, k) == Expected(cat, db, k);
  }

  /** An entry under the value belongs to a committed row that has it. */
  lemma {:induction false} EntryRow(cat: Catalog, db: Database, m: KeySpace, t: Word, i: nat, slots: seq<Option<Cell>>,
                                    v: ByteString, k: ByteString)
    returns (ref: RowRef)
    requires IsIndex(cat, t, i) && GoodDb(cat, db) && Exact(cat, db, m) && ValueOfIndex(cat, t, i, slots, v)
    requires k in m && ValueStart(cat, t, i, v) <= k
    ensures ref in db && ref.table == t && IndexedValue(cat, t, i, ref, db[ref]) == Some(v)
    ensures k == ValueStart(cat, t, i, v) + ref.pk && m[k] == ref.pk
  {
    hide EncodeSlots, BigEndian, PkOf, Exact;
    IndexSound(cat, t, i);
    assert |k| > 0 && k[0] == SECONDARY_PREFIX;
    ExactAt(cat, db, m, k);
    assert Lookup(m, k) == Some(m[k]) == Expected(cat, db, k);
    ref :| ref in db && Owns(cat, ref, db[ref], k) && Expected(cat, db, k) == Some(ValueOf(ref.pk, k));
    assert Some(m[k]) == Some(ValueOf(ref.pk, k)) && ValueOf(ref.pk, k) == ref.pk;
    KeyTags(ref.table, ref.pk, IndexDef(0, false, []), db[ref]);
    var j :| IndexEntry(cat[ref.table], j, db[ref], ref.pk, k);
    EntryIsOfIndex(cat, t, i, slots, v, ref, db[ref], j, k);
  }

  lemma {:induction false} EntryIsOfIndex(cat: Catalog, t: Word, i: nat, slots: seq<Option<Cell>>, v: ByteString,
                                          ref: RowRef, row: Row, j: int, k: ByteString)
    requires IsIndex(cat, t, i) && ValueOfIndex(cat, t, i, slots, v) && ValueStart(cat, t, i, v) <= k
    requires ref.table in cat && RowFits(cat[ref.table], row) && IndexEntry(cat[ref.table], j, row, ref.pk, k)
    ensures ref.table == t && IndexedValue(cat, t, i, ref, row) == Some(v) && k == ValueStart(cat, t, i, v) + ref.pk
  {
    hide EncodeSlots, BigEndian, PkOf;
    IndexSound(cat, t, i);
    var idx := cat[ref.table].indexes[j];
    assert SecondarySpace(cat[t].indexes[i].id) <= k;
    assert WellDefined(cat[ref.table]) && OrdsIn(idx.ords, |row|);
    SpaceIdUnique(idx, cat[t].indexes[i], row, ref.pk, k);
    assert cat[ref.table].indexes[j].id == cat[t].indexes[i].id;
    var cols := Columns(idx, row);
    var space := SecondarySpace(idx.id);
    assert k == space + (EncodeSlots(true, cols) + ref.pk) && space + v <= k;
    assert k[|space|..] == EncodeSlots(true, cols) + ref.pk && v <= k[|space|..];
    ProjectFits(cat[t].kinds, row, idx.ords);
    TuplePrefixFree(true, slots, cols, ref.pk);
  }

  /** An entry under the value is the value and then the primary key it carries. */
  lemma {:induction false} TracedEntry(cat: Catalog, m: KeySpace, t: Word, i: nat, slots: seq<Option<Cell>>,
                                       v: ByteString, k: ByteString)
    requires IsIndex(cat, t, i) && Traceable(cat, m) && ValueOfIndex(cat, t, i, slots, v)
    requires k in m && ValueStart(cat, t, i, v) <= k
    ensures k == ValueStart(cat, t, i, v) + m[k]
  {
    hide EncodeSlots, BigEndian, PkOf;
    assert |k| > 0 && k[0] == SECONDARY_PREFIX;
    assert Traced(cat, k, m[k]);
    var ref, row :| Owns(cat, ref, row, k) && ref.pk == m[k];
    KeyTags(ref.table, ref.pk, IndexDef(0, false, []), row);
    var j :| IndexEntry(cat[ref.table], j, row, ref.pk, k);
    EntryIsOfIndex(cat, t, i, slots, v, ref, row, j, k);
  }

  /** The derived keyspace agrees with the committed rows. */
  ghost predicate Synced(store: SqlStore)
    reads store, store.keyspace
  {
    Exact(store.cat, store.rows, store.keyspace.entries)
  }

  /** Or at least has every required entry, and otherwise entries of rows of the past,
      as after a reconcile. */
  ghost predicate Tracked(store: SqlStore)
    reads store, store.keyspace
  {
    Covers(store.cat, store.rows, store.keyspace.entries) && Traceable(store.cat, store.keyspace.entries)
  }

  /** Some entry under the value carries another primary key. */
  ghost predicate EntryConflict(cat: Catalog, m: KeySpace, t: Word, i: nat, v: ByteString, pk: ByteString)
    requires t in cat && i < |cat[t].indexes|
  {
    exists k {:trigger m[k]} :: k in m && ValueStart(cat, t, i, v) <= k && m[k] != pk
  }

  /** Whether another committed row carries the value: two entries decide. */
  method UniqueConflict(store: SqlStore, t: Word, i: nat, v: ByteString, pk: ByteString,
                        ghost slots: seq<Option<Cell>>) returns (r: Result<bool>)
    requires store.Valid() && IsIndex(store.cat, t, i) && ValueOfIndex(store.cat, t, i, slots, v)
    ensures r.Err? ==> !store.keyspace.reliable && r.error == ErrorKind.Backend
    ensures r.Ok? && Synced(store) ==>
              (r.value <==> CommittedConflict(store.rows, KeyOf(store.cat, t, i), RowRef(t, pk), v))
    ensures r.Ok? && Tracked(store) && !r.value ==>
              !CommittedConflict(store.rows, KeyOf(store.cat, t, i), RowRef(t, pk), v)
    ensures r.Ok? && Traceable(store.cat, store.keyspace.entries) ==>
              (r.value <==> EntryConflict(store.cat, store.keyspace.entries, t, i, v, pk))
  {
    hide EncodeSlots, BigEndian, Exact, FirstOf, IndexedValue, ValueOfIndex, WellCatalogued, GoodDb, Covers, Traceable,
         CommittedConflict;
    var start := SecondarySpace(store.cat[t].indexes[i].id) + v;
    assert start[0] == SECONDARY_PREFIX;
    var end := IncBytes(start);
    var kvs := store.keyspace.Scan(start, end.value, 2);
    if kvs.Err? {
      return Err(kvs.error);
    }
    ghost var m := store.keyspace.entries;
    ConflictShows(store.cat, store.rows, m, t, i, slots, v, pk);
    var n := 0;
    while n < |kvs.value|
      invariant n <= |kvs.value| && forall j :: 0 <= j < n ==> kvs.value[j].value == pk
    {
      if kvs.value[n].value != pk {
        ScannedUnder(kvs.value, m, start, end.value, 2, n);
        return Ok(true);
      }
      n := n + 1;
    }
    if Traceable(store.cat, m) {
      NoEntryConflict(store.cat, m, t, i, slots, v, pk, kvs.value, end.value);
    }
    return Ok(false);
  }

  lemma {:induction false} ScannedUnder(kvs: seq<KV>, m: KeySpace, start: ByteString, end: ByteString, limit: nat,
                                        n: nat)
    requires FirstOf(kvs, m, start, end, limit) && n < |kvs|
    requires forall k: ByteString :: Between(start, k, end) <==> start <= k
    ensures kvs[n].key in m && start <= kvs[n].key && m[kvs[n].key] == kvs[n].value
  {
    hide Less, Between;
    assert kvs[n].key in InRange(m, start, end);
  }

  lemma {:induction false} NoEntryConflict(cat: Catalog, m: KeySpace, t: Word, i: nat, slots: seq<Option<Cell>>,
                                           v: ByteString, pk: ByteString, kvs: seq<KV>, end: ByteString)
    requires IsIndex(cat, t, i) && Traceable(cat, m) && ValueOfIndex(cat, t, i, slots, v)
    requires FirstOf(kvs, m, ValueStart(cat, t, i, v), end, 2)
    requires forall k: ByteString :: Between(ValueStart(cat, t, i, v), k, end) <==> ValueStart(cat, t, i, v) <= k
    requires forall j :: 0 <= j < |kvs| ==> kvs[j].value == pk
    ensures !EntryConflict(cat, m, t, i, v, pk)
  {
    hide EncodeSlots, BigEndian, ValueOfIndex, WellCatalogued, Traceable, ValueStart, Less, Between;
    var start := ValueStart(cat, t, i, v);
    if |kvs| == 2 {
      forall n | 0 <= n < 2 ensures kvs[n].key == start + pk {
        ScannedUnder(kvs, m, start, end, 2, n);
        TracedEntry(cat, m, t, i, slots, v, kvs[n].key);
      }
      Trichotomy(kvs[0].key, kvs[1].key);
    }
    forall k | k in m && start <= k ensures m[k] == pk {
      assert k in InRange(m, start, end);
    }
  }

  /** A committed conflict always shows in a keyspace that covers the rows; in an exact
      one nothing else does. */
  lemma {:induction false} ConflictShows(cat: Catalog, db: Database, m: KeySpace, t: Word, i: nat,
                                         slots: seq<Option<Cell>>, v: ByteString, pk: ByteString)
    requires IsIndex(cat, t, i) && GoodDb(cat, db) && ValueOfIndex(cat, t, i, slots, v)
    ensures Covers(cat, db, m) && CommittedConflict(db, KeyOf(cat, t, i), RowRef(t, pk), v) ==>
              EntryConflict(cat, m, t, i, v, pk)
    ensures Exact(cat, db, m) ==>
              Covers(cat, db, m) && Traceable(cat, m) &&
              (EntryConflict(cat, m, t, i, v, pk) ==> CommittedConflict(db, KeyOf(cat, t, i), RowRef(t, pk), v))
  {
    hide EncodeSlots, BigEndian, Exact, Covers, Traceable, IndexedValue, ValueOfIndex, WellCatalogued, GoodDb,
         ValueStart;
    var key, start := KeyOf(cat, t, i), ValueStart(cat, t, i, v);
    if Covers(cat, db, m) && CommittedConflict(db, key, RowRef(t, pk), v) {
      var q :| q in db && q != RowRef(t, pk) && key(q, db[q]) == Some(v);
      RowEntry(cat, db, m, t, i, v, q);
      ValueHasTable(cat, t, i, q, db[q], v);
      assert start <= start + q.pk && m[start + q.pk] != pk;
    }
    if Exact(cat, db, m) {
      ExactCovers(cat, db, m);
      ExactTraceable(cat, db, m);
      if EntryConflict(cat, m, t, i, v, pk) {
        var k :| k in m && start <= k && m[k] != pk;
        var q := EntryRow(cat, db, m, t, i, slots, v, k);
        assert key(q, db[q]) == Some(v) && q in db;
      }
    }
  }

  lemma {:induction false} ValueHasTable(cat: Catalog, t: Word, i: nat, ref: RowRef, row: Row, v: ByteString)
    requires IndexedValue(cat, t, i, ref, row) == Some(v)
    ensures ref.table == t
  {
  }

  // -------------------------------------------------------- statement checks

  /** Every row in the buffer fits its table. */
  ghost predicate FittingBuffer(cat: Catalog, buf: Buffer)
  {
    forall p {:trigger buf[p]} :: p in buf ==> GoodPending(cat, p, buf[p])
  }

  /** The value a row of the table has in an index. */
  method IndexValue(cat: Catalog, t: Word, i: nat, ref: RowRef, row: Row) returns (r: Option<ByteString>)
    requires IsIndex(cat, t, i) && ref.table == t && RowFits(cat[t], row)
    ensures r == IndexedValue(cat, t, i, ref, row)
    ensures r.Some? ==>
              LongEnough(cat[t].indexes[i].ords, row) &&
              ValueOfIndex(cat, t, i, Columns(cat[t].indexes[i], row), r.value)
  {
    hide EncodeSlots, WellCatalogued;
    IndexSound(cat, t, i);
    var def, idx := cat[t], cat[t].indexes[i];
    ProjectFits(def.kinds, row, idx.ords);
    var cols := EncodeIndexCols(def, idx, row);
    r := if cols.value.1 then None else Some(cols.value.0);
  }

  /** Whether some other pending row will have the value. */
  method AnyClaims(cat: Catalog, t: Word, i: nat, buf: Buffer, ref: RowRef, v: ByteString) returns (found: bool)
    requires IsIndex(cat, t, i) && FittingBuffer(cat, buf)
    ensures found <==> PendingConflict(buf, KeyOf(cat, t, i), ref, v)
  {
    hide IndexedValue, RowFits, WellCatalogued;
    var rest := buf.Keys;
    while rest != {}
      invariant rest <= buf.Keys
      invariant forall p {:trigger p in buf} :: p in buf && p !in rest && p != ref ==>
                !HasKey(KeyOf(cat, t, i), p, buf[p].next, v)
    {
      var p :| p in rest;
      rest := rest - {p};
      if p != ref && buf[p].next.Some? {
        var has := HasValue(cat, t, i, p, buf[p].next.value, v);
        if has {
          return true;
        }
      }
    }
    return false;
  }

  method HasValue(cat: Catalog, t: Word, i: nat, p: RowRef, row: Row, v: ByteString) returns (b: bool)
    requires IsIndex(cat, t, i) && p.table in cat && RowFits(cat[p.table], row)
    ensures b <==> HasKey(KeyOf(cat, t, i), p, Some(row), v)
  {
    hide EncodeSlots, WellCatalogued, RowFits;
    if p.table != t {
      return false;
    }
    var value := IndexValue(cat, t, i, p, row);
    b := value == Some(v);
  }

  /** Whether some other pending row gives the value up. */
  method AnyFrees(cat: Catalog, t: Word, i: nat, buf: Buffer, ref: RowRef, v: ByteString) returns (found: bool)
    requires IsIndex(cat, t, i) && FittingBuffer(cat, buf)
    ensures found <==> Freed(buf, KeyOf(cat, t, i), ref, v)
  {
    hide IndexedValue, RowFits, WellCatalogued;
    var rest := buf.Keys;
    while rest != {}
      invariant rest <= buf.Keys
      invariant forall p {:trigger p in buf} :: p in buf && p !in rest && p != ref ==>
                  !HasKey(KeyOf(cat, t, i), p, buf[p].prior, v) || HasKey(KeyOf(cat, t, i), p, buf[p].next, v)
    {
      var p :| p in rest;
      rest := rest - {p};
      if p != ref && buf[p].prior.Some? {
        var had := HasValue(cat, t, i, p, buf[p].prior.value, v);
        if had {
          if buf[p].next.None? {
            return true;
          }
          var keeps := HasValue(cat, t, i, p, buf[p].next.value, v);
          if !keeps {
            return true;
          }
        }
      }
    }
    return false;
  }

  /** The check of one unique index, answered by the entries of a keyspace. */
  ghost predicate EntryFree(cat: Catalog, m: KeySpace, buf: Buffer, t: Word, i: nat, ref: RowRef, row: Row)
    requires t in cat && i < |cat[t].indexes|
  {
    var key := KeyOf(cat, t, i);
    key(ref, row).Some? ==>
      var v := key(ref, row).value;
      if EntryConflict(cat, m, t, i, v, ref.pk) then Freed(buf, key, ref, v) else !PendingConflict(buf, key, ref, v)
  }

  /** On such a keyspace and such a buffer a value that looks free is free. */
  ghost predicate FreeIsRight(store: SqlStore, buf: Buffer)
    reads store, store.keyspace
  {
    Synced(store) || (Tracked(store) && BasedOn(store.rows, buf))
  }

  method CheckIndex(store: SqlStore, t: Word, i: nat, buf: Buffer, ref: RowRef, row: Row) returns (r: Result<bool>)
    requires store.Valid() && IsIndex(store.cat, t, i)
    requires ref.table == t && RowFits(store.cat[t], row) && FittingBuffer(store.cat, buf)
    ensures r.Err? ==> !store.keyspace.reliable && r.error == ErrorKind.Backend
    ensures r.Ok? && r.value && FreeIsRight(store, buf) ==>
              UniqueFree(store.rows, buf, KeyOf(store.cat, t, i), ref, row)
    ensures r.Ok? && !r.value && Synced(store) ==>
              !UniqueFree(store.rows, buf, KeyOf(store.cat, t, i), ref, row)
    ensures r.Ok? && Traceable(store.cat, store.keyspace.entries) ==>
              (r.value <==> EntryFree(store.cat, store.keyspace.entries, buf, t, i, ref, row))
  {
    hide EncodeSlots, WellCatalogued, RowFits, Exact, Covers, Traceable, FittingBuffer, PendingConflict, BasedOn,
         CommittedConflict, Freed, IndexedValue, GoodDb, EntryConflict, ValueOfIndex;
    var value := IndexValue(store.cat, t, i, ref, row);
    if value.None? {
      return Ok(true);
    }
    var v := value.value;
    var conflict := UniqueConflict(store, t, i, v, ref.pk, Columns(store.cat[t].indexes[i], row));
    if conflict.Err? {
      return Err(conflict.error);
    }
    assert RowRef(t, ref.pk) == ref;
    if !conflict.value {
      var claimed := AnyClaims(store.cat, t, i, buf, ref, v);
      return Ok(!claimed);
    }
    var freed := AnyFrees(store.cat, t, i, buf, ref, v);
    if freed && BasedOn(store.rows, buf) {
      FreedIsCommitted(store.rows, buf, KeyOf(store.cat, t, i), ref, v);
    }
    return Ok(freed);
  }

  /** A value given up by a row that is as committed is a committed value. */
  lemma {:induction false} FreedIsCommitted(db: Database, buf: Buffer, key: UniqueKey, ref: RowRef, v: ByteString)
    requires Freed(buf, key, ref, v) && BasedOn(db, buf)
    ensures CommittedConflict(db, key, ref, v)
  {
    var p :| p in buf && p != ref && HasKey(key, p, buf[p].prior, v);
    assert buf[p].prior == Lookup(db, p) && p in db;
  }

  /** The write passes the check of every unique index of its table. */
  ghost predicate TableUniqueFree(cat: Catalog, db: Database, buf: Buffer, ref: RowRef, row: Row)
    requires ref.table in cat
  {
    forall i {:trigger cat[ref.table].indexes[i]} ::
      0 <= i < |cat[ref.table].indexes| && cat[ref.table].indexes[i].unique ==>
      UniqueFree(db, buf, KeyOf(cat, ref.table, i), ref, row)
  }

  /** The same, answered by the entries of a keyspace. */
  ghost predicate TableEntryFree(cat: Catalog, m: KeySpace, buf: Buffer, ref: RowRef, row: Row)
    requires ref.table in cat
  {
    forall i {:trigger cat[ref.table].indexes[i]} ::
      0 <= i < |cat[ref.table].indexes| && cat[ref.table].indexes[i].unique ==>
      EntryFree(cat, m, buf, ref.table, i, ref, row)
  }

  /** Whether the row's value is free in every unique index of its table. */
  method CheckUnique(store: SqlStore, buf: Buffer, ref: RowRef, row: Row) returns (r: Result<bool>)
    requires store.Valid()
    requires ref.table in store.cat && RowFits(store.cat[ref.table], row) && FittingBuffer(store.cat, buf)
    ensures r.Err? ==> !store.keyspace.reliable && r.error == ErrorKind.Backend
    ensures r.Ok? && r.value && FreeIsRight(store, buf) ==>
              TableUniqueFree(store.cat, store.rows, buf, ref, row)
    ensures r.Ok? && !r.value && Synced(store) ==> !TableUniqueFree(store.cat, store.rows, buf, ref, row)
    ensures r.Ok? && Traceable(store.cat, store.keyspace.entries) ==>
              (r.value <==> TableEntryFree(store.cat, store.keyspace.entries, buf, ref, row))
  {
    hide RowFits, FittingBuffer, UniqueFree, WellCatalogued, GoodDb, KeyOf, Synced, FreeIsRight, EntryFree, Traceable;
    var t := ref.table;
    var def := store.cat[t];
    for i := 0 to |def.indexes|
      invariant FreeIsRight(store, buf) ==>
                  forall j {:trigger def.indexes[j]} :: 0 <= j < i && def.indexes[j].unique ==>
                    UniqueFree(store.rows, buf, KeyOf(store.cat, t, j), ref, row)
      invariant Traceable(store.cat, store.keyspace.entries) ==>
                  forall j {:trigger def.indexes[j]} :: 0 <= j < i && def.indexes[j].unique ==>
                    EntryFree(store.cat, store.keyspace.entries, buf, t, j, ref, row)
    {
      if def.indexes[i].unique {
        var free := CheckIndex(store, t, i, buf, ref, row);
        if free.Err? {
          return free;
        }
        if !free.value {
          return Ok(false);
        }
      }
    }
    return Ok(true);
  }

  // ------------------------------------------------------- commit-time checks

  /** A pending row's claims are compatible with the committed rows. */
  ghost predicate ClaimStands(db: Database, buf: Buffer, key: UniqueKey, x: RowRef)
    requires x in buf
  {
    forall y, v {:trigger HasKey(key, x, buf[x].next, v), db[y]} ::
      y in db && y != x && HasKey(key, x, buf[x].next, v) && key(y, db[y]) == Some(v) ==>
        y in buf && !HasKey(key, y, buf[y].next, v)
  }

  /** The keys of the entries under a start. */
  ghost function Under(m: KeySpace, start: ByteString): set<ByteString>
  {
    set k | k in m && start <= k
  }

  /** One chunk shows every entry of the row's value. */
  ghost predicate InSight(cat: Catalog, m: KeySpace, t: Word, i: nat, ref: RowRef, row: Row)
    requires t in cat && i < |cat[t].indexes|
  {
    IndexedValue(cat, t, i, ref, row).Some? ==>
      |Under(m, ValueStart(cat, t, i, IndexedValue(cat, t, i, ref, row).value))| < SCAN_CHUNK
  }

  /** No entry of the row's value is in the way of a pending row's claim. */
  ghost predicate ClaimClear(cat: Catalog, m: KeySpace, t: Word, i: nat, buf: Buffer, x: RowRef)
    requires t in cat && i < |cat[t].indexes| && x in buf && buf[x].next.Some?
  {
    IndexedValue(cat, t, i, x, buf[x].next.value).Some? ==>
      var v := IndexedValue(cat, t, i, x, buf[x].next.value).value;
      forall k {:trigger m[k]} :: k in m && ValueStart(cat, t, i, v) <= k ==> Harmless(cat, t, i, buf, x, v, m[k])
  }

  method RevalidateRow(store: SqlStore, t: Word, i: nat, buf: Buffer, x: RowRef) returns (r: Result<bool>)
    requires store.Valid() && IsIndex(store.cat, t, i) && FittingBuffer(store.cat, buf)
    requires x in buf && x.table == t && buf[x].next.Some?
    ensures r.Err? ==> !store.keyspace.reliable && r.error == ErrorKind.Backend
    ensures r.Ok? && !r.value ==>
              !ClaimClear(store.cat, store.keyspace.entries, t, i, buf, x) &&
              (Synced(store) ==> !ClaimStands(store.rows, buf, KeyOf(store.cat, t, i), x))
    ensures r.Ok? && r.value && InSight(store.cat, store.keyspace.entries, t, i, x, buf[x].next.value) ==>
              ClaimClear(store.cat, store.keyspace.entries, t, i, buf, x) &&
              (Covers(store.cat, store.rows, store.keyspace.entries) ==>
                ClaimStands(store.rows, buf, KeyOf(store.cat, t, i), x))
    ensures r.Ok? && r.value && Synced(store) && UniqueIn(store.rows, KeyOf(store.cat, t, i)) ==>
              ClaimStands(store.rows, buf, KeyOf(store.cat, t, i), x)
  {
    hide EncodeSlots, BigEndian, Exact, Covers, FirstOf, IndexedValue, ValueOfIndex, WellCatalogued, GoodDb, RowFits,
         KeyOf, ClaimStands, UniqueIn, ValueStart, Harmless, Under;
    assert GoodPending(store.cat, x, buf[x]);
    var value := IndexValue(store.cat, t, i, x, buf[x].next.value);
    ghost var m := store.keyspace.entries;
    ClearStands(store.cat, store.rows, m, t, i, buf, x);
    if value.None? {
      return Ok(true);
    }
    var v := value.value;
    var start := SecondarySpace(store.cat[t].indexes[i].id) + v;
    StartTag(store.cat, t, i, v, start);
    var end := IncBytes(start);
    var kvs := store.keyspace.Scan(start, end.value, SCAN_CHUNK);
    if kvs.Err? {
      return Err(kvs.error);
    }
    var n := 0;
    while n < |kvs.value|
      invariant n <= |kvs.value| && forall j {:trigger kvs.value[j]} :: 0 <= j < n ==>
                Harmless(store.cat, t, i, buf, x, v, kvs.value[j].value)
    {
      var harmless := IsHarmless(store.cat, t, i, buf, x, v, kvs.value[n].value);
      if !harmless {
        ScannedUnder(kvs.value, m, start, end.value, SCAN_CHUNK, n);
        return Ok(false);
      }
      n := n + 1;
    }
    if |Under(m, start)| < SCAN_CHUNK {
      ChunkShowsAll(kvs.value, m, start, end.value, SCAN_CHUNK);
    }
    return Ok(true);
  }

  lemma {:induction false} StartTag(cat: Catalog, t: Word, i: nat, v: ByteString, start: ByteString)
    requires t in cat && i < |cat[t].indexes| && start == SecondarySpace(cat[t].indexes[i].id) + v
    ensures |start| > 0 && start[0] == SECONDARY_PREFIX && start == ValueStart(cat, t, i, v)
  {
    hide BigEndian;
  }

  /** The committed row at pk is the claimant itself, or gives the value up. */
  ghost predicate Harmless(cat: Catalog, t: Word, i: nat, buf: Buffer, x: RowRef, v: ByteString, pk: ByteString)
  {
    pk == x.pk || (RowRef(t, pk) in buf && !HasKey(KeyOf(cat, t, i), RowRef(t, pk), buf[RowRef(t, pk)].next, v))
  }

  method IsHarmless(cat: Catalog, t: Word, i: nat, buf: Buffer, x: RowRef, v: ByteString,
                    pk: ByteString) returns (b: bool)
    requires IsIndex(cat, t, i) && FittingBuffer(cat, buf)
    ensures b <==> Harmless(cat, t, i, buf, x, v, pk)
  {
    hide IndexedValue, RowFits, WellCatalogued;
    if pk == x.pk {
      return true;
    }
    var q := RowRef(t, pk);
    if q !in buf {
      return false;
    }
    if buf[q].next.None? {
      return true;
    }
    var keeps := HasValue(cat, t, i, q, buf[q].next.value, v);
    return !keeps;
  }

  /** Under fewer than limit entries, the scan is all of them. */
  lemma {:induction false} ChunkShowsAll(kvs: seq<KV>, m: KeySpace, start: ByteString, end: ByteString, limit: nat)
    requires FirstOf(kvs, m, start, end, limit) && |Under(m, start)| < limit
    requires forall k: ByteString :: Between(start, k, end) <==> start <= k
    ensures forall k {:trigger m[k]} :: k in m && start <= k ==>
              exists j {:trigger kvs[j]} :: 0 <= j < |kvs| && kvs[j].value == m[k]
  {
    hide Less, Between;
    forall j | 0 <= j < |kvs| ensures kvs[j].key in Under(m, start) {
      ScannedUnder(kvs, m, start, end, limit, j);
    }
    DistinctFit(kvs, Under(m, start));
    forall k | k in m && start <= k ensures exists j {:trigger kvs[j]} :: 0 <= j < |kvs| && kvs[j].value == m[k] {
      assert k in InRange(m, start, end);
      var j :| 0 <= j < |kvs| && kvs[j].key == k;
      assert kvs[j].value == m[k];
    }
  }

  /** Ascending entries have distinct keys, so a set that has them all is as large. */
  lemma {:induction false} DistinctFit(kvs: seq<KV>, keys: set<ByteString>)
    requires Ascending(kvs) && forall j {:trigger kvs[j]} :: 0 <= j < |kvs| ==> kvs[j].key in keys
    ensures |kvs| <= |keys|
    decreases |kvs|
  {
    if |kvs| > 0 {
      var n := |kvs| - 1;
      forall j | 0 <= j < n ensures kvs[..n][j].key in keys - {kvs[n].key} {
        assert kvs[j].key in keys && Less(kvs[j].key, kvs[n].key);
        Trichotomy(kvs[j].key, kvs[n].key);
      }
      DistinctFit(kvs[..n], keys - {kvs[n].key});
    }
  }

  /** A claim no entry is in the way of stands, if the keyspace covers the rows; in an
      exact one only such a claim does, and one chunk shows the entries of a value. */
  lemma {:induction false} ClearStands(cat: Catalog, db: Database, m: KeySpace, t: Word, i: nat, buf: Buffer,
                                       x: RowRef)
    requires IsIndex(cat, t, i) && GoodDb(cat, db)
    requires x in buf && x.table == t && buf[x].next.Some? && RowFits(cat[t], buf[x].next.value)
    ensures Covers(cat, db, m) && ClaimClear(cat, m, t, i, buf, x) ==> ClaimStands(db, buf, KeyOf(cat, t, i), x)
    ensures Exact(cat, db, m) ==>
              Covers(cat, db, m) &&
              (ClaimStands(db, buf, KeyOf(cat, t, i), x) ==> ClaimClear(cat, m, t, i, buf, x)) &&
              (UniqueIn(db, KeyOf(cat, t, i)) ==> InSight(cat, m, t, i, x, buf[x].next.value))
  {
    hide EncodeSlots, BigEndian, Exact, Covers, ValueOfIndex, WellCatalogued, GoodDb, ValueStart, UniqueIn, RowFits,
         ClaimStands, IndexedValue, ClaimClear, InSight;
    if Covers(cat, db, m) && ClaimClear(cat, m, t, i, buf, x) {
      ClearClaim(cat, db, m, t, i, buf, x);
    }
    if Exact(cat, db, m) {
      ExactCovers(cat, db, m);
      HasSlots(cat, t, i, x, buf[x].next.value);
      if ClaimStands(db, buf, KeyOf(cat, t, i), x) {
        StandingClear(cat, db, m, t, i, buf, x);
      }
      if UniqueIn(db, KeyOf(cat, t, i)) {
        OneInSight(cat, db, m, t, i, x, buf[x].next.value);
      }
    }
  }

  lemma {:induction false} HasSlots(cat: Catalog, t: Word, i: nat, ref: RowRef, row: Row)
    requires IsIndex(cat, t, i) && ref.table == t && RowFits(cat[t], row)
    ensures IndexedValue(cat, t, i, ref, row).Some? ==>
              LongEnough(cat[t].indexes[i].ords, row) &&
              ValueOfIndex(cat, t, i, Columns(cat[t].indexes[i], row), IndexedValue(cat, t, i, ref, row).value)
  {
    hide EncodeSlots, WellCatalogued;
    IndexSound(cat, t, i);
    ProjectFits(cat[t].kinds, row, cat[t].indexes[i].ords);
  }

  lemma {:induction false} ClearClaim(cat: Catalog, db: Database, m: KeySpace, t: Word, i: nat, buf: Buffer, x: RowRef)
    requires IsIndex(cat, t, i) && GoodDb(cat, db) && Covers(cat, db, m)
    requires x in buf && x.table == t && buf[x].next.Some? && ClaimClear(cat, m, t, i, buf, x)
    ensures ClaimStands(db, buf, KeyOf(cat, t, i), x)
  {
    hide EncodeSlots, BigEndian, Covers, IndexedValue, WellCatalogued, GoodDb, ValueStart, Harmless;
    var key := KeyOf(cat, t, i);
    forall y, v | y in db && y != x && HasKey(key, x, buf[x].next, v) && key(y, db[y]) == Some(v)
      ensures y in buf && !HasKey(key, y, buf[y].next, v)
    {
      RowEntry(cat, db, m, t, i, v, y);
      ValueHasTable(cat, t, i, y, db[y], v);
      var k := ValueStart(cat, t, i, v) + y.pk;
      assert ValueStart(cat, t, i, v) <= k && m[k] == y.pk;
      HarmlessMeans(cat, t, i, buf, x, v, y);
    }
  }

  lemma {:induction false} StandingClear(cat: Catalog, db: Database, m: KeySpace, t: Word, i: nat, buf: Buffer,
                                         x: RowRef)
    requires IsIndex(cat, t, i) && GoodDb(cat, db) && Exact(cat, db, m)
    requires x in buf && x.table == t && buf[x].next.Some? && RowFits(cat[t], buf[x].next.value)
    requires ClaimStands(db, buf, KeyOf(cat, t, i), x)
    ensures ClaimClear(cat, m, t, i, buf, x)
  {
    hide EncodeSlots, BigEndian, Exact, IndexedValue, ValueOfIndex, WellCatalogued, GoodDb, ValueStart, RowFits;
    HasSlots(cat, t, i, x, buf[x].next.value);
    if IndexedValue(cat, t, i, x, buf[x].next.value).Some? {
      var v := IndexedValue(cat, t, i, x, buf[x].next.value).value;
      var slots := Columns(cat[t].indexes[i], buf[x].next.value);
      forall k | k in m && ValueStart(cat, t, i, v) <= k ensures Harmless(cat, t, i, buf, x, v, m[k]) {
        var y := EntryRow(cat, db, m, t, i, slots, v, k);
        assert y == RowRef(t, m[k]);
        assert HasKey(KeyOf(cat, t, i), x, buf[x].next, v) && KeyOf(cat, t, i)(y, db[y]) == Some(v) && db[y] == db[y];
      }
    }
  }

  /** With a unique index at most one row carries a value, so one chunk shows it. */
  lemma {:induction false} OneInSight(cat: Catalog, db: Database, m: KeySpace, t: Word, i: nat, x: RowRef, row: Row)
    requires IsIndex(cat, t, i) && GoodDb(cat, db) && Exact(cat, db, m) && UniqueIn(db, KeyOf(cat, t, i))
    requires x.table == t && RowFits(cat[t], row)
    ensures InSight(cat, m, t, i, x, row)
  {
    hide EncodeSlots, BigEndian, Exact, IndexedValue, ValueOfIndex, WellCatalogued, GoodDb, ValueStart, RowFits;
    HasSlots(cat, t, i, x, row);
    if IndexedValue(cat, t, i, x, row).Some? {
      var v, slots := IndexedValue(cat, t, i, x, row).value, Columns(cat[t].indexes[i], row);
      var keys := Under(m, ValueStart(cat, t, i, v));
      if a :| a in keys {
        forall b | b in keys ensures a == b {
          var p := EntryRow(cat, db, m, t, i, slots, v, a);
          var q := EntryRow(cat, db, m, t, i, slots, v, b);
          assert KeyOf(cat, t, i)(p, db[p]) == Some(v) && KeyOf(cat, t, i)(q, db[q]) == Some(v);
          assert db[p] == db[p] && db[q] == db[q];
        }
        assert keys == {a};
      } else {
        assert keys == {};
      }
    }
  }

  lemma {:induction false} HarmlessMeans(cat: Catalog, t: Word, i: nat, buf: Buffer, x: RowRef, v: ByteString,
                                         y: RowRef)
    requires Harmless(cat, t, i, buf, x, v, y.pk) && x.table == t && y.table == t && x != y
    ensures y in buf && !HasKey(KeyOf(cat, t, i), y, buf[y].next, v)
  {
    hide IndexedValue;
    assert y == RowRef(t, y.pk);
  }
}

/** Tables, rows, and the keys of the derived keyspace.  */
module Tables {
  import opened Hashing
  import opened ByteStrings
  import opened KeyCodec

  /** A row: one optional value per column; None is NULL. */
  type Row = seq<Option<Cell>>

  datatype IndexDef = IndexDef(id: Word, unique: bool, ords: seq<nat>)
  datatype TableDef = TableDef(id: Word, kinds: seq<Kind>, pkOrds: seq<nat>, indexes: seq<IndexDef>)

  ghost predicate OrdsIn(ords: seq<nat>, n: nat)
  {
    forall i {:trigger ords[i]} :: 0 <= i < |ords| ==> ords[i] < n
  }

  /** A catalogued definition: every ordinal names a column. */
  ghost predicate WellDefined(def: TableDef)
  {
    OrdsIn(def.pkOrds, |def.kinds|) &&
    forall i {:trigger def.indexes[i]} :: 0 <= i < |def.indexes| ==> OrdsIn(def.indexes[i].ords, |def.kinds|)
  }

  /** Values have the kinds of their columns. */
  predicate Fits(slots: seq<Option<Cell>>, kinds: seq<Kind>)
  {
    |slots| == |kinds| && forall i {:trigger slots[i]} :: 0 <= i < |slots| && slots[i].Some? ==>
      KindOf(slots[i].value) == kinds[i]
  }

  predicate NoNulls(slots: seq<Option<Cell>>)
  {
    forall i {:trigger slots[i]} :: 0 <= i < |slots| ==> slots[i].Some?
  }

  /** The columns at ords. */
  function Project<T>(row: seq<T>, ords: seq<nat>): (r: seq<T>)
    requires forall i {:trigger ords[i]} :: 0 <= i < |ords| ==> ords[i] < |row|
    ensures |r| == |ords| && forall i {:trigger r[i]} :: 0 <= i < |ords| ==> r[i] == row[ords[i]]
  {
    seq(|ords|, i requires 0 <= i < |ords| => row[ords[i]])
  }

  /** A row the codec can store: kinds match and the primary key has no NULL. */
  ghost predicate RowFits(def: TableDef, row: Row)
  {
    WellDefined(def) && Fits(row, def.kinds) && NoNulls(Project(row, def.pkOrds))
  }

  // ------------------------------------------------------------------ tuples

  /** One column of a key; secondary indexes mark NULL (0) and present (1). */
  function EncodeSlot(marked: bool, s: Option<Cell>): ByteString
  {
    match s
    case None => if marked then [0] else []
    case Some(c) => (if marked then [1] else []) + EncodeCell(c)
  }

  function EncodeSlots(marked: bool, slots: seq<Option<Cell>>): ByteString
  {
    if slots == [] then [] else EncodeSlot(marked, slots[0]) + EncodeSlots(marked, slots[1..])
  }

  /** NULL first, then by value. */
  ghost predicate SlotLess(a: Option<Cell>, b: Option<Cell>)
  {
    b.Some? && (a.None? || CellLess(a.value, b.value))
  }

  /** Column by column. */
  ghost predicate SlotsLess(a: seq<Option<Cell>>, b: seq<Option<Cell>>)
  {
    |a| > 0 && |b| > 0 && (SlotLess(a[0], b[0]) || (a[0] == b[0] && SlotsLess(a[1..], b[1..])))
  }

  /** Two tuples of the same key: same kinds, NULL only where it is marked. */
  ghost predicate Comparable(marked: bool, a: seq<Option<Cell>>, b: seq<Option<Cell>>)
  {
    |a| == |b| &&
    (forall i {:trigger a[i]} {:trigger b[i]} :: 0 <= i < |a| && a[i].Some? && b[i].Some? ==>
      KindOf(a[i].value) == KindOf(b[i].value)) &&
    (!marked ==> NoNulls(a) && NoNulls(b))
  }

  lemma {:induction false} ComparableTail(marked: bool, a: seq<Option<Cell>>, b: seq<Option<Cell>>)
    requires Comparable(marked, a, b) && a != []
    ensures Comparable(marked, a[1..], b[1..])
  {
  }

  lemma {:induction false} SlotOrder(marked: bool, a: Option<Cell>, b: Option<Cell>, x: ByteString, y: ByteString)
    requires a.Some? && b.Some? ==> KindOf(a.value) == KindOf(b.value)
    requires !marked ==> a.Some? && b.Some?
    ensures Less(EncodeSlot(marked, a) + x, EncodeSlot(marked, b) + y) <==> SlotLess(a, b) || (a == b && Less(x, y))
  {
    hide EncodeCell, CellLess;
    if a.Some? && b.Some? {
      CellOrder(a.value, b.value, x, y);
      if marked {
        assert [1] + EncodeCell(a.value) + x == [1] + (EncodeCell(a.value) + x);
        assert [1] + EncodeCell(b.value) + y == [1] + (EncodeCell(b.value) + y);
        LessAfterPrefix([1], EncodeCell(a.value) + x, EncodeCell(b.value) + y);
      } else {
        assert [] + EncodeCell(a.value) == EncodeCell(a.value) && [] + EncodeCell(b.value) == EncodeCell(b.value);
      }
    } else if a.None? && b.None? {
      LessAfterPrefix([0], x, y);
    }
  }

  /** Concatenated columns: byte order is column order, and the first column to
      differ decides whatever follows. */
  lemma {:induction false} TupleOrder(marked: bool, a: seq<Option<Cell>>, b: seq<Option<Cell>>, x: ByteString,
                                      y: ByteString)
    requires Comparable(marked, a, b)
    ensures Less(EncodeSlots(marked, a) + x, EncodeSlots(marked, b) + y) <==> SlotsLess(a, b) || (a == b && Less(x, y))
    decreases |a|
  {
    hide EncodeSlot, SlotLess, Less;
    if a == [] {
      assert [] + x == x && [] + y == y;
    } else {
      ComparableTail(marked, a, b);
      TupleOrder(marked, a[1..], b[1..], x, y);
      var p, q := EncodeSlots(marked, a[1..]) + x, EncodeSlots(marked, b[1..]) + y;
      SlotOrder(marked, a[0], b[0], p, q);
      assert EncodeSlots(marked, a) + x == EncodeSlot(marked, a[0]) + p;
      assert EncodeSlots(marked, b) + y == EncodeSlot(marked, b[0]) + q;
      assert a == [a[0]] + a[1..] && b == [b[0]] + b[1..];
    }
  }

  lemma {:induction false} SlotsTotal(marked: bool, a: seq<Option<Cell>>, b: seq<Option<Cell>>)
    requires Comparable(marked, a, b) && a != b
    ensures SlotsLess(a, b) || SlotsLess(b, a)
    decreases |a|
  {
    assert a == [a[0]] + a[1..] && b == [b[0]] + b[1..];
    if a[0] == b[0] {
      ComparableTail(marked, a, b);
      SlotsTotal(marked, a[1..], b[1..]);
    } else if a[0].Some? && b[0].Some? {
      CellTotal(a[0].value, b[0].value);
    }
  }

  lemma {:induction false} CellTotal(a: Cell, b: Cell)
    requires KindOf(a) == KindOf(b) && a != b
    ensures CellLess(a, b) || CellLess(b, a)
  {
    if a.TextCell? {
      Trichotomy(a.text, b.text);
    }
  }

  /** Prefix free: an encoded tuple starts only keys of that very tuple. */
  lemma {:induction false} TuplePrefixFree(marked: bool, a: seq<Option<Cell>>, b: seq<Option<Cell>>, y: ByteString)
    requires Comparable(marked, a, b)
    ensures EncodeSlots(marked, a) <= EncodeSlots(marked, b) + y <==> a == b
  {
    hide EncodeSlots;
    var ea, eb := EncodeSlots(marked, a), EncodeSlots(marked, b);
    if ea <= eb + y && a != b {
      var z := (eb + y)[|ea|..];
      assert ea + z == eb + y;
      TupleOrder(marked, a, b, z, y);
      TupleOrder(marked, b, a, y, z);
      Trichotomy(ea + z, eb + y);
      SlotsTotal(marked, a, b);
    }
  }

  /** Injective even with arbitrary suffixes. */
  lemma {:induction false} TupleInjective(marked: bool, a: seq<Option<Cell>>, b: seq<Option<Cell>>, x: ByteString,
                                          y: ByteString)
    requires Comparable(marked, a, b) && EncodeSlots(marked, a) + x == EncodeSlots(marked, b) + y
    ensures a == b && x == y
  {
    hide EncodeSlots;
    var ea := EncodeSlots(marked, a);
    assert ea <= EncodeSlots(marked, b) + y by {
      assert ea <= ea + x;
    }
    TuplePrefixFree(marked, a, b, y);
    assert x == (ea + x)[|ea|..] && y == (ea + y)[|ea|..];
  }

  // -------------------------------------------------------- encoding methods

  lemma {:induction false} EncodeAppend(marked: bool, a: seq<Option<Cell>>, s: Option<Cell>)
    ensures EncodeSlots(marked, a + [s]) == EncodeSlots(marked, a) + EncodeSlot(marked, s)
    decreases |a|
  {
    hide EncodeSlot;
    if a == [] {
      assert a + [s] == [s] && [s][1..] == [];
    } else {
      EncodeAppend(marked, a[1..], s);
      assert (a + [s])[1..] == a[1..] + [s];
    }
  }

  /** The indexed columns of a row in key form, and whether any is NULL. */
  method EncodeIndexCols(def: TableDef, idx: IndexDef, row: Row) returns (r: Result<(ByteString, bool)>)
    requires |row| == |def.kinds| && OrdsIn(idx.ords, |row|)
    ensures var slots := Project(row, idx.ords);
            r == if Fits(slots, Project(def.kinds, idx.ords)) then Ok((EncodeSlots(true, slots), !NoNulls(slots)))
                 else Err(Invalid)
  {
    hide EncodeSlot, EncodeSlots, EncodeCell;
    ghost var slots, kinds := Project(row, idx.ords), Project(def.kinds, idx.ords);
    var buf: ByteString, hasNull := [], false;
    assert EncodeSlots(true, []) == [] by { NoSlots(true); }
    for n := 0 to |idx.ords|
      invariant buf == EncodeSlots(true, slots[..n]) && (hasNull <==> exists i :: 0 <= i < n && slots[i].None?)
      invariant forall i {:trigger slots[i]} :: 0 <= i < n && slots[i].Some? ==> KindOf(slots[i].value) == kinds[i]
    {
      var v := row[idx.ords[n]];
      assert v == slots[n] && slots[..n + 1] == slots[..n] + [v];
      EncodeAppend(true, slots[..n], v);
      MarkedSlot(v);
      if v.None? {
        hasNull, buf := true, buf + [0];
      } else {
        var enc := EncodeKeyCol(buf + [1], def.kinds[idx.ords[n]], v.value);
        if enc.Err? {
          return Err(Invalid);
        }
        buf := enc.value;
      }
    }
    assert slots[..|idx.ords|] == slots;
    return Ok((buf, hasNull));
  }

  lemma {:induction false} NoSlots(marked: bool)
    ensures EncodeSlots(marked, []) == []
  {
  }

  lemma {:induction false} MarkedSlot(s: Option<Cell>)
    ensures EncodeSlot(true, s) == if s.None? then [0] else [1] + EncodeCell(s.value)
    ensures s.Some? ==> EncodeSlot(false, s) == EncodeCell(s.value)
  {
    if s.Some? {
      assert [] + EncodeCell(s.value) == EncodeCell(s.value);
    }
  }

  /** The primary key of a row in key form; NULL is refused. */
  method EncodePK(def: TableDef, row: Row) returns (r: Result<ByteString>)
    requires |row| == |def.kinds| && OrdsIn(def.pkOrds, |row|)
    ensures var slots := Project(row, def.pkOrds);
            r == if NoNulls(slots) && Fits(slots, Project(def.kinds, def.pkOrds)) then Ok(EncodeSlots(false, slots))
                 else Err(Invalid)
  {
    hide EncodeSlot, EncodeSlots, EncodeCell;
    ghost var slots, kinds := Project(row, def.pkOrds), Project(def.kinds, def.pkOrds);
    var buf: ByteString := [];
    assert EncodeSlots(false, []) == [] by { NoSlots(false); }
    for n := 0 to |def.pkOrds|
      invariant buf == EncodeSlots(false, slots[..n])
      invariant forall i {:trigger slots[i]} :: 0 <= i < n ==> slots[i].Some? && KindOf(slots[i].value) == kinds[i]
    {
      var v := row[def.pkOrds[n]];
      assert v == slots[n] && slots[..n + 1] == slots[..n] + [v];
      EncodeAppend(false, slots[..n], v);
      MarkedSlot(v);
      if v.None? {
        return Err(Invalid);
      }
      var enc := EncodeKeyCol(buf, def.kinds[def.pkOrds[n]], v.value);
      if enc.Err? {
        return Err(Invalid);
      }
      buf := enc.value;
    }
    assert slots[..|def.pkOrds|] == slots;
    return Ok(buf);
  }

  // ------------------------------------------------------------ derived keys

  const SCAN_PREFIX: Byte := 105
  const META_KEY: Byte := 106
  const SECONDARY_PREFIX: Byte := 120

  /** The key of a row in the primary scan space. */
  function ScanKey(id: Word, pk: ByteString): ByteString
  {
    [SCAN_PREFIX] + BigEndian(id, 8) + pk
  }

  function SecondarySpace(id: Word): ByteString
  {
    [SECONDARY_PREFIX] + BigEndian(id, 8)
  }

  /** The indexed columns of a row. */
  function Columns(idx: IndexDef, row: Row): seq<Option<Cell>>
    requires forall i {:trigger idx.ords[i]} :: 0 <= i < |idx.ords| ==> idx.ords[i] < |row|
  {
    Project(row, idx.ords)
  }

  /** The key of a row in a secondary index space. */
  function IndexKey(idx: IndexDef, row: Row, pk: ByteString): ByteString
    requires forall i {:trigger idx.ords[i]} :: 0 <= i < |idx.ords| ==> idx.ords[i] < |row|
  {
    SecondarySpace(idx.id) + EncodeSlots(true, Columns(idx, row)) + pk
  }

  /** A row's primary key. */
  function PkOf(def: TableDef, row: Row): ByteString
    requires forall i {:trigger def.pkOrds[i]} :: 0 <= i < |def.pkOrds| ==> def.pkOrds[i] < |row|
  {
    EncodeSlots(false, Project(row, def.pkOrds))
  }

  lemma {:induction false} SpaceSplit(tag: Byte, id1: Word, id2: Word, a: ByteString, b: ByteString)
    requires [tag] + BigEndian(id1, 8) + a == [tag] + BigEndian(id2, 8) + b
    ensures id1 == id2 && a == b
  {
    hide BigEndian;
    var x, y := [tag] + BigEndian(id1, 8) + a, [tag] + BigEndian(id2, 8) + b;
    assert x[1..9] == BigEndian(id1, 8) && y[1..9] == BigEndian(id2, 8);
    assert x[9..] == a && y[9..] == b;
    WordOrder(id1, id2);
  }

  /** Rows of different keys never share a scan key. */
  lemma {:induction false} ScanKeyInjective(id1: Word, id2: Word, pk1: ByteString, pk2: ByteString)
    requires ScanKey(id1, pk1) == ScanKey(id2, pk2)
    ensures id1 == id2 && pk1 == pk2
  {
    hide BigEndian;
    SpaceSplit(SCAN_PREFIX, id1, id2, pk1, pk2);
  }

  /** Rows of one index share a key only if columns and primary key agree. */
  lemma {:induction false} IndexKeyInjective(def: TableDef, idx: IndexDef, r1: Row, r2: Row, pk1: ByteString,
                                             pk2: ByteString)
    requires OrdsIn(idx.ords, |def.kinds|) && Fits(r1, def.kinds) && Fits(r2, def.kinds)
    requires IndexKey(idx, r1, pk1) == IndexKey(idx, r2, pk2)
    ensures Columns(idx, r1) == Columns(idx, r2) && pk1 == pk2
  {
    hide BigEndian, EncodeSlots;
    var a, b := Columns(idx, r1), Columns(idx, r2);
    assert IndexKey(idx, r1, pk1) == SecondarySpace(idx.id) + (EncodeSlots(true, a) + pk1);
    assert IndexKey(idx, r2, pk2) == SecondarySpace(idx.id) + (EncodeSlots(true, b) + pk2);
    SpaceSplit(SECONDARY_PREFIX, idx.id, idx.id, EncodeSlots(true, a) + pk1, EncodeSlots(true, b) + pk2);
    TupleInjective(true, a, b, pk1, pk2);
  }

  lemma {:induction false} IndexKeySpace(i1: IndexDef, i2: IndexDef, r1: Row, r2: Row, pk1: ByteString, pk2: ByteString)
    requires OrdsIn(i1.ords, |r1|) && OrdsIn(i2.ords, |r2|) && IndexKey(i1, r1, pk1) == IndexKey(i2, r2, pk2)
    ensures i1.id == i2.id
  {
    hide BigEndian, EncodeSlots;
    var a, b := EncodeSlots(true, Columns(i1, r1)) + pk1, EncodeSlots(true, Columns(i2, r2)) + pk2;
    assert IndexKey(i1, r1, pk1) == SecondarySpace(i1.id) + a && IndexKey(i2, r2, pk2) == SecondarySpace(i2.id) + b;
    SpaceSplit(SECONDARY_PREFIX, i1.id, i2.id, a, b);
  }
}

/** A small catalogue for concrete inputs: one table of pairs, keyed by the first
    column, with a unique index on the second.  */
module PairTable {
  import opened Hashing
  import opened KeyCodec
  import opened Tables
  import opened RowCodec
  import opened Derived

  const PAIRS: Word := 1
  const PAIR_DEF: TableDef := TableDef(PAIRS, [KInt, KInt], [0], [IndexDef(2, true, [1])])
  const PAIR_CATALOG: Catalog := map[PAIRS := PAIR_DEF]

  function IntSlot(i: Int64): Option<Cell>
  {
    Some(IntCell(i))
  }

  function PairRow(id: Int64, value: Option<Int64>): Row
  {
    [IntSlot(id), if value.Some? then IntSlot(value.value) else None]
  }

  function PairRef(id: Int64): RowRef
  {
    RowRef(PAIRS, EncodeSlots(false, [IntSlot(id)]))
  }

  lemma {:induction false} PairCatalogGood()
    ensures WellCatalogued(PAIR_CATALOG)
  {
    assert forall i :: 0 <= i < |PAIR_DEF.indexes| ==> PAIR_DEF.indexes[i].ords == [1];
  }

  lemma {:induction false} PairStored(id: Int64, value: Option<Int64>)
    ensures GoodRow(PAIR_CATALOG, PairRef(id), PairRow(id, value)) && Storable(PairRow(id, value))
    ensures Columns(PAIR_DEF.indexes[0], PairRow(id, value)) == [PairRow(id, value)[1]]
  {
    hide EncodeSlots;
    PairCatalogGood();
    assert PAIR_CATALOG[PAIRS] == PAIR_DEF;
    assert Project(PairRow(id, value), PAIR_DEF.pkOrds) == [IntSlot(id)];
  }

  /** Different first columns are different rows. */
  lemma {:induction false} PairRefsDiffer(a: Int64, b: Int64)
    requires a != b
    ensures PairRef(a) != PairRef(b)
  {
    hide EncodeSlots;
    var x, y := [IntSlot(a)], [IntSlot(b)];
    assert x[0] != y[0];
    if EncodeSlots(false, x) == EncodeSlots(false, y) {
      TupleInjective(false, x, y, [], []);
    }
  }
}

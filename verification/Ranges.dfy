/** From column ranges to key intervals.  */
module Ranges {
  import opened Hashing
  import opened ByteStrings
  import opened KeyCodec
  import opened Tables

  /** Cut points between values; NULL sorts first. */
  datatype Cut = BelowNull | AboveNull | Below(key: Cell) | Above(key: Cell) | AboveAll

  datatype ColRange = ColRange(lo: Cut, hi: Cut)

  // ------------------------------------------------------ what a range means

  ghost predicate AboveCut(s: Option<Cell>, cut: Cut)
  {
    match cut
    case BelowNull => true
    case AboveNull => s.Some?
    case Below(k) => s.Some? && (s.value == k || CellLess(k, s.value))
    case Above(k) => s.Some? && CellLess(k, s.value)
    case AboveAll => false
  }

  ghost predicate BelowCut(s: Option<Cell>, cut: Cut)
  {
    match cut
    case BelowNull => false
    case AboveNull => s.None?
    case Below(k) => s.None? || CellLess(s.value, k)
    case Above(k) => s.None? || s.value == k || CellLess(s.value, k)
    case AboveAll => true
  }

  ghost predicate InColumn(s: Option<Cell>, c: ColRange)
  {
    AboveCut(s, c.lo) && BelowCut(s, c.hi)
  }

  /** A slot the key space can hold. */
  ghost predicate SlotOk(marked: bool, kind: Kind, s: Option<Cell>)
  {
    if s.Some? then KindOf(s.value) == kind else marked
  }

  // --------------------------------------------------- comparing with a cut

  lemma {:induction false} CellAsym(a: Cell, b: Cell)
    requires KindOf(a) == KindOf(b)
    ensures !(CellLess(a, b) && CellLess(b, a)) && !CellLess(a, a)
  {
    if a.TextCell? {
      Trichotomy(a.text, b.text);
      Trichotomy(a.text, a.text);
    }
  }

  /** A key against the encoding of a value at the same column. */
  lemma {:induction false} AgainstValue(p: ByteString, marked: bool, kind: Kind, s: Option<Cell>, k: Cell,
                                        rest: ByteString)
    requires SlotOk(marked, kind, s) && KindOf(k) == kind
    ensures var key, q := p + EncodeSlot(marked, s) + rest, p + EncodeSlot(marked, Some(k));
            (Less(key, q) <==> BelowCut(s, Below(k))) && (q <= key <==> s == Some(k))
  {
    hide EncodeSlot;
    var a, b := EncodeSlot(marked, s) + rest, EncodeSlot(marked, Some(k));
    var key, q := p + EncodeSlot(marked, s) + rest, p + b;
    assert key == p + a && b == b + [];
    LessAfterPrefix(p, a, b);
    SlotOrder(marked, s, Some(k), rest, []);
    SlotPrefix(marked, kind, s, k, rest);
    if b <= a {
      assert p + b <= p + a;
    }
    if q <= key {
      assert key[|p|..] == a && q[|p|..] == b;
    }
  }

  lemma {:induction false} SlotPrefix(marked: bool, kind: Kind, s: Option<Cell>, k: Cell, rest: ByteString)
    requires SlotOk(marked, kind, s) && KindOf(k) == kind
    ensures EncodeSlot(marked, Some(k)) <= EncodeSlot(marked, s) + rest <==> s == Some(k)
  {
    hide EncodeSlot;
    OneSlot(marked, s);
    OneSlot(marked, Some(k));
    TuplePrefixFree(marked, [Some(k)], [s], rest);
    assert [Some(k)] == [s] <==> Some(k) == s;
  }

  lemma {:induction false} OneSlot(marked: bool, s: Option<Cell>)
    ensures EncodeSlots(marked, [s]) == EncodeSlot(marked, s)
  {
    assert [s][1..] == [];
  }

  /** A key against the present marker: only NULL sorts before it. */
  lemma {:induction false} AgainstMarker(p: ByteString, s: Option<Cell>, rest: ByteString)
    ensures Less(p + EncodeSlot(true, s) + rest, p + [1]) <==> s.None?
  {
    assert p + EncodeSlot(true, s) + rest == p + (EncodeSlot(true, s) + rest);
    LessAfterPrefix(p, EncodeSlot(true, s) + rest, [1]);
  }

  /** Below the end of a prefix range means before the prefix or inside it. */
  lemma {:induction false} BelowEnd(q: ByteString, e: ByteString, key: ByteString)
    requires forall k: ByteString :: Between(q, k, e) <==> q <= k
    ensures Less(key, e) <==> Less(key, q) || q <= key
  {
    assert Between(q, q, e) <==> q <= q;
    assert Between(q, key, e) <==> q <= key;
    Trichotomy(q, q);
    if Less(key, q) {
      LessTrans(key, q, e);
    }
  }

  // ----------------------------------------------------------- single bounds

  /** start cuts the keys that extend p exactly at lo, and none sort before p. */
  ghost predicate LowerMeans(start: ByteString, p: ByteString, marked: bool, kind: Kind, lo: Cut)
  {
    !Less(start, p) &&
    forall s, rest {:trigger p + EncodeSlot(marked, s) + rest} :: SlotOk(marked, kind, s) ==>
      (!Less(p + EncodeSlot(marked, s) + rest, start) <==> AboveCut(s, lo))
  }

  /** end cuts the keys that extend p exactly at hi, and nothing above p's range is below it. */
  ghost predicate UpperMeans(end: ByteString, p: ByteString, marked: bool, kind: Kind, hi: Cut)
  {
    (forall k: ByteString :: Less(k, end) && !Less(k, p) ==> p <= k) &&
    forall s, rest {:trigger p + EncodeSlot(marked, s) + rest} :: SlotOk(marked, kind, s) ==>
      (Less(p + EncodeSlot(marked, s) + rest, end) <==> BelowCut(s, hi))
  }

  /** A cut at a value of another kind than the column's. */
  predicate WrongCut(kind: Kind, cut: Cut)
  {
    (cut.Below? || cut.Above?) && KindOf(cut.key) != kind
  }

  predicate WrongCuts(kind: Kind, c: ColRange)
  {
    WrongCut(kind, c.lo) || WrongCut(kind, c.hi)
  }

  /** No slot of the key space is in the column range. */
  ghost predicate AdmitsNone(marked: bool, kind: Kind, c: ColRange)
  {
    forall s :: SlotOk(marked, kind, s) ==> !InColumn(s, c)
  }

  predicate LowerSupported(kind: Kind, lo: Cut)
  {
    match lo
    case BelowNull => true
    case AboveNull => true
    case Below(k) => KindOf(k) == kind
    case Above(k) => KindOf(k) == kind
    case AboveAll => false
  }

  predicate UpperSupported(marked: bool, kind: Kind, hi: Cut)
  {
    match hi
    case BelowNull => false
    case AboveNull => marked
    case Below(k) => KindOf(k) == kind
    case Above(k) => KindOf(k) == kind
    case AboveAll => true
  }

  lemma {:induction false} StartAtPrefix(p: ByteString, marked: bool, kind: Kind, lo: Cut)
    requires lo.BelowNull? || (lo.AboveNull? && !marked)
    ensures LowerMeans(p, p, marked, kind, lo)
  {
    hide EncodeSlot, Less;
    Trichotomy(p, p);
    forall s, rest | SlotOk(marked, kind, s) ensures !Less(p + EncodeSlot(marked, s) + rest, p) {
      PrefixFirst(p, p + EncodeSlot(marked, s) + rest);
    }
  }

  lemma {:induction false} StartAtMarker(p: ByteString, kind: Kind)
    ensures LowerMeans(p + [1], p, true, kind, AboveNull)
  {
    hide EncodeSlot, Less;
    PrefixFirst(p, p + [1]);
    forall s, rest | SlotOk(true, kind, s) ensures !Less(p + EncodeSlot(true, s) + rest, p + [1]) <==> s.Some? {
      AgainstMarker(p, s, rest);
    }
  }

  lemma {:induction false} StartAtValue(p: ByteString, marked: bool, kind: Kind, k: Cell)
    requires KindOf(k) == kind
    ensures LowerMeans(p + EncodeSlot(marked, Some(k)), p, marked, kind, Below(k))
  {
    hide EncodeSlot, Less, CellLess;
    PrefixFirst(p, p + EncodeSlot(marked, Some(k)));
    forall s, rest | SlotOk(marked, kind, s)
      ensures !Less(p + EncodeSlot(marked, s) + rest, p + EncodeSlot(marked, Some(k))) <==> AboveCut(s, Below(k))
    {
      AgainstValue(p, marked, kind, s, k, rest);
      NotBelowIsAbove(s, k, kind);
    }
  }

  lemma {:induction false} NotBelowIsAbove(s: Option<Cell>, k: Cell, kind: Kind)
    requires KindOf(k) == kind && (s.Some? ==> KindOf(s.value) == kind)
    ensures !BelowCut(s, Below(k)) <==> AboveCut(s, Below(k))
    ensures !BelowCut(s, Above(k)) <==> AboveCut(s, Above(k))
  {
    hide CellLess;
    if s.Some? {
      CellAsym(s.value, k);
      if s.value != k {
        CellTotal(s.value, k);
      }
    }
  }

  lemma {:induction false} StartAfterValue(p: ByteString, marked: bool, kind: Kind, k: Cell, start: ByteString)
    requires KindOf(k) == kind
    requires forall x: ByteString ::
               Between(p + EncodeSlot(marked, Some(k)), x, start) <==> p + EncodeSlot(marked, Some(k)) <= x
    ensures LowerMeans(start, p, marked, kind, Above(k))
  {
    hide EncodeSlot, Less, CellLess;
    var q := p + EncodeSlot(marked, Some(k));
    EndAbove(p, q, start);
    forall s, rest | SlotOk(marked, kind, s)
      ensures !Less(p + EncodeSlot(marked, s) + rest, start) <==> AboveCut(s, Above(k))
    {
      AgainstValue(p, marked, kind, s, k, rest);
      BelowEnd(q, start, p + EncodeSlot(marked, s) + rest);
      NotBelowIsAbove(s, k, kind);
    }
  }

  lemma {:induction false} EndAbove(p: ByteString, q: ByteString, e: ByteString)
    requires p <= q && forall k: ByteString :: Between(q, k, e) <==> q <= k
    ensures !Less(e, p)
  {
    assert Between(q, q, e);
    PrefixFirst(p, q);
    if Less(e, p) {
      LessTrans(q, e, p);
    }
  }

  /** Nothing below the end of a longer prefix's range escapes the shorter prefix. */
  lemma {:induction false} EndsInside(p: ByteString, q: ByteString, e: ByteString, k: ByteString)
    requires p <= q && (forall x: ByteString :: Between(q, x, e) <==> q <= x) && Less(k, e) && !Less(k, p)
    ensures p <= k
  {
    BelowEnd(q, e, k);
    if Less(k, q) {
      BelowExtension(p, q, k);
    }
  }

  lemma {:induction false} BelowExtension(p: ByteString, q: ByteString, k: ByteString)
    requires p <= q && Less(k, q) && !Less(k, p)
    ensures p <= k
    decreases |p|
  {
    if p != [] {
      assert q[0] == p[0];
      assert p == [p[0]] + p[1..];
      if |k| > 0 && k[0] == p[0] {
        assert k == [k[0]] + k[1..];
        BelowExtension(p[1..], q[1..], k[1..]);
      }
    }
  }

  lemma {:induction false} EndAtValue(p: ByteString, marked: bool, kind: Kind, k: Cell)
    requires KindOf(k) == kind
    ensures UpperMeans(p + EncodeSlot(marked, Some(k)), p, marked, kind, Below(k))
  {
    hide EncodeSlot, Less, CellLess;
    var q := p + EncodeSlot(marked, Some(k));
    forall x: ByteString | Less(x, q) && !Less(x, p) ensures p <= x {
      BelowExtension(p, q, x);
    }
    forall s, rest | SlotOk(marked, kind, s)
      ensures Less(p + EncodeSlot(marked, s) + rest, q) <==> BelowCut(s, Below(k))
    {
      AgainstValue(p, marked, kind, s, k, rest);
    }
  }

  lemma {:induction false} EndAtMarker(p: ByteString, kind: Kind)
    ensures UpperMeans(p + [1], p, true, kind, AboveNull)
  {
    hide EncodeSlot, Less;
    forall x: ByteString | Less(x, p + [1]) && !Less(x, p) ensures p <= x {
      BelowExtension(p, p + [1], x);
    }
    forall s, rest | SlotOk(true, kind, s) ensures Less(p + EncodeSlot(true, s) + rest, p + [1]) <==> s.None? {
      AgainstMarker(p, s, rest);
    }
  }

  lemma {:induction false} EndAfterValue(p: ByteString, marked: bool, kind: Kind, k: Cell, end: ByteString)
    requires KindOf(k) == kind
    requires forall x: ByteString ::
               Between(p + EncodeSlot(marked, Some(k)), x, end) <==> p + EncodeSlot(marked, Some(k)) <= x
    ensures UpperMeans(end, p, marked, kind, Above(k))
  {
    hide EncodeSlot, Less, CellLess;
    var q := p + EncodeSlot(marked, Some(k));
    forall x: ByteString | Less(x, end) && !Less(x, p) ensures p <= x {
      EndsInside(p, q, end, x);
    }
    forall s, rest | SlotOk(marked, kind, s)
      ensures Less(p + EncodeSlot(marked, s) + rest, end) <==> BelowCut(s, Above(k))
    {
      AgainstValue(p, marked, kind, s, k, rest);
      BelowEnd(q, end, p + EncodeSlot(marked, s) + rest);
    }
  }

  lemma {:induction false} EndOfPrefix(p: ByteString, marked: bool, kind: Kind, end: ByteString)
    requires forall x: ByteString :: Between(p, x, end) <==> p <= x
    ensures UpperMeans(end, p, marked, kind, AboveAll)
  {
    hide EncodeSlot, Less;
    forall x: ByteString | Less(x, end) && !Less(x, p) ensures p <= x {
      assert Between(p, x, end);
    }
    forall s, rest | SlotOk(marked, kind, s) ensures Less(p + EncodeSlot(marked, s) + rest, end) {
      BelowEnd(p, end, p + EncodeSlot(marked, s) + rest);
    }
  }

  // ------------------------------------------------------ the bounded column

  /** Key spaces start with a byte below 0xFF, so every prefix range has an end. */
  predicate HasRoom(p: ByteString)
  {
    |p| > 0 && p[0] != 255
  }

  method WithMarker(prefix: ByteString, marked: bool, kind: Kind, k: Cell) returns (r: Option<ByteString>)
    ensures r == if KindOf(k) == kind then Some(prefix + EncodeSlot(marked, Some(k))) else None
  {
    hide EncodeSlot, EncodeCell;
    MarkedSlot(Some(k));
    var enc := EncodeKeyCol([], kind, k);
    if enc.Err? {
      return None;
    }
    assert [] + EncodeCell(k) == EncodeCell(k);
    return Some(prefix + (if marked then [1] + enc.value else enc.value));
  }

  method LowerBound(prefix: ByteString, marked: bool, kind: Kind, lo: Cut) returns (r: Option<ByteString>)
    requires HasRoom(prefix)
    ensures r.Some? <==> LowerSupported(kind, lo)
    ensures r.None? <== WrongCut(kind, lo)
    ensures r.None? ==> WrongCut(kind, lo) || forall s :: SlotOk(marked, kind, s) ==> !AboveCut(s, lo)
    ensures r.Some? ==> LowerMeans(r.value, prefix, marked, kind, lo)
  {
    hide EncodeSlot, Less, LowerMeans, CellLess;
    match lo {
      case BelowNull =>
        StartAtPrefix(prefix, marked, kind, lo);
        return Some(prefix);
      case AboveNull =>
        if !marked {
          StartAtPrefix(prefix, marked, kind, lo);
          return Some(prefix);
        }
        StartAtMarker(prefix, kind);
        return Some(prefix + [1]);
      case Below(k) =>
        r := WithMarker(prefix, marked, kind, k);
        if r.Some? {
          StartAtValue(prefix, marked, kind, k);
        }
      case Above(k) =>
        var q := WithMarker(prefix, marked, kind, k);
        if q.None? {
          return None;
        }
        assert q.value[0] == prefix[0];
        r := IncBytes(q.value);
        StartAfterValue(prefix, marked, kind, k, r.value);
      case AboveAll =>
        return None;
    }
  }

  method UpperBound(prefix: ByteString, marked: bool, kind: Kind, hi: Cut) returns (r: Option<ByteString>)
    requires HasRoom(prefix)
    ensures r.Some? <==> UpperSupported(marked, kind, hi)
    ensures r.None? <== WrongCut(kind, hi)
    ensures r.None? ==> WrongCut(kind, hi) || forall s :: SlotOk(marked, kind, s) ==> !BelowCut(s, hi)
    ensures r.Some? ==> UpperMeans(r.value, prefix, marked, kind, hi)
  {
    hide EncodeSlot, Less, UpperMeans, CellLess;
    match hi {
      case AboveAll =>
        assert prefix[0] != 255;
        r := IncBytes(prefix);
        EndOfPrefix(prefix, marked, kind, r.value);
      case Above(k) =>
        var q := WithMarker(prefix, marked, kind, k);
        if q.None? {
          return None;
        }
        assert q.value[0] == prefix[0];
        r := IncBytes(q.value);
        EndAfterValue(prefix, marked, kind, k, r.value);
      case Below(k) =>
        r := WithMarker(prefix, marked, kind, k);
        if r.Some? {
          EndAtValue(prefix, marked, kind, k);
        }
      case AboveNull =>
        if !marked {
          return None;
        }
        EndAtMarker(prefix, kind);
        return Some(prefix + [1]);
      case BelowNull =>
        return None;
    }
  }

  /** The keys that extend p by slot s (and anything after it) fall in [start, end)
      exactly when s is in the range; nothing else does. */
  ghost predicate BoundsMean(start: ByteString, end: ByteString, p: ByteString, marked: bool, kind: Kind, c: ColRange)
  {
    (forall k: ByteString :: Between(start, k, end) ==> p <= k) &&
    forall s, rest {:trigger p + EncodeSlot(marked, s) + rest} :: SlotOk(marked, kind, s) ==>
      (Between(start, p + EncodeSlot(marked, s) + rest, end) <==> InColumn(s, c))
  }

  /** The interval of keys that extend the prefix by a value of the column range. */
  method BoundedColumn(prefix: ByteString, marked: bool, kind: Kind,
                       c: ColRange) returns (r: Option<(ByteString, ByteString)>)
    requires HasRoom(prefix)
    ensures r.Some? <==> LowerSupported(kind, c.lo) && UpperSupported(marked, kind, c.hi)
    ensures r.None? <== WrongCuts(kind, c)
    ensures r.None? ==> WrongCuts(kind, c) || AdmitsNone(marked, kind, c)
    ensures r.Some? ==> BoundsMean(r.value.0, r.value.1, prefix, marked, kind, c)
  {
    hide EncodeSlot, Less, UpperMeans, LowerMeans, AboveCut, BelowCut, BoundsMean;
    var start := LowerBound(prefix, marked, kind, c.lo);
    if start.None? {
      return None;
    }
    var end := UpperBound(prefix, marked, kind, c.hi);
    if end.None? {
      return None;
    }
    JoinBounds(start.value, end.value, prefix, marked, kind, c);
    return Some((start.value, end.value));
  }

  lemma {:induction false} JoinBounds(start: ByteString, end: ByteString, p: ByteString, marked: bool, kind: Kind,
                                      c: ColRange)
    requires LowerMeans(start, p, marked, kind, c.lo) && UpperMeans(end, p, marked, kind, c.hi)
    ensures BoundsMean(start, end, p, marked, kind, c)
  {
    hide EncodeSlot, Less, AboveCut, BelowCut;
    forall k: ByteString | Between(start, k, end) ensures p <= k {
      if Less(k, p) {
        BelowStart(k, p, start);
      }
    }
  }

  lemma {:induction false} BelowStart(k: ByteString, p: ByteString, start: ByteString)
    requires Less(k, p) && !Less(start, p)
    ensures Less(k, start)
  {
    Trichotomy(start, p);
    if start != p {
      LessTrans(k, p, start);
    }
  }

  // ------------------------------------------------------------ whole ranges

  /** An exact column: the NULL point, or one value. */
  predicate ExactCol(marked: bool, kind: Kind, c: ColRange)
  {
    (c.lo.BelowNull? && c.hi.AboveNull? && marked) ||
    (c.lo.Below? && c.hi.Above? && c.lo.key == c.hi.key && KindOf(c.lo.key) == kind)
  }

  /** The one slot an exact column admits. */
  function ExactSlot(c: ColRange): Option<Cell>
  {
    if c.lo.Below? then Some(c.lo.key) else None
  }

  lemma {:induction false} ExactAdmitsOne(marked: bool, kind: Kind, c: ColRange, s: Option<Cell>)
    requires ExactCol(marked, kind, c) && SlotOk(marked, kind, s)
    ensures InColumn(s, c) <==> s == ExactSlot(c)
    ensures SlotOk(marked, kind, ExactSlot(c))
  {
    hide CellLess;
    if c.lo.Below? && s.Some? {
      CellAsym(s.value, c.lo.key);
    }
  }

  /** How many leading columns are exact. */
  ghost function ExactCount(marked: bool, kinds: seq<Kind>, rng: seq<ColRange>): (n: nat)
    ensures n <= |kinds| && n <= |rng|
  {
    if kinds == [] || rng == [] || !ExactCol(marked, kinds[0], rng[0]) then 0
    else 1 + ExactCount(marked, kinds[1..], rng[1..])
  }

  lemma {:induction false} ExactCountIs(marked: bool, kinds: seq<Kind>, rng: seq<ColRange>, n: nat)
    requires n <= |kinds| && n <= |rng|
    requires forall i {:trigger rng[i]} :: 0 <= i < n ==> ExactCol(marked, kinds[i], rng[i])
    requires n == |kinds| || n == |rng| || !ExactCol(marked, kinds[n], rng[n])
    ensures ExactCount(marked, kinds, rng) == n
    decreases n
  {
    hide ExactCol;
    if n > 0 {
      assert ExactCol(marked, kinds[0], rng[0]);
      ExactCountIs(marked, kinds[1..], rng[1..], n - 1);
    }
  }

  /** How many leading columns the scan bounds speak about. */
  ghost function Consumed(marked: bool, kinds: seq<Kind>, rng: seq<ColRange>): nat
  {
    var n := ExactCount(marked, kinds, rng);
    if n == |kinds| || n == |rng| then n else n + 1
  }

  /** The ranges the key space can serve. */
  ghost predicate Supported(marked: bool, kinds: seq<Kind>, rng: seq<ColRange>)
  {
    var n := ExactCount(marked, kinds, rng);
    n == |kinds| || n == |rng| || (LowerSupported(kinds[n], rng[n].lo) && UpperSupported(marked, kinds[n], rng[n].hi))
  }

  /** The columns before n are exact, and n is not. */
  ghost predicate Ahead(marked: bool, kinds: seq<Kind>, rng: seq<ColRange>, n: int)
  {
    0 <= n < |kinds| && n < |rng| && !ExactCol(marked, kinds[n], rng[n]) &&
    forall i {:trigger rng[i]} :: 0 <= i < n ==> ExactCol(marked, kinds[i], rng[i])
  }

  /** Why a range is refused: at its first column that is not exact a cut has another
      kind, or nothing is in range. */
  ghost predicate Stuck(marked: bool, kinds: seq<Kind>, rng: seq<ColRange>, n: int)
  {
    Ahead(marked, kinds, rng, n) && (WrongCuts(kinds[n], rng[n]) || AdmitsNone(marked, kinds[n], rng[n]))
  }

  lemma {:induction false} AheadCount(marked: bool, kinds: seq<Kind>, rng: seq<ColRange>, n: nat)
    requires Ahead(marked, kinds, rng, n)
    ensures ExactCount(marked, kinds, rng) == n && Consumed(marked, kinds, rng) == n + 1
  {
    hide ExactCol;
    ExactCountIs(marked, kinds, rng, n);
  }

  lemma {:induction false} OneAhead(marked: bool, kinds: seq<Kind>, rng: seq<ColRange>, n: nat)
    requires Ahead(marked, kinds, rng, n)
    ensures forall k :: Ahead(marked, kinds, rng, k) ==> k == n
  {
    hide ExactCol;
    forall k | Ahead(marked, kinds, rng, k) ensures k == n {
      AheadCount(marked, kinds, rng, n);
      AheadCount(marked, kinds, rng, k);
    }
  }

  lemma {:induction false} StuckIfUnsupported(marked: bool, kinds: seq<Kind>, rng: seq<ColRange>, n: nat)
    requires Ahead(marked, kinds, rng, n)
    ensures !Supported(marked, kinds, rng) ==> Stuck(marked, kinds, rng, n)
    ensures WrongCuts(kinds[n], rng[n]) ==> !Supported(marked, kinds, rng)
  {
    hide ExactCol, CellLess;
    AheadCount(marked, kinds, rng, n);
  }

  /** The column range of one slot: x = v, or x IS NULL. */
  function PointOf(slot: Option<Cell>): ColRange
  {
    if slot.Some? then ColRange(Below(slot.value), Above(slot.value)) else ColRange(BelowNull, AboveNull)
  }

  /** Leading columns asked for by value are all decided by the interval, and so is the
      column after them. */
  lemma {:induction false} PointsConsumed(marked: bool, kinds: seq<Kind>, rng: seq<ColRange>,
                                          points: seq<Option<Cell>>)
    requires |points| <= |kinds| && |points| <= |rng|
    requires forall i {:trigger rng[i]} :: 0 <= i < |points| ==>
               SlotOk(marked, kinds[i], points[i]) && rng[i] == PointOf(points[i])
    ensures |points| <= Consumed(marked, kinds, rng)
    ensures |points| < |kinds| && |points| < |rng| ==> |points| < Consumed(marked, kinds, rng)
    decreases |points|
  {
    if |points| > 0 {
      assert rng[0] == PointOf(points[0]);
      forall i | 0 <= i < |points[1..]|
        ensures SlotOk(marked, kinds[1..][i], points[1..][i]) && rng[1..][i] == PointOf(points[1..][i])
      {
        assert rng[i + 1] == PointOf(points[i + 1]);
      }
      PointsConsumed(marked, kinds[1..], rng[1..], points[1..]);
    }
  }

  /** Tuples of the index: one slot per indexed column. */
  ghost predicate KeySlots(marked: bool, kinds: seq<Kind>, slots: seq<Option<Cell>>)
  {
    |slots| == |kinds| && forall i {:trigger slots[i]} :: 0 <= i < |slots| ==> SlotOk(marked, kinds[i], slots[i])
  }

  /** The first n columns are in range. */
  ghost predicate InColumns(slots: seq<Option<Cell>>, rng: seq<ColRange>, n: nat)
    requires n <= |slots| && n <= |rng|
  {
    forall i {:trigger slots[i]} :: 0 <= i < n ==> InColumn(slots[i], rng[i])
  }

  /** The key of a tuple with what follows it. */
  ghost function KeyWith(space: ByteString, marked: bool, slots: seq<Option<Cell>>, suffix: ByteString): ByteString
  {
    space + EncodeSlots(marked, slots) + suffix
  }

  /** The interval holds exactly the keys whose consumed columns are in range. */
  ghost predicate IntervalMeans(start: ByteString, end: ByteString, space: ByteString, marked: bool, kinds: seq<Kind>,
                                rng: seq<ColRange>, n: nat)
    requires n <= |kinds| && n <= |rng|
  {
    forall slots, suffix {:trigger KeyWith(space, marked, slots, suffix)} :: KeySlots(marked, kinds, slots) ==>
      (Between(start, KeyWith(space, marked, slots, suffix), end) <==> InColumns(slots, rng, n))
  }

  lemma {:induction false} EncodeSplit(marked: bool, a: seq<Option<Cell>>, b: seq<Option<Cell>>)
    ensures EncodeSlots(marked, a + b) == EncodeSlots(marked, a) + EncodeSlots(marked, b)
    decreases |a|
  {
    hide EncodeSlot;
    if a == [] {
      assert a + b == b;
    } else {
      EncodeSplit(marked, a[1..], b);
      assert (a + b)[1..] == a[1..] + b;
    }
  }

  /** The leading columns so far are exact, and exact holds their slots. */
  ghost predicate ExactSoFar(marked: bool, kinds: seq<Kind>, rng: seq<ColRange>, exact: seq<Option<Cell>>)
  {
    |exact| <= |kinds| && |exact| <= |rng| &&
    forall i {:trigger exact[i]} {:trigger rng[i]} :: 0 <= i < |exact| ==>
      ExactCol(marked, kinds[i], rng[i]) && exact[i] == ExactSlot(rng[i])
  }

  /** A key starts with the exact prefix exactly when its leading columns match. */
  lemma {:induction false} ExactPrefix(space: ByteString, marked: bool, kinds: seq<Kind>, rng: seq<ColRange>,
                                       exact: seq<Option<Cell>>,
                                       slots: seq<Option<Cell>>, suffix: ByteString)
    requires ExactSoFar(marked, kinds, rng, exact) && KeySlots(marked, kinds, slots)
    ensures space + EncodeSlots(marked, exact) <= KeyWith(space, marked, slots, suffix) <==> slots[..|exact|] == exact
    ensures InColumns(slots, rng, |exact|) <==> slots[..|exact|] == exact
  {
    hide EncodeSlots, ExactCol, InColumn, ExactSlot;
    var n := |exact|;
    var head, tail := slots[..n], slots[n..];
    forall i | 0 <= i < n
      ensures (InColumn(slots[i], rng[i]) <==> slots[i] == exact[i]) && SlotOk(marked, kinds[i], exact[i])
    {
      ExactAdmitsOne(marked, kinds[i], rng[i], slots[i]);
    }
    assert slots == head + tail;
    EncodeSplit(marked, head, tail);
    var rest := EncodeSlots(marked, tail) + suffix;
    var key := KeyWith(space, marked, slots, suffix);
    assert key == space + (EncodeSlots(marked, head) + rest);
    TuplePrefixFree(marked, exact, head, rest);
    PrefixAfter(space, EncodeSlots(marked, exact), EncodeSlots(marked, head) + rest);
  }

  lemma {:induction false} PrefixAfter(p: ByteString, a: ByteString, b: ByteString)
    ensures p + a <= p + b <==> a <= b
  {
    if p + a <= p + b {
      assert (p + a)[|p|..] == a && (p + b)[|p|..] == b;
    }
  }

  lemma {:induction false} AllExact(start: ByteString, end: ByteString, space: ByteString, marked: bool,
                                    kinds: seq<Kind>, rng: seq<ColRange>,
                                    exact: seq<Option<Cell>>)
    requires ExactSoFar(marked, kinds, rng, exact) && start == space + EncodeSlots(marked, exact)
    requires forall k: ByteString :: Between(start, k, end) <==> start <= k
    ensures IntervalMeans(start, end, space, marked, kinds, rng, |exact|)
  {
    hide EncodeSlots, InColumns, Between, KeyWith, SlotOk, ExactCol, ExactSlot;
    forall slots, suffix | KeySlots(marked, kinds, slots)
      ensures Between(start, KeyWith(space, marked, slots, suffix), end) <==> InColumns(slots, rng, |exact|)
    {
      ExactPrefix(space, marked, kinds, rng, exact, slots, suffix);
    }
  }

  lemma {:induction false} OneBounded(start: ByteString, end: ByteString, space: ByteString, marked: bool,
                                      kinds: seq<Kind>, rng: seq<ColRange>,
                                      exact: seq<Option<Cell>>)
    requires ExactSoFar(marked, kinds, rng, exact) && |exact| < |kinds| && |exact| < |rng|
    requires BoundsMean(start, end, space + EncodeSlots(marked, exact), marked, kinds[|exact|], rng[|exact|])
    ensures IntervalMeans(start, end, space, marked, kinds, rng, |exact| + 1)
  {
    hide EncodeSlots, ExactSoFar, SlotOk, InColumns, KeyWith, BoundsMean;
    forall slots, suffix | KeySlots(marked, kinds, slots)
      ensures Between(start, KeyWith(space, marked, slots, suffix), end) <==> InColumns(slots, rng, |exact| + 1)
    {
      OneBoundedKey(start, end, space, marked, kinds, rng, exact, slots, suffix);
    }
  }

  lemma {:induction false} OneBoundedKey(start: ByteString, end: ByteString, space: ByteString, marked: bool,
                                         kinds: seq<Kind>, rng: seq<ColRange>,
                                         exact: seq<Option<Cell>>, slots: seq<Option<Cell>>, suffix: ByteString)
    requires ExactSoFar(marked, kinds, rng, exact) && |exact| < |kinds| && |exact| < |rng|
    requires KeySlots(marked, kinds, slots)
    requires BoundsMean(start, end, space + EncodeSlots(marked, exact), marked, kinds[|exact|], rng[|exact|])
    ensures Between(start, KeyWith(space, marked, slots, suffix), end) <==> InColumns(slots, rng, |exact| + 1)
  {
    hide EncodeSlots, ExactSoFar, EncodeSlot, InColumn, SlotOk, Between, KeyWith;
    var n := |exact|;
    var p, key := space + EncodeSlots(marked, exact), KeyWith(space, marked, slots, suffix);
    ExactPrefix(space, marked, kinds, rng, exact, slots, suffix);
    if slots[..n] == exact {
      KeySplits(space, marked, exact, slots, suffix);
      var rest := EncodeSlots(marked, slots[n + 1..]) + suffix;
      assert key == p + EncodeSlot(marked, slots[n]) + rest;
      assert SlotOk(marked, kinds[n], slots[n]);
    }
  }

  lemma {:induction false} KeySplits(space: ByteString, marked: bool, exact: seq<Option<Cell>>,
                                     slots: seq<Option<Cell>>, suffix: ByteString)
    requires |exact| < |slots| && slots[..|exact|] == exact
    ensures KeyWith(space, marked, slots, suffix)
         == space + EncodeSlots(marked, exact) + EncodeSlot(marked, slots[|exact|]) +
            (EncodeSlots(marked, slots[|exact| + 1..]) + suffix)
  {
    hide EncodeSlot;
    var n := |exact|;
    var tail := slots[n..];
    assert slots == exact + tail && tail[1..] == slots[n + 1..];
    EncodeSplit(marked, exact, tail);
    assert EncodeSlots(marked, tail) == EncodeSlot(marked, slots[n]) + EncodeSlots(marked, slots[n + 1..]);
  }

  /** One more exact column. */
  lemma {:induction false} ExactNext(marked: bool, kinds: seq<Kind>, rng: seq<ColRange>, exact: seq<Option<Cell>>)
    requires ExactSoFar(marked, kinds, rng, exact) && |exact| < |kinds| && |exact| < |rng|
    requires ExactCol(marked, kinds[|exact|], rng[|exact|])
    ensures ExactSoFar(marked, kinds, rng, exact + [ExactSlot(rng[|exact|])])
  {
    hide ExactCol, ExactSlot;
  }

  /** Scan bounds for a range over the leading columns of a key space. */
  method RangeBounds(space: ByteString, marked: bool, kinds: seq<Kind>,
                     rng: seq<ColRange>) returns (r: Option<(ByteString, ByteString)>)
    requires HasRoom(space)
    ensures r.Some? <==> Supported(marked, kinds, rng)
    ensures r.None? ==> exists n :: Stuck(marked, kinds, rng, n)
    ensures forall n :: Ahead(marked, kinds, rng, n) && WrongCuts(kinds[n], rng[n]) ==> r.None?
    ensures Consumed(marked, kinds, rng) <= |kinds| && Consumed(marked, kinds, rng) <= |rng|
    ensures r.Some? ==> IntervalMeans(r.value.0, r.value.1, space, marked, kinds, rng, Consumed(marked, kinds, rng))
    ensures r.Some? ==> Inside(space, r.value.0, r.value.1)
  {
    hide EncodeSlot, EncodeSlots, IntervalMeans, BoundsMean, EncodeCell, ExactCount, Inside, AdmitsNone;
    var prefix := space;
    ghost var exact: seq<Option<Cell>> := [];
    NoSlots(marked);
    var i := 0;
    while i < |rng| && i < |kinds|
      invariant i == |exact| && ExactSoFar(marked, kinds, rng, exact)
      invariant prefix == space + EncodeSlots(marked, exact)
    {
      var c, kind := rng[i], kinds[i];
      var slot := ExactSlot(c);
      MarkedSlot(slot);
      if c.lo.BelowNull? && c.hi.AboveNull? && marked {
        prefix := prefix + [0];
      } else if c.lo.Below? && c.hi.Above? && (KindOf(c.lo.key) != kind || KindOf(c.hi.key) != kind) {
        ExactSoFarCount(marked, kinds, rng, exact);
        assert Stuck(marked, kinds, rng, i);
        return None;
      } else if c.lo.Below? && c.hi.Above? && EncodeCell(c.lo.key) == EncodeCell(c.hi.key) {
        CellInjective(c.lo.key, c.hi.key);
        prefix := prefix + (if marked then [1] else []) + EncodeCell(c.lo.key);
      } else {
        ExactSoFarCount(marked, kinds, rng, exact);
        OneAhead(marked, kinds, rng, i);
        r := BoundedColumn(prefix, marked, kind, c);
        if r.Some? {
          OneBounded(r.value.0, r.value.1, space, marked, kinds, rng, exact);
          BoundsInside(r.value.0, r.value.1, space, prefix, marked, kind, c);
        } else {
          assert Stuck(marked, kinds, rng, i);
        }
        return;
      }
      ExactNext(marked, kinds, rng, exact);
      EncodeAppend(marked, exact, slot);
      exact := exact + [slot];
      i := i + 1;
    }
    ExactSoFarCount(marked, kinds, rng, exact);
    assert prefix[0] == space[0];
    var end := IncBytes(prefix);
    AllExact(prefix, end.value, space, marked, kinds, rng, exact);
    PrefixInside(prefix, end.value, space);
    return Some((prefix, end.value));
  }

  lemma {:induction false} BoundsInside(start: ByteString, end: ByteString, space: ByteString, p: ByteString,
                                        marked: bool, kind: Kind, c: ColRange)
    requires BoundsMean(start, end, p, marked, kind, c) && space <= p
    ensures Inside(space, start, end)
  {
    hide Between, InColumn, SlotOk;
  }

  lemma {:induction false} PrefixInside(start: ByteString, end: ByteString, space: ByteString)
    requires (forall k: ByteString :: Between(start, k, end) <==> start <= k) && space <= start
    ensures Inside(space, start, end)
  {
    hide Between;
  }

  lemma {:induction false} ExactSoFarCount(marked: bool, kinds: seq<Kind>, rng: seq<ColRange>, exact: seq<Option<Cell>>)
    requires ExactSoFar(marked, kinds, rng, exact)
    requires |exact| == |kinds| || |exact| == |rng| || !ExactCol(marked, kinds[|exact|], rng[|exact|])
    ensures ExactCount(marked, kinds, rng) == |exact|
    ensures |exact| < |kinds| && |exact| < |rng| ==> Ahead(marked, kinds, rng, |exact|)
  {
    hide ExactCol, ExactSlot;
    ExactCountIs(marked, kinds, rng, |exact|);
  }

  lemma {:induction false} CellInjective(a: Cell, b: Cell)
    requires KindOf(a) == KindOf(b) && EncodeCell(a) == EncodeCell(b)
    ensures a == b
  {
    hide EncodeCell, EncodeSlots;
    OneSlot(false, Some(a));
    OneSlot(false, Some(b));
    MarkedSlot(Some(a));
    MarkedSlot(Some(b));
    TupleInjective(false, [Some(a)], [Some(b)], [], []);
    assert [Some(a)][0] == [Some(b)][0];
  }

  /** The interval is a superset: a row that matches every given column is in it. */
  lemma {:induction false} RangeIsSuperset(start: ByteString, end: ByteString, space: ByteString, marked: bool,
                                           kinds: seq<Kind>, rng: seq<ColRange>,
                                           n: nat, slots: seq<Option<Cell>>, suffix: ByteString)
    requires n <= |kinds| && n <= |rng| && IntervalMeans(start, end, space, marked, kinds, rng, n)
    requires KeySlots(marked, kinds, slots)
    requires InColumns(slots, rng, if |kinds| < |rng| then |kinds| else |rng|)
    ensures Between(start, KeyWith(space, marked, slots, suffix), end)
  {
    hide InColumn, SlotOk, KeyWith, Between;
  }
}

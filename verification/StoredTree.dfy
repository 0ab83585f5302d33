/** Stored nodes, their 16-slot binary hash, and the tree a version is made of.  */
module StoredTree {
  import opened Hashing
  import opened SparseMerkle

  /** What a node knows of the node in one of its slots. */
  datatype Child = Child(version: nat, hash: Digest, isLeaf: bool)

  /** A node record: one leaf, or sixteen slots. */
  datatype NodeRecord =
    | LeafNode(path: Path, info: Info)
    | InternalNode(children: seq<Option<Child>>)

  /** A whole version's tree: every position carries the version of its record. */
  datatype Tree =
    | Empty
    | Tip(ver: nat, path: Path, info: Info)
    | Fork(ver: nat, kids: seq<Tree>)

  // ---------------------------------------------------------------- hashing

  /** No slot of [start, start + width) is occupied. */
  ghost predicate Vacant(children: seq<Option<Child>>, start: nat, width: nat)
    requires start + width <= |children|
  {
    forall i :: start <= i < start + width ==> children[i].None?
  }

  /** Slot i is the only occupied one of [start, start + width). */
  ghost predicate Lone(children: seq<Option<Child>>, start: nat, width: nat, i: nat)
    requires start + width <= |children|
  {
    start <= i < start + width && children[i].Some? &&
    forall j :: start <= j < start + width && j != i ==> children[j].None?
  }

  /** Slot i stands for the whole range: it is alone there, and is either the
      range's only slot or a leaf. */
  ghost predicate Rises(children: seq<Option<Child>>, start: nat, width: nat, i: nat)
    requires start + width <= |children|
  {
    Lone(children, start, width, i) && (width == 1 || children[i].value.isLeaf)
  }

  /** The hash of width slots from start on, halved down to single slots. */
  ghost function SubtreeHash(children: seq<Option<Child>>, start: nat, width: nat): Digest
    requires start + width <= |children|
    decreases width
  {
    if Vacant(children, start, width) then Placeholder
    else if i: nat :| Rises(children, start, width, i) then children[i].value.hash
    else if width < 2 then Placeholder
    else NodeHash(SubtreeHash(children, start, width / 2), SubtreeHash(children, start + width / 2, width / 2))
  }

  ghost function RecordHash(n: NodeRecord): Digest
    requires n.InternalNode? ==> |n.children| == SLOTS
  {
    match n
    case LeafNode(path, info) => LeafHash(path, info.vh)
    case InternalNode(children) => SubtreeHash(children, 0, SLOTS)
  }

  ghost function TreeHash(t: Tree): Digest
    decreases t, 0
  {
    match t
    case Empty => Placeholder
    case Tip(_, path, info) => LeafHash(path, info.vh)
    case Fork(_, kids) => if |kids| == SLOTS then SubtreeHash(Refs(kids), 0, SLOTS) else Placeholder
  }

  ghost function Refs(kids: seq<Tree>): (r: seq<Option<Child>>)
    ensures |r| == |kids|
    ensures forall i :: 0 <= i < |kids| ==> r[i] == RefOf(kids[i])
    decreases kids, 0
  {
    seq(|kids|, i requires 0 <= i < |kids| => RefOf(kids[i]))
  }

  /** The reference a parent holds to t (none for an empty subtree). */
  ghost function RefOf(t: Tree): Option<Child>
    decreases t, 1
  {
    if t.Empty? then None else Some(Child(t.ver, TreeHash(t), t.Tip?))
  }

  // -------------------------------------------------------------- canonicity

  /** Every path of m is full and extends pre. */
  ghost predicate Under(m: LeafMap, pre: Path)
  {
    |pre| <= NIBBLES && forall p :: p in m ==> |p| == NIBBLES && pre <= p
  }

  /** The entries of m whose nibble d is n. */
  ghost function Sub<T>(m: map<Path, T>, d: nat, n: Nibble): map<Path, T>
  {
    map p | p in m && d < |p| && p[d] == n :: m[p]
  }

  /** t is the canonical tree of m at position pre: nothing for no leaves, a leaf
      node for one, and an internal node over the nibble groups for more.  */
  ghost predicate Canonical(t: Tree, pre: Path, m: LeafMap)
    decreases t
  {
    Under(m, pre) &&
    if t.Empty? then |m| == 0
    else if t.Tip? then m == map[t.path := t.info]
    else
      |m| >= 2 && |pre| < NIBBLES && |t.kids| == SLOTS &&
      forall i {:trigger Canonical(t.kids[i], pre + [i], Sub(m, |pre|, i))} ::
        0 <= i < SLOTS ==> Canonical(t.kids[i], pre + [i], Sub(m, |pre|, i))
  }

  // ------------------------------------- the node hash is the binary hash

  ghost function RangeMap(m: LeafMap, d: nat, start: nat, width: nat): LeafMap
  {
    map p | p in m && d < |p| && start <= p[d] < start + width :: m[p]
  }

  /** Slots covered by one binary level inside a node. */
  function Width(k: nat): nat
    requires k <= 4
  {
    if k == 0 then 16 else if k == 1 then 8 else if k == 2 then 4 else if k == 3 then 2 else 1
  }

  ghost predicate Slot(k: nat, start: nat)
  {
    k <= 4 && start + Width(k) <= SLOTS &&
    (k == 1 ==> start % 8 == 0) && (k == 2 ==> start % 4 == 0) && (k == 3 ==> start % 2 == 0)
  }

  /** What slot i of a node at depth d must say about the leaves s below it. */
  ghost predicate SlotCommits(c: Option<Child>, s: LeafMap, b: nat)
  {
    match c
    case None => |s| == 0
    case Some(ch) => |s| >= 1 && ch.hash == SparseHash(s, b) && (ch.isLeaf <==> |s| == 1)
  }

  /** The 16 slots of a node at depth d commit to the nibble groups of m. */
  ghost predicate SlotsCommit(children: seq<Option<Child>>, d: nat, m: LeafMap)
  {
    |children| == SLOTS &&
    forall i: Nibble {:trigger Sub(m, d, i)} :: SlotCommits(children[i], Sub(m, d, i), 4 * d + 4)
  }

  lemma {:induction false} BitOfNibble(p: Path, d: nat, k: nat)
    requires d < |p| && k < 4
    ensures Bit(p, 4 * d + k) == NibbleBit(p[d], k)
  {
    assert (4 * d + k) / 4 == d && (4 * d + k) % 4 == k;
  }

  lemma {:induction false} SideOfSlot(n: Nibble, k: nat, start: nat)
    requires k < 4 && Slot(k, start) && start <= n < start + Width(k)
    ensures NibbleBit(n, k) <==> n >= start + Width(k + 1)
    ensures Slot(k + 1, start) && Slot(k + 1, start + Width(k + 1))
  {
  }

  lemma {:induction false} HalfOfRange(m: LeafMap, pre: Path, k: nat, start: nat, side: bool)
    requires Under(m, pre) && |pre| < NIBBLES && k < 4 && Slot(k, start)
    ensures Half(RangeMap(m, |pre|, start, Width(k)), 4 * |pre| + k, side)
         == RangeMap(m, |pre|, if side then start + Width(k + 1) else start, Width(k + 1))
  {
    forall p | p in RangeMap(m, |pre|, start, Width(k))
      ensures Bit(p, 4 * |pre| + k) <==> p[|pre|] >= start + Width(k + 1)
    {
      BitOfNibble(p, |pre|, k);
      SideOfSlot(p[|pre|], k, start);
    }
  }

  lemma {:induction false} RangeVacant(children: seq<Option<Child>>, d: nat, m: LeafMap, start: nat, width: nat)
    requires SlotsCommit(children, d, m) && start + width <= SLOTS
    ensures Vacant(children, start, width) <==> |RangeMap(m, d, start, width)| == 0
  {
    if |RangeMap(m, d, start, width)| != 0 {
      var p :| p in RangeMap(m, d, start, width);
      assert p in Sub(m, d, p[d]);
    } else {
      forall i: Nibble | start <= i < start + width ensures children[i].None? {
        assert forall p :: p in Sub(m, d, i) ==> p in RangeMap(m, d, start, width);
      }
    }
  }

  lemma {:induction false} RangeLone(children: seq<Option<Child>>, d: nat, m: LeafMap, start: nat, width: nat,
                                     i: Nibble)
    requires SlotsCommit(children, d, m) && start + width <= SLOTS && Lone(children, start, width, i)
    ensures RangeMap(m, d, start, width) == Sub(m, d, i)
    ensures SlotCommits(children[i], RangeMap(m, d, start, width), 4 * d + 4)
  {
    forall p | p in RangeMap(m, d, start, width) ensures p[d] == i {
      assert p in Sub(m, d, p[d]);
    }
  }

  /** A range that does not rise to one child covers at least two leaves. */
  lemma {:induction false} RangeMany(children: seq<Option<Child>>, d: nat, m: LeafMap, start: nat, width: nat)
    requires SlotsCommit(children, d, m) && start + width <= SLOTS
    requires !Vacant(children, start, width) && forall i: nat :: !Rises(children, start, width, i)
    ensures |RangeMap(m, d, start, width)| >= 2 && width >= 2
  {
    var i: Nibble :| start <= i < start + width && children[i].Some?;
    var p :| p in Sub(m, d, i);
    assert !Rises(children, start, width, i);
    if Lone(children, start, width, i) {
      RangeLone(children, d, m, start, width, i);
    } else {
      var j: Nibble :| start <= j < start + width && j != i && children[j].Some?;
      var q :| q in Sub(m, d, j);
      AtLeastTwo(RangeMap(m, d, start, width), p, q);
    }
  }

  /** A half range folds to the binary hash of the leaves it covers. */
  lemma {:induction false} RangeHash(children: seq<Option<Child>>, pre: Path, m: LeafMap, k: nat, start: nat)
    requires Under(m, pre) && |pre| < NIBBLES && SlotsCommit(children, |pre|, m) && Slot(k, start)
    ensures SubtreeHash(children, start, Width(k))
         == SparseHash(RangeMap(m, |pre|, start, Width(k)), 4 * |pre| + k)
    decreases 4 - k
  {
    hide SubtreeHash, SparseHash, SlotsCommit, Under, RangeMap, Half;
    SlotCount(children, |pre|, m);
    RangeVacant(children, |pre|, m, start, Width(k));
    if Vacant(children, start, Width(k)) {
      FoldVacant(children, RangeMap(m, |pre|, start, Width(k)), 4 * |pre| + k, start, Width(k));
    } else if i: nat :| Rises(children, start, Width(k), i) {
      RangeLone(children, |pre|, m, start, Width(k), i);
      FoldLone(children, RangeMap(m, |pre|, start, Width(k)), 4 * |pre| + k, start, Width(k), i);
    } else {
      RangeMany(children, |pre|, m, start, Width(k));
      SideOfSlot(start, k, start);
      RangeHash(children, pre, m, k + 1, start);
      RangeHash(children, pre, m, k + 1, start + Width(k + 1));
      HalfOfRange(m, pre, k, start, false);
      HalfOfRange(m, pre, k, start, true);
      FoldHalves(children, RangeMap(m, |pre|, start, Width(k)), 4 * |pre| + k, start, Width(k + 1));
    }
  }

  lemma {:induction false} SlotCount(children: seq<Option<Child>>, d: nat, m: LeafMap)
    requires SlotsCommit(children, d, m)
    ensures |children| == SLOTS
  {
  }

  lemma {:induction false} FoldVacant(children: seq<Option<Child>>, leaves: LeafMap, b: nat, start: nat, w: nat)
    requires start + w <= |children| && Vacant(children, start, w) && |leaves| == 0
    ensures SubtreeHash(children, start, w) == SparseHash(leaves, b)
  {
  }

  lemma {:induction false} FoldLone(children: seq<Option<Child>>, leaves: LeafMap, b: nat, start: nat, w: nat, i: nat)
    requires start + w <= |children| && Rises(children, start, w, i)
    requires |leaves| >= 1 && (children[i].value.isLeaf <==> |leaves| == 1)
    requires exists b' :: children[i].value.hash == SparseHash(leaves, b') && (w == 1 ==> b' == b)
    ensures SubtreeHash(children, start, w) == SparseHash(leaves, b)
  {
  }

  lemma {:induction false} FoldHalves(children: seq<Option<Child>>, leaves: LeafMap, b: nat, start: nat, w: nat)
    requires 1 <= w && start + 2 * w <= |children| && |leaves| >= 2 && b < MAX_DEPTH
    requires SubtreeHash(children, start, w) == SparseHash(Half(leaves, b, false), b + 1)
    requires SubtreeHash(children, start + w, w) == SparseHash(Half(leaves, b, true), b + 1)
    requires !Vacant(children, start, 2 * w) && forall i: nat :: !Rises(children, start, 2 * w, i)
    ensures SubtreeHash(children, start, 2 * w) == SparseHash(leaves, b)
  {
    hide SubtreeHash, SparseHash;
    SplitSubtree(children, start, w);
    SplitSparse(leaves, b);
  }

  lemma {:induction false} SplitSubtree(children: seq<Option<Child>>, start: nat, w: nat)
    requires 1 <= w && start + 2 * w <= |children|
    requires !Vacant(children, start, 2 * w) && forall i: nat :: !Rises(children, start, 2 * w, i)
    ensures SubtreeHash(children, start, 2 * w) ==
            NodeHash(SubtreeHash(children, start, w), SubtreeHash(children, start + w, w))
  {
    hide Vacant, Rises;
    assert 2 * w / 2 == w;
  }

  lemma {:induction false} SplitSparse(leaves: LeafMap, b: nat)
    requires |leaves| >= 2 && b < MAX_DEPTH
    ensures SparseHash(leaves, b) ==
            NodeHash(SparseHash(Half(leaves, b, false), b + 1), SparseHash(Half(leaves, b, true), b + 1))
  {
  }

  /** The 16-slot fold of a node is the binary hash of all leaves below it. */
  lemma {:induction false} NodeHashIsSparseHash(children: seq<Option<Child>>, pre: Path, m: LeafMap)
    requires Under(m, pre) && |pre| < NIBBLES && SlotsCommit(children, |pre|, m)
    ensures SubtreeHash(children, 0, SLOTS) == SparseHash(m, 4 * |pre|)
  {
    hide SubtreeHash, SparseHash, SlotsCommit;
    WholeRange(m, pre);
    RangeHash(children, pre, m, 0, 0);
  }

  lemma {:induction false} WholeRange(m: LeafMap, pre: Path)
    requires Under(m, pre) && |pre| < NIBBLES
    ensures RangeMap(m, |pre|, 0, SLOTS) == m
  {
  }

  lemma {:induction false} KidCanonical(t: Tree, pre: Path, m: LeafMap, i: Nibble)
    requires Canonical(t, pre, m) && t.Fork?
    ensures |t.kids| == SLOTS && Canonical(t.kids[i], pre + [i], Sub(m, |pre|, i))
  {
    assert Canonical(t.kids[i], pre + [i], Sub(m, |pre|, i));
  }

  lemma {:induction false} CanonicalSlotsCommit(t: Tree, pre: Path, m: LeafMap)
    requires Canonical(t, pre, m) && t.Fork?
    ensures SlotsCommit(Refs(t.kids), |pre|, m)
    decreases t, 0
  {
    forall i: Nibble ensures SlotCommits(Refs(t.kids)[i], Sub(m, |pre|, i), 4 * |pre| + 4) {
      KidCanonical(t, pre, m, i);
      RefCommits(t.kids[i], pre + [i], Sub(m, |pre|, i));
    }
  }

  lemma {:induction false} RefCommits(t: Tree, pre: Path, m: LeafMap)
    requires Canonical(t, pre, m)
    ensures SlotCommits(RefOf(t), m, 4 * |pre|)
    decreases t, 2
  {
    TreeHashIsSparseHash(t, pre, m);
    if t.Tip? {
      assert |m| == 1;
    }
  }

  /** The node hash of a canonical tree is the plain binary sparse Merkle hash of
      the leaves below it, at every position. */
  lemma {:induction false} TreeHashIsSparseHash(t: Tree, pre: Path, m: LeafMap)
    requires Canonical(t, pre, m)
    ensures TreeHash(t) == SparseHash(m, 4 * |pre|)
    decreases t, 1
  {
    if t.Fork? {
      CanonicalSlotsCommit(t, pre, m);
      NodeHashIsSparseHash(Refs(t.kids), pre, m);
    } else if t.Tip? {
      assert |m| == 1;
    }
  }
}

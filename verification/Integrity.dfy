/** Reads over arbitrary storage: whatever the backend holds, a value comes back
    only if the root commits to it.  */
module Integrity {
  import opened Hashing
  import opened SparseMerkle
  import opened StoredTree
  import opened Records
  import opened CopyOnWrite
  import opened Reading

  /** A leaf hash names a leaf of m. */
  ghost predicate LeafTrue(h: Digest, m: LeafMap)
  {
    h.LeafHash? ==> h.leafPath in m && m[h.leafPath].vh == h.vh
  }

  /** What a child reference met on the way may be trusted for. */
  lemma {:induction false} HashIsTrue(m: LeafMap, b: nat)
    ensures LeafTrue(SparseHash(m, b), m)
  {
    HashShape(m, b);
  }

  /** Descends from a range to a slot of a node nobody wrote: the slot's reference
      commits to the leaves of its group, or is a leaf of the node's contents;
      and if it is not a leaf reference, its pair of slots holds two leaves. */
  lemma {:induction false} SlotTrusted(children: seq<Option<Child>>, pre: Path, m: LeafMap, slot: Nibble, k: nat,
                                       start: nat)
    requires Under(m, pre) && |pre| < NIBBLES && |children| == SLOTS && Slot(k, start)
    requires start <= slot < start + Width(k)
    requires SubtreeHash(children, start, Width(k)) == SparseHash(RangeMap(m, |pre|, start, Width(k)), 4 * |pre| + k)
    requires children[slot].Some?
    ensures children[slot].value.hash == SparseHash(Sub(m, |pre|, slot), 4 * |pre| + 4)
         || (children[slot].value.isLeaf && LeafTrue(children[slot].value.hash, m))
    ensures !children[slot].value.isLeaf && k < 4 ==> |RangeMap(m, |pre|, slot - slot % 2, 2)| >= 2
    decreases 4 - k
  {
    hide SubtreeHash, SparseHash, Under, RangeMap, Sub, LeafTrue, Vacant, Lone;
    SubtreeShape(children, start, Width(k), slot);
    if Rises(children, start, Width(k), slot) {
      RisenTrusted(children, pre, m, slot, k, start);
    } else {
      HalvesTrusted(children, pre, m, slot, k, start);
      var next := if slot < start + Width(k + 1) then start else start + Width(k + 1);
      SlotTrusted(children, pre, m, slot, k + 1, next);
      if k == 3 {
        assert start == slot - slot % 2;
      }
    }
  }

  /** The slot's reference is what the range hashes to. */
  lemma {:induction false} RisenTrusted(children: seq<Option<Child>>, pre: Path, m: LeafMap, slot: Nibble, k: nat,
                                        start: nat)
    requires Under(m, pre) && |pre| < NIBBLES && |children| == SLOTS && Slot(k, start)
    requires start <= slot < start + Width(k)
    requires children[slot].Some? && Rises(children, start, Width(k), slot)
    requires children[slot].value.hash == SparseHash(RangeMap(m, |pre|, start, Width(k)), 4 * |pre| + k)
    ensures children[slot].value.hash == SparseHash(Sub(m, |pre|, slot), 4 * |pre| + 4)
         || (children[slot].value.isLeaf && LeafTrue(children[slot].value.hash, m))
    ensures k < 4 ==> children[slot].value.isLeaf
  {
    hide SparseHash, Under;
    var leaves, b := RangeMap(m, |pre|, start, Width(k)), 4 * |pre| + k;
    HashIsTrue(leaves, b);
    if k == 4 {
      assert leaves == Sub(m, |pre|, slot);
    }
  }

  /** A range that hashes to an inner node covers two leaves, and so do its halves. */
  lemma {:induction false} HalvesTrusted(children: seq<Option<Child>>, pre: Path, m: LeafMap, slot: Nibble, k: nat,
                                         start: nat)
    requires Under(m, pre) && |pre| < NIBBLES && |children| == SLOTS && Slot(k, start)
    requires start <= slot < start + Width(k) && k < 4
    requires SparseHash(RangeMap(m, |pre|, start, Width(k)), 4 * |pre| + k)
          == NodeHash(SubtreeHash(children, start, Width(k) / 2),
                      SubtreeHash(children, start + Width(k) / 2, Width(k) / 2))
    ensures |RangeMap(m, |pre|, start, Width(k))| >= 2
    ensures var w := Width(k + 1);
            var next := if slot < start + w then start else start + w;
            Slot(k + 1, next) && next <= slot < next + w &&
            SubtreeHash(children, next, w) == SparseHash(RangeMap(m, |pre|, next, w), 4 * |pre| + k + 1)
  {
    hide SubtreeHash, SparseHash, Under, RangeMap, Half, NibbleBit;
    assert Width(k) / 2 == Width(k + 1);
    HashShape(RangeMap(m, |pre|, start, Width(k)), 4 * |pre| + k);
    SideOfSlot(slot, k, start);
    HalfOfRange(m, pre, k, start, false);
    HalfOfRange(m, pre, k, start, true);
  }

  lemma {:induction false} SubtreeShape(children: seq<Option<Child>>, start: nat, width: nat, slot: nat)
    requires start + width <= |children| && start <= slot < start + width && children[slot].Some?
    ensures width == 1 ==> Rises(children, start, width, slot)
    ensures Rises(children, start, width, slot) ==> SubtreeHash(children, start, width) == children[slot].value.hash
    ensures !Rises(children, start, width, slot) && width > 1 ==>
              SubtreeHash(children, start, width)
              == NodeHash(SubtreeHash(children, start, width / 2), SubtreeHash(children, start + width / 2, width / 2))
  {
  }

  /** Two committed paths agree with path on all but the last bit: path itself
      and its neighbour. */
  ghost predicate Neighboured(m: LeafMap, path: FullPath)
  {
    exists p, q :: p in m && q in m && p != q && NearlyEqual(p, path) && NearlyEqual(q, path)
  }

  ghost predicate NearlyEqual(p: Path, path: FullPath)
  {
    |p| == NIBBLES && p[..NIBBLES - 1] == path[..NIBBLES - 1] && p[NIBBLES - 1] / 2 == path[NIBBLES - 1] / 2
  }

  lemma {:induction false} PairIsNeighboured(m: LeafMap, pre: Path, path: FullPath)
    requires Under(m, pre) && |pre| == NIBBLES - 1 && pre <= path
    requires |RangeMap(m, |pre|, path[|pre|] - path[|pre|] % 2, 2)| >= 2
    ensures Neighboured(m, path)
  {
    var p, q := TwoOf(RangeMap(m, |pre|, path[|pre|] - path[|pre|] % 2, 2));
    assert pre == p[..|pre|] == q[..|pre|] == path[..|pre|];
    assert NearlyEqual(p, path) && NearlyEqual(q, path);
  }

  /** What the descent may conclude from a reference it trusts. */
  ghost predicate Sound(r: Result<Option<Value>>, m: LeafMap, path: FullPath)
  {
    (r.Ok? && r.value.Some? ==> path in m && m[path].vh == ValueMac(path, r.value.value)) &&
    (r == Err(IndexPanic) ==> Neighboured(m, path))
  }

  lemma {:induction false} SoundBelow(r: Result<Option<Value>>, m: LeafMap, d: nat, n: Nibble, path: FullPath)
    requires Sound(r, Sub(m, d, n), path)
    ensures Sound(r, m, path)
  {
    if Neighboured(Sub(m, d, n), path) {
      var p, q :| p in Sub(m, d, n) && q in Sub(m, d, n) && p != q && NearlyEqual(p, path) && NearlyEqual(q, path);
      assert p in m && q in m;
    }
  }

  /** For arbitrary storage: an answer agrees with the contents behind the root,
      and the descent stays inside the path. */
  lemma {:induction false} WalkSound(disk: Disk, c: Child, prefix: Path, path: FullPath, m: LeafMap)
    requires Under(m, prefix) && prefix <= path
    requires c.hash == SparseHash(m, 4 * |prefix|) && (|prefix| == NIBBLES ==> c.isLeaf || Neighboured(m, path))
    ensures Sound(Walk(disk, c, prefix, path), m, path)
    decreases NIBBLES - |prefix|
  {
    hide SparseHash, SubtreeHash, Neighboured;
    HashIsTrue(m, 4 * |prefix|);
    LoadedHash(disk, NodeKey(c.version, prefix), c.hash);
    var loaded := Load(disk, NodeKey(c.version, prefix), c.hash);
    if loaded.Ok? && loaded.value.LeafNode? == c.isLeaf {
      var n := loaded.value;
      if n.LeafNode? {
        LeafSound(disk, n.path, n.info, path, m);
      } else if |prefix| < NIBBLES {
        var nib: Nibble := path[|prefix|];
        assert RangeMap(m, |prefix|, 0, SLOTS) == m;
        if n.children[nib].Some? {
          SlotTrusted(n.children, prefix, m, nib, 0, 0);
          WalkSoundChild(disk, n.children[nib].value, prefix, path, m);
        }
      }
    }
  }

  lemma {:induction false} LoadedHash(disk: Disk, nk: RecordKey, expected: Digest)
    ensures var n := Load(disk, nk, expected);
            && (n.Ok? && n.value.LeafNode? ==> expected == LeafHash(n.value.path, n.value.info.vh))
            && (n.Ok? && n.value.InternalNode? ==>
                  |n.value.children| == SLOTS && SubtreeHash(n.value.children, 0, SLOTS) == expected)
            && n != Err(IndexPanic)
  {
  }

  lemma {:induction false} LeafSound(disk: Disk, p: Path, info: Info, path: FullPath, m: LeafMap)
    requires LeafTrue(LeafHash(p, info.vh), m)
    ensures p == path ==> Sound(ReadValue(disk, path, info), m, path)
  {
  }

  lemma {:induction false} WalkSoundChild(disk: Disk, c: Child, pre: Path, path: FullPath, m: LeafMap)
    requires Under(m, pre) && |pre| < NIBBLES && pre <= path
    requires c.hash == SparseHash(Sub(m, |pre|, path[|pre|]), 4 * |pre| + 4) || (c.isLeaf && LeafTrue(c.hash, m))
    requires !c.isLeaf ==> |RangeMap(m, |pre|, path[|pre|] - path[|pre|] % 2, 2)| >= 2
    ensures Sound(Walk(disk, c, pre + [path[|pre|]], path), m, path)
    decreases NIBBLES - |pre|, 0
  {
    hide SparseHash, SubtreeHash, Neighboured;
    var nib := path[|pre|];
    var q := pre + [nib];
    LoadedHash(disk, NodeKey(c.version, q), c.hash);
    if c.isLeaf && LeafTrue(c.hash, m) {
      var n := Load(disk, NodeKey(c.version, q), c.hash);
      if n.Ok? && n.value.LeafNode? {
        LeafSound(disk, n.value.path, n.value.info, path, m);
      }
    } else {
      SubUnder(m, pre, nib);
      assert path[..|pre| + 1] == q;
      if |q| == NIBBLES && !c.isLeaf {
        PairIsNeighboured(m, pre, path);
        WalkPastEnd(disk, c, q, path, m);
      } else {
        WalkSound(disk, c, q, path, Sub(m, |pre|, nib));
        SoundBelow(Walk(disk, c, q, path), m, |pre|, nib, path);
      }
    }
  }

  lemma {:induction false} WalkPastEnd(disk: Disk, c: Child, prefix: Path, path: FullPath, m: LeafMap)
    requires |prefix| == NIBBLES && !c.isLeaf && Neighboured(m, path)
    ensures Sound(Walk(disk, c, prefix, path), m, path)
  {
  }

  // --------------------------------- the out-of-range case is exactly this one

  /** The entries of m that agree with path on the first d nibbles. */
  ghost function Along(m: LeafMap, path: FullPath, d: nat): LeafMap
    requires d <= NIBBLES
  {
    map p | p in m && |p| == NIBBLES && p[..d] == path[..d] :: m[p]
  }

  lemma {:induction false} AlongStep(m: LeafMap, path: FullPath, d: nat)
    requires d < NIBBLES
    ensures Sub(Along(m, path, d), d, path[d]) == Along(m, path, d + 1)
    ensures Under(Along(m, path, d), path[..d])
  {
    forall p | p in m && |p| == NIBBLES
      ensures p[..d + 1] == path[..d + 1] <==> p[..d] == path[..d] && p[d] == path[d]
    {
      assert p[..d + 1] == p[..d] + [p[d]] && path[..d + 1] == path[..d] + [path[d]];
    }
    forall p | p in Along(m, path, d) ensures path[..d] <= p {
      assert p[..d] == path[..d];
    }
  }

  /** The children a node at depth d has for contents m. */
  ghost function HonestChildren(m: LeafMap, d: nat): (c: seq<Option<Child>>)
    ensures |c| == SLOTS && SlotsCommit(c, d, m)
  {
    seq(SLOTS, n requires 0 <= n < SLOTS => HonestChild(Sub(m, d, n), 4 * d + 4))
  }

  ghost function HonestChild(s: LeafMap, b: nat): (c: Option<Child>)
    ensures SlotCommits(c, s, b)
  {
    if |s| == 0 then None else Some(Child(0, SparseHash(s, b), |s| == 1))
  }

  /** A reference to the leaves along the whole path, flagged as wanted. */
  ghost function Passed(m: LeafMap, path: FullPath, isLeaf: bool): Child
  {
    Child(0, SparseHash(Along(m, path, NIBBLES), MAX_DEPTH), isLeaf)
  }

  /** The node planted at depth d: honest above depth 63, there the path's own
      slot is passed off as internal, and below it sits a wrapper of the leaf. */
  ghost function Planted(m: LeafMap, path: FullPath, d: nat): NodeRecord
    requires d <= NIBBLES
  {
    if d < NIBBLES - 1 then InternalNode(HonestChildren(Along(m, path, d), d))
    else if d == NIBBLES - 1 then
      InternalNode(HonestChildren(Along(m, path, d), d)[path[d] := Some(Passed(m, path, false))])
    else InternalNode(seq(SLOTS, n => if n == 0 then Some(Passed(m, path, true)) else None))
  }

  ghost function PlantedDisk(m: LeafMap, path: FullPath): Disk
  {
    map k | k in (set d | 0 <= d <= NIBBLES :: NodeKey(0, path[..d])) :: NodeRec(Planted(m, path, |k.prefix|))
  }

  lemma {:induction false} PlantedAt(m: LeafMap, path: FullPath, d: nat)
    requires d <= NIBBLES
    ensures Lookup(PlantedDisk(m, path), NodeKey(0, path[..d])) == Some(NodeRec(Planted(m, path, d)))
  {
    assert NodeKey(0, path[..d]) in PlantedDisk(m, path);
  }

  /** A leaf flag does not reach the hash when the other slot of its pair is taken. */
  lemma {:induction false} FlagNotHashed(c1: seq<Option<Child>>, c2: seq<Option<Child>>, slot: nat, k: nat, start: nat)
    requires |c1| == SLOTS && |c2| == SLOTS && slot < SLOTS && Slot(k, start)
    requires forall i :: 0 <= i < SLOTS && i != slot ==> c1[i] == c2[i]
    requires c1[slot].Some? && c2[slot].Some? && c1[slot].value.hash == c2[slot].value.hash
    requires var pair := if slot % 2 == 0 then slot + 1 else slot - 1; c1[pair].Some?
    ensures SubtreeHash(c1, start, Width(k)) == SubtreeHash(c2, start, Width(k))
    decreases 4 - k
  {
    hide SubtreeHash;
    var w := Width(k);
    if start <= slot < start + w {
      SubtreeShape(c1, start, w, slot);
      SubtreeShape(c2, start, w, slot);
      if k < 4 {
        SideOfSlot(slot, k, start);
        FlagNotHashed(c1, c2, slot, k + 1, start);
        FlagNotHashed(c1, c2, slot, k + 1, start + Width(k + 1));
      }
    } else {
      SameRange(c1, c2, start, w);
    }
  }

  lemma {:induction false} SameRange(c1: seq<Option<Child>>, c2: seq<Option<Child>>, start: nat, w: nat)
    requires start + w <= |c1| && start + w <= |c2| && forall i :: start <= i < start + w ==> c1[i] == c2[i]
    ensures SubtreeHash(c1, start, w) == SubtreeHash(c2, start, w)
    decreases w
  {
    if w >= 2 {
      SameRange(c1, c2, start, w / 2);
      SameRange(c1, c2, start + w / 2, w / 2);
    }
    assert Vacant(c1, start, w) <==> Vacant(c2, start, w);
    assert forall i: nat :: Rises(c1, start, w, i) <==> Rises(c2, start, w, i);
  }

  lemma {:induction false} NeighboursAlong(m: LeafMap, path: FullPath, d: nat)
    requires Neighboured(m, path) && d < NIBBLES
    ensures |Along(m, path, d)| >= 2
  {
    var p, q :| p in m && q in m && p != q && NearlyEqual(p, path) && NearlyEqual(q, path);
    forall r | NearlyEqual(r, path) ensures r[..d] == path[..d] {
      assert r[..d] == r[..NIBBLES - 1][..d] && path[..d] == path[..NIBBLES - 1][..d];
    }
    AtLeastTwo(Along(m, path, d), p, q);
  }

  /** Both slots of the path's last pair are taken by the neighbours. */
  lemma {:induction false} NeighboursFillPair(m: LeafMap, path: FullPath)
    requires Neighboured(m, path)
    ensures var last := path[NIBBLES - 1];
            forall n: Nibble {:trigger Sub(Along(m, path, NIBBLES - 1), NIBBLES - 1, n)} ::
              n / 2 == last / 2 ==> |Sub(Along(m, path, NIBBLES - 1), NIBBLES - 1, n)| > 0
  {
    var p, q :| p in m && q in m && p != q && NearlyEqual(p, path) && NearlyEqual(q, path);
    var d := NIBBLES - 1;
    assert p == p[..d] + [p[d]] && q == q[..d] + [q[d]];
    forall n: Nibble | n / 2 == path[d] / 2 ensures |Sub(Along(m, path, d), d, n)| > 0 {
      assert (if p[d] == n then p else q) in Sub(Along(m, path, d), d, n);
    }
  }

  lemma {:induction false} PlantedLoads(m: LeafMap, path: FullPath, d: nat)
    requires Neighboured(m, path) && d < NIBBLES
    ensures Load(PlantedDisk(m, path), NodeKey(0, path[..d]), SparseHash(Along(m, path, d), 4 * d)) ==
            Ok(Planted(m, path, d))
    ensures Planted(m, path, d).InternalNode? && |Planted(m, path, d).children| == SLOTS
    ensures Planted(m, path, d).children[path[d]] == Some(Child(0, SparseHash(Along(m, path, d + 1), 4 * d + 4), false))
  {
    hide SparseHash, SubtreeHash, SlotsCommit, Neighboured, PlantedDisk, Along;
    PlantedAt(m, path, d);
    AlongStep(m, path, d);
    var honest := HonestChildren(Along(m, path, d), d);
    NodeHashIsSparseHash(honest, path[..d], Along(m, path, d));
    NeighboursAlong(m, path, d);
    if d < NIBBLES - 1 {
      NeighboursAlong(m, path, d + 1);
      assert honest[path[d]] == HonestChild(Sub(Along(m, path, d), d, path[d]), 4 * d + 4);
      assert Decodes(Planted(m, path, d));
    } else {
      NeighboursFillPair(m, path);
      var c2 := Planted(m, path, d).children;
      var last := path[d];
      var pair: Nibble := if last % 2 == 0 then last + 1 else last - 1;
      assert honest[pair] == HonestChild(Sub(Along(m, path, d), d, pair), 4 * d + 4);
      assert honest[last] == HonestChild(Sub(Along(m, path, d), d, last), 4 * d + 4);
      FlagNotHashed(honest, c2, last, 0, 0);
    }
  }

  lemma {:induction false} PlantedWalk(m: LeafMap, path: FullPath, d: nat)
    requires Neighboured(m, path) && d <= NIBBLES
    ensures Walk(PlantedDisk(m, path), Child(0, SparseHash(Along(m, path, d), 4 * d), false), path[..d], path) ==
            Err(IndexPanic)
    decreases NIBBLES - d
  {
    hide SparseHash, SubtreeHash, SlotsCommit, Neighboured, PlantedDisk, Along, Planted, Load;
    if d == NIBBLES {
      PlantedWrapper(m, path);
    } else {
      PlantedLoads(m, path, d);
      PlantedWalk(m, path, d + 1);
      assert path[..d] + [path[d]] == path[..d + 1];
    }
  }

  lemma {:induction false} PlantedWrapper(m: LeafMap, path: FullPath)
    ensures Load(PlantedDisk(m, path), NodeKey(0, path[..NIBBLES]), SparseHash(Along(m, path, NIBBLES), MAX_DEPTH))
         == Ok(Planted(m, path, NIBBLES))
    ensures Planted(m, path, NIBBLES).InternalNode?
  {
    hide SparseHash, SubtreeHash, PlantedDisk, Along;
    PlantedAt(m, path, NIBBLES);
    var c := Planted(m, path, NIBBLES).children;
    assert c[0].Some?;
    SubtreeShape(c, 0, SLOTS, 0);
  }

  /** The descent can leave the path's range exactly when both a path and its
      last-bit neighbour are committed. */
  lemma {:induction false} OutOfRangeIff(m: LeafMap, path: FullPath)
    requires forall p :: p in m ==> |p| == NIBBLES
    ensures (exists disk: Disk, c: Child {:trigger Walk(disk, c, [], path)} ::
               c.hash == SparseHash(m, 0) && Walk(disk, c, [], path) == Err(IndexPanic))
            <==> Neighboured(m, path)
  {
    hide Walk, Neighboured, SparseHash;
    forall disk: Disk, c: Child | c.hash == SparseHash(m, 0) ensures Sound(Walk(disk, c, [], path), m, path) {
      WalkSound(disk, c, [], path, m);
    }
    if Neighboured(m, path) {
      PlantedWalk(m, path, 0);
      assert Along(m, path, 0) == m;
      assert path[..0] == [];
    }
  }
}

/** Inclusion and absence proofs: the pure verifier, its soundness, and the
    prover's completeness.  */
module Proofs {
  import opened Hashing
  import opened SparseMerkle
  import opened StoredTree
  import opened Records

  datatype ProofLeaf = ProofLeaf(path: FullPath, vh: Digest)

  /** The leaf the descent ended on, if any, and the sibling hashes deepest first. */
  datatype Proof = Proof(leaf: Option<ProofLeaf>, siblings: seq<Digest>)

  /** What a proof establishes about a path. */
  datatype Verified = Absent | Present(vh: Digest)

  // ------------------------------------------------------------ verification

  /** Folds siblings (deepest first) onto acc; the last one pairs at depth base. */
  ghost function Fold(acc: Digest, siblings: seq<Digest>, path: FullPath, base: nat): Digest
    requires base + |siblings| <= MAX_DEPTH
    decreases |siblings|
  {
    if siblings == [] then acc
    else
      var n := |siblings|;
      var inner := Fold(acc, siblings[..n - 1], path, base + 1);
      if Bit(path, base) then NodeHash(siblings[n - 1], inner) else NodeHash(inner, siblings[n - 1])
  }

  ghost function StartHash(proof: Proof): Digest
  {
    match proof.leaf
    case None => Placeholder
    case Some(l) => LeafHash(l.path, l.vh)
  }

  ghost function Statement(path: FullPath, proof: Proof): Verified
  {
    if proof.leaf.Some? && proof.leaf.value.path == path then Present(proof.leaf.value.vh) else Absent
  }

  /** The proof is well formed for path and recomputes root. */
  ghost predicate Accepts(root: Digest, path: FullPath, proof: Proof)
  {
    |proof.siblings| <= MAX_DEPTH &&
    (proof.leaf.Some? ==> SameBits(proof.leaf.value.path, path, |proof.siblings|)) &&
    Fold(StartHash(proof), proof.siblings, path, 0) == root
  }

  /** Where two paths first differ, in bits. */
  method CommonPrefixBits(a: FullPath, b: FullPath) returns (n: nat)
    ensures SameBits(a, b, n)
    ensures n < MAX_DEPTH ==> Bit(a, n) != Bit(b, n)
  {
    var i := 0;
    while i < NIBBLES && a[i] == b[i]
      invariant 0 <= i <= NIBBLES && a[..i] == b[..i]
    {
      i := i + 1;
    }
    SameBitsNibbles(a, b, i);
    n := 4 * i;
    if i < NIBBLES {
      var k := 0;
      while NibbleBit(a[i], k) == NibbleBit(b[i], k)
        invariant 0 <= k < 4 && n == 4 * i + k && SameBits(a, b, n)
        invariant forall j: nat :: j < k ==> NibbleBit(a[i], j) == NibbleBit(b[i], j)
        decreases 4 - k
      {
        if k == 3 {
          NibbleFromBits(a[i], b[i]);
        }
        BitOfNibble(a, i, k);
        BitOfNibble(b, i, k);
        k := k + 1;
        n := n + 1;
      }
      BitOfNibble(a, i, k);
      BitOfNibble(b, i, k);
    }
  }

  /** Accepts exactly the proofs that fold to the root, with the statement they make. */
  method Verify(root: Digest, path: FullPath, proof: Proof) returns (r: Result<Verified>)
    ensures r == if Accepts(root, path, proof) then Ok(Statement(path, proof)) else Err(Invalid)
  {
    var n := |proof.siblings|;
    if n > MAX_DEPTH {
      return Err(Invalid);
    }
    var acc := Placeholder;
    var statement := Absent;
    if proof.leaf.Some? {
      var l := proof.leaf.value;
      acc := LeafHash(l.path, l.vh);
      if l.path == path {
        statement := Present(l.vh);
      } else {
        var shared := CommonPrefixBits(l.path, path);
        if shared < n {
          return Err(Invalid);
        }
      }
    }
    assert acc == StartHash(proof);
    var i := 0;
    while i < n
      invariant 0 <= i <= n
      invariant acc == Fold(StartHash(proof), proof.siblings[..i], path, n - i)
    {
      var depth := n - 1 - i;
      var sib := proof.siblings[i];
      assert proof.siblings[..i + 1][..i] == proof.siblings[..i];
      if Bit(path, depth) {
        acc := NodeHash(sib, acc);
      } else {
        acc := NodeHash(acc, sib);
      }
      i := i + 1;
    }
    assert proof.siblings[..n] == proof.siblings;
    r := if acc == root then Ok(statement) else Err(Invalid);
  }

  /** The truth about path in m. */
  ghost function Answer(m: LeafMap, path: FullPath): Verified
  {
    if path in m then Present(m[path].vh) else Absent
  }

  /** Whatever an accepted proof says is true of the map behind the root. */
  lemma {:induction false} ProofSound(m: LeafMap, path: FullPath, proof: Proof)
    requires forall p :: p in m ==> |p| == NIBBLES
    requires Accepts(SparseHash(m, 0), path, proof)
    ensures Statement(path, proof) == Answer(m, path)
  {
    FoldSound(m, path, proof.leaf, proof.siblings, 0);
  }

  lemma {:induction false} FoldSound(m: LeafMap, path: FullPath, leaf: Option<ProofLeaf>, siblings: seq<Digest>, b: nat)
    requires b + |siblings| <= MAX_DEPTH && Aligned(m, path, b)
    requires Fold(StartHash(Proof(leaf, siblings)), siblings, path, b) == SparseHash(m, b)
    ensures Statement(path, Proof(leaf, siblings)) == Answer(m, path)
    decreases |siblings|
  {
    hide Fold, SparseHash;
    HashShape(m, b);
    FoldTop(StartHash(Proof(leaf, siblings)), siblings, path, b);
    if siblings != [] {
      assert path in m <==> path in Half(m, b, Bit(path, b));
      HalfAligned(m, path, b, Bit(path, b), path);
      FoldSound(Half(m, b, Bit(path, b)), path, leaf, siblings[..|siblings| - 1], b + 1);
    }
  }

  lemma {:induction false} FoldTop(acc: Digest, siblings: seq<Digest>, path: FullPath, base: nat)
    requires base + |siblings| <= MAX_DEPTH
    ensures siblings == [] ==> Fold(acc, siblings, path, base) == acc
    ensures siblings != [] ==>
              var inner := Fold(acc, siblings[..|siblings| - 1], path, base + 1);
              var top := siblings[|siblings| - 1];
              Fold(acc, siblings, path, base)
              == if Bit(path, base) then NodeHash(top, inner) else NodeHash(inner, top)
  {
  }

  // ------------------------------------------------------------ completeness

  /** The sibling hashes on the way to path, shallowest first. */
  ghost function Siblings(m: LeafMap, path: FullPath, b: nat): seq<Digest>
    decreases MAX_DEPTH - b
  {
    if |m| <= 1 || b >= MAX_DEPTH then []
    else [SparseHash(Half(m, b, !Bit(path, b)), b + 1)] + Siblings(Half(m, b, Bit(path, b)), path, b + 1)
  }

  /** The only leaf left once the descent to path stops. */
  ghost function Terminal(m: LeafMap, path: FullPath, b: nat): Option<ProofLeaf>
    requires forall p :: p in m ==> |p| == NIBBLES
    decreases MAX_DEPTH - b
  {
    if |m| == 0 then None
    else if |m| == 1 then Some(ProofLeaf(Only(m), m[Only(m)].vh))
    else if b >= MAX_DEPTH then None
    else Terminal(Half(m, b, Bit(path, b)), path, b + 1)
  }

  ghost function Reversed<T>(s: seq<T>): (r: seq<T>)
    ensures |r| == |s|
    ensures forall i :: 0 <= i < |s| ==> r[i] == s[|s| - 1 - i]
  {
    if s == [] then [] else Reversed(s[1..]) + [s[0]]
  }

  /** The proof the tree of m gives for path. */
  ghost function ProofFor(m: LeafMap, path: FullPath): Proof
    requires forall p :: p in m ==> |p| == NIBBLES
  {
    Proof(Terminal(m, path, 0), Reversed(Siblings(m, path, 0)))
  }

  lemma {:induction false} SiblingsFold(m: LeafMap, path: FullPath, b: nat)
    requires b <= MAX_DEPTH && Aligned(m, path, b)
    ensures b + |Siblings(m, path, b)| <= MAX_DEPTH
    ensures var leaf := Terminal(m, path, b); var sibs := Reversed(Siblings(m, path, b));
            && Fold(StartHash(Proof(leaf, sibs)), sibs, path, b) == SparseHash(m, b)
            && (leaf.Some? ==> SameBits(leaf.value.path, path, b + |sibs|))
    decreases MAX_DEPTH - b
  {
    if |m| >= 2 {
      if b == MAX_DEPTH {
        DeepIsSingle(m, path);
      } else {
        SiblingsFoldStep(m, path, b);
      }
    }
  }

  lemma {:induction false} SiblingsFoldStep(m: LeafMap, path: FullPath, b: nat)
    requires b < MAX_DEPTH && Aligned(m, path, b) && |m| >= 2
    ensures b + |Siblings(m, path, b)| <= MAX_DEPTH
    ensures var leaf := Terminal(m, path, b); var sibs := Reversed(Siblings(m, path, b));
            && Fold(StartHash(Proof(leaf, sibs)), sibs, path, b) == SparseHash(m, b)
            && (leaf.Some? ==> SameBits(leaf.value.path, path, b + |sibs|))
    decreases MAX_DEPTH - b, 0
  {
    hide Fold, SparseHash, Siblings, Terminal, Reversed, Half, Bit;
    var half := Half(m, b, Bit(path, b));
    HalfAligned(m, path, b, Bit(path, b), path);
    SiblingsFold(half, path, b + 1);
    HashShape(m, b);
    SiblingsTop(m, path, b);
    var up := Reversed(Siblings(m, path, b));
    FoldTop(StartHash(Proof(Terminal(m, path, b), up)), up, path, b);
  }

  lemma {:induction false} SiblingsTop(m: LeafMap, path: FullPath, b: nat)
    requires b < MAX_DEPTH && Aligned(m, path, b) && |m| >= 2
    ensures var half := Half(m, b, Bit(path, b));
            && Terminal(m, path, b) == Terminal(half, path, b + 1)
            && Siblings(m, path, b) != []
            && Reversed(Siblings(m, path, b))
               == Reversed(Siblings(half, path, b + 1)) + [SparseHash(Half(m, b, !Bit(path, b)), b + 1)]
  {
    var down := Siblings(m, path, b);
    assert down[1..] == Siblings(Half(m, b, Bit(path, b)), path, b + 1);
  }

  /** For every map and path the tree's proof is accepted and says the truth. */
  lemma {:induction false} ProofComplete(m: LeafMap, path: FullPath)
    requires forall p :: p in m ==> |p| == NIBBLES
    ensures Accepts(SparseHash(m, 0), path, ProofFor(m, path))
    ensures Statement(path, ProofFor(m, path)) == Answer(m, path)
  {
    SiblingsFold(m, path, 0);
    ProofSound(m, path, ProofFor(m, path));
  }

  // ------------------------------------------------------------- the prover

  /** How the binary descent inside one node ends. */
  datatype NodeOutcome = NoLeaf | LoneLeaf(slot: Nibble) | Deeper

  /** The entries still covered after k bits of the node's nibble. */
  ghost predicate Covers(m: LeafMap, d: nat, k: nat, start: nat, path: FullPath, leaves: LeafMap)
  {
    d < NIBBLES && Slot(k, start) && start <= path[d] < start + Width(k) &&
    leaves == RangeMap(m, d, start, Width(k))
  }

  /** One halving step: the off-path half's hash is the next sibling. */
  lemma {:induction false} HalveStep(children: seq<Option<Child>>, pre: Path, m: LeafMap, k: nat, start: nat,
                                     path: FullPath)
    requires Under(m, pre) && |pre| < NIBBLES && SlotsCommit(children, |pre|, m)
    requires k < 4 && Covers(m, |pre|, k, start, path, RangeMap(m, |pre|, start, Width(k)))
    requires |RangeMap(m, |pre|, start, Width(k))| >= 2
    ensures var b := 4 * |pre| + k; var w := Width(k + 1);
            var leaves := RangeMap(m, |pre|, start, Width(k));
            var left := path[|pre|] < start + w;
            var ours, sib := if left then start else start + w, if left then start + w else start;
            && w == Width(k) / 2 && sib + w <= SLOTS
            && Covers(m, |pre|, k + 1, ours, path, RangeMap(m, |pre|, ours, w))
            &&
            Siblings(leaves, path, b) ==
            [SubtreeHash(children, sib, w)] + Siblings(RangeMap(m, |pre|, ours, w), path, b + 1)
            && Terminal(leaves, path, b) == Terminal(RangeMap(m, |pre|, ours, w), path, b + 1)
  {
    hide SubtreeHash, SparseHash, Siblings, Terminal, SlotsCommit, Half;
    SlotCount(children, |pre|, m);
    var w := Width(k + 1);
    DescendOneBit(RangeMap(m, |pre|, start, Width(k)), path, 4 * |pre| + k);
    SideOfSlot(path[|pre|], k, start);
    BitOfNibble(path, |pre|, k);
    HalfOfRange(m, pre, k, start, false);
    HalfOfRange(m, pre, k, start, true);
    RangeHash(children, pre, m, k + 1, start);
    RangeHash(children, pre, m, k + 1, start + w);
  }

  lemma {:induction false} DescendOneBit(leaves: LeafMap, path: FullPath, b: nat)
    requires forall p :: p in leaves ==> |p| == NIBBLES
    requires |leaves| >= 2 && b < MAX_DEPTH
    ensures var half := Half(leaves, b, Bit(path, b));
            &&
            Siblings(leaves, path, b) ==
            [SparseHash(Half(leaves, b, !Bit(path, b)), b + 1)] + Siblings(half, path, b + 1)
            && Terminal(leaves, path, b) == Terminal(half, path, b + 1)
  {
  }

  lemma {:induction false} StopHere(leaves: LeafMap, path: FullPath, b: nat)
    requires forall p :: p in leaves ==> |p| == NIBBLES
    ensures |leaves| <= 1 ==> Siblings(leaves, path, b) == []
    ensures |leaves| == 0 ==> Terminal(leaves, path, b) == None
    ensures |leaves| == 1 ==> Terminal(leaves, path, b) == Some(ProofLeaf(Only(leaves), leaves[Only(leaves)].vh))
  {
  }

  /** Lists the occupied slots of a range. */
  method OccupiedSlots(children: seq<Option<Child>>, start: nat, width: nat) returns (present: seq<nat>)
    requires start + width <= |children|
    ensures |present| == 0 <==> Vacant(children, start, width)
    ensures |present| == 1 ==> Lone(children, start, width, present[0])
    ensures |present| >= 2 ==> !Vacant(children, start, width) && forall i: nat :: !Lone(children, start, width, i)
  {
    present := [];
    for i := start to start + width
      invariant forall j :: 0 <= j < |present| ==> start <= present[j] < i && children[present[j]].Some?
      invariant forall j :: start <= j < i && children[j].Some? ==> j in present
      invariant forall j, k :: 0 <= j < k < |present| ==> present[j] < present[k]
    {
      if children[i].Some? {
        present := present + [i];
      }
    }
    if |present| >= 2 {
      assert present[0] < present[1];
    }
  }

  /** The binary descent inside a 16-slot node, collecting the off-path halves. */
  method DescendNode(children: seq<Option<Child>>, slot: Nibble, before: seq<Digest>,
                     ghost path: FullPath, ghost pre: Path, ghost m: LeafMap)
    returns (siblings: seq<Digest>, outcome: NodeOutcome)
    requires Under(m, pre) && |pre| < NIBBLES && SlotsCommit(children, |pre|, m) && slot == path[|pre|]
    ensures outcome.NoLeaf? ==> siblings == before + Siblings(m, path, 4 * |pre|)
    ensures outcome.NoLeaf? ==> Terminal(m, path, 4 * |pre|) == None
    ensures outcome.LoneLeaf? ==> siblings == before + Siblings(m, path, 4 * |pre|)
    ensures outcome.LoneLeaf? ==>
              var s := Sub(m, |pre|, outcome.slot);
              && |s| == 1 && children[outcome.slot].Some? && children[outcome.slot].value.isLeaf
              && Terminal(m, path, 4 * |pre|) == Some(ProofLeaf(Only(s), s[Only(s)].vh))
    ensures outcome.Deeper? ==>
              var s := Sub(m, |pre|, slot);
              && children[slot].Some? && !children[slot].value.isLeaf
              && before + Siblings(m, path, 4 * |pre|) == siblings + Siblings(s, path, 4 * |pre| + 4)
              && Terminal(m, path, 4 * |pre|) == Terminal(s, path, 4 * |pre| + 4)
  {
    hide SubtreeHash, SparseHash, Siblings, Terminal, SlotsCommit, Under, Progress, Sub;
    SlotCount(children, |pre|, m);
    siblings := before;
    var start: nat, width: nat := 0, SLOTS;
    ghost var k := 0;
    ProgressStart(m, path, pre, before);
    while true
      invariant k <= 4 && Slot(k, start) && width == Width(k) && start <= slot < start + width
      invariant Progress(m, path, pre, k, start, before, siblings)
      decreases 4 - k
    {
      var present := OccupiedSlots(children, start, width);
      if |present| == 0 {
        ProgressVacant(children, m, path, pre, k, start, before, siblings);
        return siblings, NoLeaf;
      }
      if |present| == 1 {
        var idx: Nibble := present[0];
        ProgressLone(children, m, path, pre, k, start, before, siblings, idx);
        if children[idx].value.isLeaf {
          return siblings, LoneLeaf(idx);
        }
        if width == 1 {
          return siblings, Deeper;
        }
      } else {
        RangeMany(children, |pre|, m, start, width);
      }
      ProgressHalve(children, m, path, pre, k, start, before, siblings);
      var half := width / 2;
      var ours, sib := start + half, start;
      if slot < start + half {
        ours, sib := start, start + half;
      }
      var h := FoldSlots(children, sib, half);
      siblings := siblings + [h];
      start, width := ours, half;
      k := k + 1;
    }
  }

  /** The siblings and the terminal still to come are those of the covered range. */
  ghost predicate Progress(m: LeafMap, path: FullPath, pre: Path, k: nat, start: nat, before: seq<Digest>,
                           siblings: seq<Digest>)
  {
    k <= 4 && Under(m, pre) && |pre| < NIBBLES && Slot(k, start) && start <= path[|pre|] < start + Width(k) &&
    var leaves := RangeMap(m, |pre|, start, Width(k));
    before + Siblings(m, path, 4 * |pre|) == siblings + Siblings(leaves, path, 4 * |pre| + k) &&
    Terminal(m, path, 4 * |pre|) == Terminal(leaves, path, 4 * |pre| + k)
  }

  lemma {:induction false} ProgressStart(m: LeafMap, path: FullPath, pre: Path, before: seq<Digest>)
    requires Under(m, pre) && |pre| < NIBBLES
    ensures Progress(m, path, pre, 0, 0, before, before)
  {
    hide Siblings, Terminal;
    WholeRange(m, pre);
  }

  lemma {:induction false} ProgressVacant(children: seq<Option<Child>>, m: LeafMap, path: FullPath, pre: Path, k: nat,
                                          start: nat, before: seq<Digest>, siblings: seq<Digest>)
    requires SlotsCommit(children, |pre|, m) && Progress(m, path, pre, k, start, before, siblings)
    requires Vacant(children, start, Width(k))
    ensures siblings == before + Siblings(m, path, 4 * |pre|) && Terminal(m, path, 4 * |pre|) == None
  {
    hide Siblings, Terminal, SlotsCommit;
    RangeVacant(children, |pre|, m, start, Width(k));
    StopHere(RangeMap(m, |pre|, start, Width(k)), path, 4 * |pre| + k);
  }

  lemma {:induction false} ProgressLone(children: seq<Option<Child>>, m: LeafMap, path: FullPath, pre: Path, k: nat,
                                        start: nat,
                                        before: seq<Digest>, siblings: seq<Digest>, idx: Nibble)
    requires SlotsCommit(children, |pre|, m) && Progress(m, path, pre, k, start, before, siblings)
    requires Lone(children, start, Width(k), idx)
    ensures var s := Sub(m, |pre|, idx);
            if children[idx].value.isLeaf
            then siblings == before + Siblings(m, path, 4 * |pre|) && |s| == 1 &&
                 Terminal(m, path, 4 * |pre|) == Some(ProofLeaf(Only(s), s[Only(s)].vh))
            else |RangeMap(m, |pre|, start, Width(k))| >= 2 &&
                 (k == 4 ==> idx == path[|pre|] &&
                             before + Siblings(m, path, 4 * |pre|) == siblings + Siblings(s, path, 4 * |pre| + 4) &&
                             Terminal(m, path, 4 * |pre|) == Terminal(s, path, 4 * |pre| + 4))
  {
    hide Siblings, Terminal, SlotsCommit, SparseHash;
    RangeLone(children, |pre|, m, start, Width(k), idx);
    StopHere(RangeMap(m, |pre|, start, Width(k)), path, 4 * |pre| + k);
  }

  lemma {:induction false} ProgressHalve(children: seq<Option<Child>>, m: LeafMap, path: FullPath, pre: Path, k: nat,
                                         start: nat,
                                         before: seq<Digest>, siblings: seq<Digest>)
    requires SlotsCommit(children, |pre|, m) && Progress(m, path, pre, k, start, before, siblings) && k < 4
    requires |RangeMap(m, |pre|, start, Width(k))| >= 2
    ensures var w := Width(k + 1);
            var left := path[|pre|] < start + w;
            var ours, sib := if left then start else start + w, if left then start + w else start;
            && w == Width(k) / 2 && sib + w <= |children|
            && Slot(k + 1, ours) && ours <= path[|pre|] < ours + w
            && Progress(m, path, pre, k + 1, ours, before, siblings + [SubtreeHash(children, sib, w)])
  {
    hide Siblings, Terminal, SlotsCommit, SparseHash, SubtreeHash;
    SlotCount(children, |pre|, m);
    HalveStep(children, pre, m, k, start, path);
    var w := Width(k + 1);
    var left := path[|pre|] < start + w;
    var ours, sib := if left then start else start + w, if left then start + w else start;
    var rest := Siblings(RangeMap(m, |pre|, ours, w), path, 4 * |pre| + k + 1);
    assert siblings + ([SubtreeHash(children, sib, w)] + rest) == siblings + [SubtreeHash(children, sib, w)] + rest;
  }

  /** Reverses top-down siblings into the verifier's order by swapping ends. */
  method ReverseInPlace(a: array<Digest>)
    modifies a
    ensures a[..] == Reversed(old(a[..]))
  {
    var i, j := 0, a.Length - 1;
    while i < j
      invariant 0 <= i <= j + 1 && i + j == a.Length - 1
      invariant forall k :: 0 <= k < i ==> a[k] == old(a[a.Length - 1 - k])
      invariant forall k :: j < k < a.Length ==> a[k] == old(a[a.Length - 1 - k])
      invariant forall k :: i <= k <= j ==> a[k] == old(a[k])
    {
      a[i], a[j] := a[j], a[i];
      i, j := i + 1, j - 1;
    }
  }

  /** The proof's end, or the child the descent continues at. */
  datatype ProofStep = Ended(leaf: Option<ProofLeaf>, siblings: seq<Digest>)
    | Below(child: Child, siblings: seq<Digest>)

  /** What one visited node adds to a proof of m that has collected before. */
  ghost predicate Advances(step: ProofStep, before: seq<Digest>, path: FullPath, t: Tree, pre: Path, m: LeafMap)
    requires Under(m, pre)
  {
    if step.Ended? then
      step.siblings == before + Siblings(m, path, 4 * |pre|) && step.leaf == Terminal(m, path, 4 * |pre|)
    else
      t.Fork? && |t.kids| == SLOTS && |pre| < NIBBLES && RefOf(t.kids[path[|pre|]]) == Some(step.child) &&
      before + Siblings(m, path, 4 * |pre|)
        == step.siblings + Siblings(Sub(m, |pre|, path[|pre|]), path, 4 * |pre| + 4) &&
      Terminal(m, path, 4 * |pre|) == Terminal(Sub(m, |pre|, path[|pre|]), path, 4 * |pre| + 4)
  }

  /** Visits one stored node of the descent. */
  method ProveNode(backend: Backend, c: Child, prefix: Path, path: FullPath, before: seq<Digest>, ghost t: Tree,
                   ghost m: LeafMap)
    returns (r: Result<ProofStep>)
    requires Under(m, prefix) && Canonical(t, prefix, m) && Committed(m) && Stored(backend.disk, t, prefix)
    requires RefOf(t) == Some(c)
    ensures r.Err? ==> !backend.reliable && r.error == ErrorKind.Backend
    ensures r.Ok? ==> Advances(r.value, before, path, t, prefix, m)
  {
    hide SubtreeHash, SparseHash, Siblings, Terminal, Canonical, Stored, TreeHash, RecAt, Reversed, SlotsCommit;
    CanonicalFacts(t, prefix, m);
    var loaded := LoadChild(backend, c, prefix, t, m);
    if loaded.Err? {
      return Err(loaded.error);
    }
    if loaded.value.LeafNode? {
      StopHere(m, path, 4 * |prefix|);
      return Ok(Ended(Some(ProofLeaf(loaded.value.path, loaded.value.info.vh)), before));
    }
    var children := loaded.value.children;
    CanonicalSlotsCommit(t, prefix, m);
    var siblings, outcome := DescendNode(children, path[|prefix|], before, path, prefix, m);
    match outcome {
      case NoLeaf =>
        return Ok(Ended(None, siblings));
      case LoneLeaf(idx) =>
        // A lone leaf stands for its whole range.
        KidFacts(backend.disk, t, prefix, m, idx);
        var leaf := LoadChild(backend, children[idx].value, prefix + [idx], t.kids[idx], Sub(m, |prefix|, idx));
        if leaf.Err? {
          return Err(leaf.error);
        }
        return Ok(Ended(Some(ProofLeaf(leaf.value.path, leaf.value.info.vh)), siblings));
      case Deeper =>
        return Ok(Below(children[path[|prefix|]].value, siblings));
    }
  }

  /** The descent through the stored nodes, collecting siblings top-down. */
  method CollectSiblings(backend: Backend, root: Child, path: FullPath, ghost t: Tree, ghost m: LeafMap)
    returns (r: Result<Proof>)
    requires Under(m, []) && Canonical(t, [], m) && Committed(m) && Stored(backend.disk, t, [])
    requires RefOf(t) == Some(root)
    ensures backend.Answers(r, Ok(Proof(Terminal(m, path, 0), Siblings(m, path, 0))))
  {
    hide Siblings, Terminal, Canonical, Stored, TreeHash, RecAt, Committed, RefOf, Sub, Advances, Collecting, Under;
    var c := root;
    var siblings: seq<Digest> := [];
    var prefix: Path := [];
    ghost var tc, mc := t, m;
    CollectStart(backend.disk, t, m, path);
    while true
      invariant |prefix| <= NIBBLES && RefOf(tc) == Some(c)
      invariant Collecting(backend.disk, m, tc, mc, prefix, path, siblings)
      decreases NIBBLES - |prefix|
    {
      CollectHeld(backend.disk, m, tc, mc, prefix, path, siblings);
      var step := ProveNode(backend, c, prefix, path, siblings, tc, mc);
      if step.Err? {
        return Err(step.error);
      }
      if step.value.Ended? {
        CollectEnd(backend.disk, m, tc, mc, prefix, path, siblings, step.value);
        return Ok(Proof(step.value.leaf, step.value.siblings));
      }
      CollectDown(backend.disk, m, tc, mc, prefix, path, siblings, step.value);
      var slot: Nibble := path[|prefix|];
      c, siblings := step.value.child, step.value.siblings;
      tc, mc := tc.kids[slot], Sub(mc, |prefix|, slot);
      prefix := prefix + [slot];
    }
  }

  /** The descent stands at a held subtree, and what it still collects is that subtree's. */
  ghost predicate Collecting(disk: Disk, m: LeafMap, tc: Tree, mc: LeafMap, prefix: Path, path: FullPath,
                             siblings: seq<Digest>)
  {
    Under(m, []) && |prefix| <= NIBBLES && prefix == path[..|prefix|] &&
    Under(mc, prefix) && Canonical(tc, prefix, mc) && Committed(mc) && Stored(disk, tc, prefix) &&
    siblings + Siblings(mc, path, 4 * |prefix|) == Siblings(m, path, 0) &&
    Terminal(mc, path, 4 * |prefix|) == Terminal(m, path, 0)
  }

  lemma {:induction false} CollectStart(disk: Disk, t: Tree, m: LeafMap, path: FullPath)
    requires Under(m, []) && Canonical(t, [], m) && Committed(m) && Stored(disk, t, [])
    ensures Collecting(disk, m, t, m, [], path, [])
  {
    hide Siblings, Terminal, Canonical, Stored, Committed;
  }

  lemma {:induction false} CollectHeld(disk: Disk, m: LeafMap, tc: Tree, mc: LeafMap, prefix: Path, path: FullPath,
                                       siblings: seq<Digest>)
    requires Collecting(disk, m, tc, mc, prefix, path, siblings)
    ensures Under(mc, prefix) && Canonical(tc, prefix, mc) && Committed(mc) && Stored(disk, tc, prefix) && Under(m, [])
  {
    hide Siblings, Terminal, Canonical, Stored, Committed;
  }

  lemma {:induction false} CollectEnd(disk: Disk, m: LeafMap, tc: Tree, mc: LeafMap, prefix: Path, path: FullPath,
                                      siblings: seq<Digest>, step: ProofStep)
    requires Collecting(disk, m, tc, mc, prefix, path, siblings) && Advances(step, siblings, path, tc, prefix, mc)
    requires step.Ended?
    ensures Under(m, []) && Proof(step.leaf, step.siblings) == Proof(Terminal(m, path, 0), Siblings(m, path, 0))
  {
    hide Siblings, Terminal, Canonical, Stored, Committed;
  }

  lemma {:induction false} CollectDown(disk: Disk, m: LeafMap, tc: Tree, mc: LeafMap, prefix: Path, path: FullPath,
                                       siblings: seq<Digest>, step: ProofStep)
    requires Collecting(disk, m, tc, mc, prefix, path, siblings) && Advances(step, siblings, path, tc, prefix, mc)
    requires step.Below?
    ensures |prefix| < NIBBLES && tc.Fork? && |tc.kids| == SLOTS
    ensures var slot := path[|prefix|];
            RefOf(tc.kids[slot]) == Some(step.child) &&
            Collecting(disk, m, tc.kids[slot], Sub(mc, |prefix|, slot), prefix + [slot], path, step.siblings)
  {
    hide Siblings, Terminal, Canonical, Stored, Committed, TreeHash, RefOf, Sub, Under, RecAt;
    var slot := path[|prefix|];
    KidFacts(disk, tc, prefix, mc, slot);
    var down := prefix + [slot];
    CanonicalFacts(tc.kids[slot], down, Sub(mc, |prefix|, slot));
    assert path[..|down|] == path[..|prefix|] + [slot];
    assert 4 * |down| == 4 * |prefix| + 4;
  }

  /** Walks a store-written tree for path and returns exactly the proof of its map. */
  method ProvePath(backend: Backend, rootChild: Option<Child>, path: FullPath, ghost t: Tree, ghost m: LeafMap)
    returns (r: Result<Proof>)
    requires Canonical(t, [], m) && Committed(m) && Stored(backend.disk, t, []) && rootChild == RefOf(t)
    ensures backend.Answers(r, Ok(ProofFor(m, path)))
  {
    CanonicalFacts(t, [], m);
    if rootChild.None? {
      StopHere(m, path, 0);
      return Ok(Proof(None, []));
    }
    var down := CollectSiblings(backend, rootChild.value, path, t, m);
    if down.Err? {
      return down;
    }
    var siblings := down.value.siblings;
    var a := new Digest[|siblings|](i requires 0 <= i < |siblings| => siblings[i]);
    assert a[..] == siblings;
    ReverseInPlace(a);
    r := Ok(Proof(down.value.leaf, a[..]));
  }
}

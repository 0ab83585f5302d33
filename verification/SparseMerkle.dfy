/** The reference model of the ledger's commitment: a finite map from paths to
    value commitments and its plain binary sparse Merkle hash.  */
module SparseMerkle {
  import opened Hashing

  /** A leaf's commitment and the version its value record was written at. */
  datatype Info = Info(vh: Digest, valueVersion: nat)

  type LeafMap = map<Path, Info>

  /** The committed part of a leaf map: what the root speaks about. */
  ghost function Commitments(m: LeafMap): map<Path, Digest>
  {
    map p | p in m :: m[p].vh
  }

  /** Every path of m is full and agrees with path on the first b bits. */
  ghost predicate Aligned(m: LeafMap, path: Path, b: nat)
  {
    forall p :: p in m ==> SameBits(p, path, b)
  }

  /** The entries of m whose bit b is side. */
  ghost function Half(m: LeafMap, b: nat, side: bool): LeafMap
  {
    map p | p in m && b < 4 * |p| && Bit(p, b) == side :: m[p]
  }

  /** The only path of a singleton map. */
  ghost function Only(m: LeafMap): (p: Path)
    requires |m| == 1
    ensures p in m && m == map[p := m[p]]
  {
    var p :| p in m;
    OnlyKey(m, p);
    p
  }

  lemma {:induction false} OnlyKey(m: LeafMap, p: Path)
    requires |m| == 1 && p in m
    ensures m == map[p := m[p]]
  {
    assert |m.Keys - {p}| == 0;
    assert m.Keys == {p} + (m.Keys - {p});
  }

  lemma {:induction false} TwoOf(m: LeafMap) returns (p: Path, q: Path)
    requires |m| >= 2
    ensures p in m && q in m && p != q
  {
    p :| p in m;
    assert |m.Keys - {p}| >= 1;
    q :| q in m.Keys - {p};
  }

  lemma {:induction false} AtLeastTwo(m: LeafMap, p: Path, q: Path)
    requires p in m && q in m && p != q
    ensures |m| >= 2
  {
    assert {p, q} <= m.Keys;
    SubsetSize({p, q}, m.Keys);
  }

  lemma {:induction false} SubsetSize<T>(a: set<T>, b: set<T>)
    requires a <= b
    ensures |a| <= |b|
  {
    assert b == a + (b - a);
  }

  /** The binary sparse Merkle hash of m below binary depth b: a placeholder for
      nothing, the leaf hash for one leaf wherever it sits, otherwise the node
      over the two halves by bit b.  (Maps aligned to one path never keep two
      leaves at depth 256, see DeepIsSingle.)  */
  ghost function SparseHash(m: LeafMap, b: nat): Digest
    decreases MAX_DEPTH - b
  {
    if |m| == 0 then Placeholder
    else if |m| == 1 then LeafHash(Only(m), m[Only(m)].vh)
    else if b >= MAX_DEPTH then ZeroHash
    else NodeHash(SparseHash(Half(m, b, false), b + 1), SparseHash(Half(m, b, true), b + 1))
  }

  /** What each kind of hash says about the map below it. */
  lemma {:induction false} HashShape(m: LeafMap, b: nat)
    ensures var h := SparseHash(m, b);
            && (h == Placeholder <==> |m| == 0)
            && (h.LeafHash? <==> |m| == 1)
            && (h.LeafHash? ==> h.leafPath in m && m == map[h.leafPath := m[h.leafPath]] && h.vh == m[h.leafPath].vh)
            && (h.NodeHash? <==> |m| >= 2 && b < MAX_DEPTH)
            && (h.NodeHash? ==> h.left == SparseHash(Half(m, b, false), b + 1))
            && (h.NodeHash? ==> h.right == SparseHash(Half(m, b, true), b + 1))
  {
  }

  lemma {:induction false} SameBitsEqual(p: Path, q: Path)
    requires SameBits(p, q, MAX_DEPTH)
    ensures p == q
  {
    SameBitsNibbles(p, q, NIBBLES);
    assert p[..NIBBLES] == p && q[..NIBBLES] == q;
  }

  lemma {:induction false} DeepIsSingle(m: LeafMap, path: Path)
    requires Aligned(m, path, MAX_DEPTH)
    ensures |m| <= 1
  {
    if |m| >= 2 {
      var p, q := TwoOf(m);
      SameBitsEqual(p, path);
      SameBitsEqual(q, path);
    }
  }

  /** Two sides of one alignment: each half is aligned one bit deeper. */
  lemma {:induction false} HalfAligned(m: LeafMap, path: Path, b: nat, side: bool, q: Path)
    requires Aligned(m, path, b) && b < MAX_DEPTH
    requires SameBits(q, path, b) && Bit(q, b) == side
    ensures Aligned(Half(m, b, side), q, b + 1)
  {
  }

  /** A path on the given side of bit b that agrees with path before it. */
  ghost function Turned(path: Path, b: nat, side: bool): (q: Path)
    requires |path| == NIBBLES && b < MAX_DEPTH
    ensures SameBits(q, path, b) && Bit(q, b) == side
  {
    var n := WithBit(path[b / 4], b % 4, side);
    var q := path[b / 4 := n];
    assert forall i: nat :: i < b ==> Bit(q, i) == Bit(path, i);
    q
  }

  ghost function WithBit(n: Nibble, k: nat, side: bool): (r: Nibble)
    requires k < 4
    ensures NibbleBit(r, k) == side
    ensures forall j: nat :: j < k ==> NibbleBit(r, j) == NibbleBit(n, j)
  {
    if NibbleBit(n, k) == side then n
    else if k == 0 then (if side then n + 8 else n - 8)
    else if k == 1 then (if side then n + 4 else n - 4)
    else if k == 2 then (if side then n + 2 else n - 2)
    else (if side then n + 1 else n - 1)
  }

  /** Equal hashes commit to equal maps: the root is collision free on contents. */
  lemma {:induction false} SparseHashInjective(m1: LeafMap, m2: LeafMap, path: Path, b: nat)
    requires |path| == NIBBLES && b <= MAX_DEPTH
    requires Aligned(m1, path, b) && Aligned(m2, path, b)
    requires SparseHash(m1, b) == SparseHash(m2, b)
    ensures Commitments(m1) == Commitments(m2)
    decreases MAX_DEPTH - b, 1
  {
    if b == MAX_DEPTH {
      DeepIsSingle(m1, path);
      DeepIsSingle(m2, path);
    } else if |m1| >= 2 && |m2| >= 2 {
      SparseHashInjectiveHalf(m1, m2, path, b, false);
      SparseHashInjectiveHalf(m1, m2, path, b, true);
      HalvesDecide(m1, m2, b);
    }
  }

  lemma {:induction false} SparseHashInjectiveHalf(m1: LeafMap, m2: LeafMap, path: Path, b: nat, side: bool)
    requires |path| == NIBBLES && b < MAX_DEPTH
    requires Aligned(m1, path, b) && Aligned(m2, path, b)
    requires SparseHash(Half(m1, b, side), b + 1) == SparseHash(Half(m2, b, side), b + 1)
    ensures Commitments(Half(m1, b, side)) == Commitments(Half(m2, b, side))
    decreases MAX_DEPTH - b, 0
  {
    var q := Turned(path, b, side);
    HalfAligned(m1, path, b, side, q);
    HalfAligned(m2, path, b, side, q);
    SparseHashInjective(Half(m1, b, side), Half(m2, b, side), q, b + 1);
  }

  lemma {:induction false} HalvesDecide(m1: LeafMap, m2: LeafMap, b: nat)
    requires forall p :: p in m1 || p in m2 ==> b < 4 * |p|
    requires Commitments(Half(m1, b, false)) == Commitments(Half(m2, b, false))
    requires Commitments(Half(m1, b, true)) == Commitments(Half(m2, b, true))
    ensures Commitments(m1) == Commitments(m2)
  {
    var c1, c2 := Commitments(m1), Commitments(m2);
    forall p ensures p in c1 <==> p in c2
             ensures p in c1 && p in c2 ==> c1[p] == c2[p] {
      if p in m1 || p in m2 {
        var side := Bit(p, b);
        var h1, h2 := Commitments(Half(m1, b, side)), Commitments(Half(m2, b, side));
        assert p in h1 <==> p in m1;
        assert p in h2 <==> p in m2;
      }
    }
  }

  /** The hash depends on the commitments alone, not on where values are stored. */
  lemma {:induction false} SparseHashOfCommitments(m1: LeafMap, m2: LeafMap, b: nat)
    requires Commitments(m1) == Commitments(m2)
    ensures SparseHash(m1, b) == SparseHash(m2, b)
    decreases MAX_DEPTH - b
  {
    SameKeys(m1, m2);
    if |m1| == 1 {
      assert Only(m1) == Only(m2);
      assert Commitments(m1)[Only(m1)] == Commitments(m2)[Only(m2)];
    } else if |m1| >= 2 && b < MAX_DEPTH {
      HalfCommitments(m1, m2, b, false);
      HalfCommitments(m1, m2, b, true);
      SparseHashOfCommitments(Half(m1, b, false), Half(m2, b, false), b + 1);
      SparseHashOfCommitments(Half(m1, b, true), Half(m2, b, true), b + 1);
    }
  }

  lemma {:induction false} SameKeys(m1: LeafMap, m2: LeafMap)
    requires Commitments(m1) == Commitments(m2)
    ensures m1.Keys == m2.Keys && |m1| == |m2|
  {
    assert m1.Keys == Commitments(m1).Keys == Commitments(m2).Keys == m2.Keys;
    assert |m1| == |m1.Keys| && |m2| == |m2.Keys|;
  }

  lemma {:induction false} HalfCommitments(m1: LeafMap, m2: LeafMap, b: nat, side: bool)
    requires Commitments(m1) == Commitments(m2)
    ensures Commitments(Half(m1, b, side)) == Commitments(Half(m2, b, side))
  {
    SameKeys(m1, m2);
    var h1, h2 := Half(m1, b, side), Half(m2, b, side);
    assert forall p :: p in h1 ==> p in m1 && h1[p].vh == Commitments(m1)[p];
    assert forall p :: p in h2 ==> p in m2 && h2[p].vh == Commitments(m2)[p];
  }
}

/** The history chain: each chained commit stores a hash over the previous head,
    the previous root and its version.  */
module Chain {
  import opened Hashing
  import opened StoredTree
  import opened Runs

  /** One link: the head after a commit, from the head and the root before it. */
  function HistoryLink(prevHead: Digest, prevRoot: Digest, version: nat): Digest
  {
    LinkHash(prevHead, prevRoot, version)
  }

  /** A link gives away everything it was made from. */
  lemma {:induction false} LinkInjective(h1: Digest, r1: Digest, v1: nat, h2: Digest, r2: Digest, v2: nat)
    requires HistoryLink(h1, r1, v1) == HistoryLink(h2, r2, v2)
    ensures h1 == h2 && r1 == r2 && v1 == v2
  {
  }

  /** The head at version v of the lineage roots. */
  ghost function HeadOf(roots: seq<Digest>, v: nat): Digest
    requires v <= |roots|
  {
    if v == 0 then ZeroHash else HistoryLink(HeadOf(roots, v - 1), roots[v - 1], v)
  }

  /** The roots of a history, in version order. */
  ghost function RootsOf(versions: seq<Snapshot>): (r: seq<Digest>)
    ensures |r| == |versions|
    ensures forall w :: 0 <= w < |versions| ==> r[w] == TreeHash(versions[w].tree)
  {
    seq(|versions|, w requires 0 <= w < |versions| => TreeHash(versions[w].tree))
  }

  /** Version w holds the head of the lineage before it in the reserved leaf. */
  ghost predicate HoldsHead(versions: seq<Snapshot>, hp: Path, w: nat)
    requires w < |versions|
  {
    var leaves := versions[w].leaves;
    if w == 0 then hp !in leaves
    else hp in leaves && leaves[hp].vh == ValueMac(hp, Head(HeadOf(RootsOf(versions), w)))
  }

  /** Every version of the history carries its link. */
  ghost predicate Chained(versions: seq<Snapshot>, hp: Path)
  {
    forall w {:trigger versions[w]} :: 0 <= w < |versions| ==> HoldsHead(versions, hp, w)
  }

  lemma {:induction false} HeadDependsOnPrefix(r1: seq<Digest>, r2: seq<Digest>, v: nat)
    requires v <= |r1| && v <= |r2| && r1[..v] == r2[..v]
    ensures HeadOf(r1, v) == HeadOf(r2, v)
    decreases v
  {
    if v > 0 {
      assert r1[..v - 1] == r1[..v][..v - 1] && r2[..v - 1] == r2[..v][..v - 1];
      assert r1[v - 1] == r1[..v][v - 1] && r2[v - 1] == r2[..v][v - 1];
      HeadDependsOnPrefix(r1, r2, v - 1);
    }
  }

  lemma {:induction false} RootsOfPrefix(v1: seq<Snapshot>, v2: seq<Snapshot>, w: nat)
    requires v1 <= v2 && w <= |v1|
    ensures RootsOf(v1)[..w] == RootsOf(v2)[..w] && HeadOf(RootsOf(v1), w) == HeadOf(RootsOf(v2), w)
  {
    hide TreeHash;
    assert forall i :: 0 <= i < |v1| ==> v1[i] == v2[i];
    assert RootsOf(v1)[..w] == RootsOf(v2)[..w];
    HeadDependsOnPrefix(RootsOf(v1), RootsOf(v2), w);
  }

  /** A commit that stores the next link extends the chain. */
  lemma {:induction false} ChainExtends(versions: seq<Snapshot>, hp: Path, snap: Snapshot, head: Digest)
    requires |versions| > 0 && Chained(versions, hp)
    requires head ==
             HistoryLink(HeadOf(RootsOf(versions), |versions| - 1), TreeHash(versions[|versions| - 1].tree), |versions|)
    requires hp in snap.leaves && snap.leaves[hp].vh == ValueMac(hp, Head(head))
    ensures Chained(versions + [snap], hp) && head == HeadOf(RootsOf(versions + [snap]), |versions|)
  {
    hide TreeHash, HeadOf, RootsOf;
    var next := versions + [snap];
    NextHead(versions, snap);
    forall w | 0 <= w < |next| ensures HoldsHead(next, hp, w) {
      if w < |versions| {
        assert next[w] == versions[w] && HoldsHead(versions, hp, w);
        RootsOfPrefix(versions, next, w);
      }
    }
  }

  lemma {:induction false} NextHead(versions: seq<Snapshot>, snap: Snapshot)
    requires |versions| > 0
    ensures HeadOf(RootsOf(versions + [snap]), |versions|)
         == HistoryLink(HeadOf(RootsOf(versions), |versions| - 1), TreeHash(versions[|versions| - 1].tree), |versions|)
  {
    hide TreeHash;
    RootsOfPrefix(versions, versions + [snap], |versions| - 1);
  }
}

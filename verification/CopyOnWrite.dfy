/** What a commit does to a tree: the declarative relation between the tree of a
    version and the tree of the next, and what it means for their records.  */
module CopyOnWrite {
  import opened Hashing
  import opened SparseMerkle
  import opened StoredTree
  import opened Records

  ghost function KidOf(t: Tree, i: Nibble): Tree
  {
    if t.Fork? && |t.kids| == SLOTS then t.kids[i] else Empty
  }

  ghost function KidMap(t: Tree, m: LeafMap, d: nat, i: Nibble): LeafMap
  {
    if t.Fork? then Sub(m, d, i) else map[]
  }

  /** t' is the copy-on-write successor of t (holding m) for the contents m' at
      version v: an unchanged subtree is t itself, a changed one is the canonical
      tree of m' written at v over the successors of its children.  */
  ghost predicate Rewrites(t: Tree, m: LeafMap, t': Tree, m': LeafMap, pre: Path, v: nat)
    decreases t'
  {
    if m' == m then t' == t
    else if |m'| == 0 then t' == Empty
    else if |m'| == 1 then t' == Tip(v, Only(m'), m'[Only(m')])
    else
      t'.Fork? && t'.ver == v && |t'.kids| == SLOTS && |pre| < NIBBLES &&
      forall i: Nibble {:trigger Sub(m', |pre|, i)} ::
        Rewrites(KidOf(t, i), KidMap(t, m, |pre|, i), t'.kids[i], Sub(m', |pre|, i), pre + [i], v)
  }

  lemma {:induction false} RewritesKid(t: Tree, m: LeafMap, t': Tree, m': LeafMap, pre: Path, v: nat, i: Nibble)
    requires Rewrites(t, m, t', m', pre, v) && m' != m && |m'| >= 2
    ensures t'.Fork? && t'.ver == v && |t'.kids| == SLOTS && |pre| < NIBBLES
    ensures Rewrites(KidOf(t, i), KidMap(t, m, |pre|, i), t'.kids[i], Sub(m', |pre|, i), pre + [i], v)
  {
    assert Sub(m', |pre|, i) == Sub(m', |pre|, i);
  }

  lemma {:induction false} SubUnder(m: LeafMap, pre: Path, i: Nibble)
    requires Under(m, pre) && |pre| < NIBBLES
    ensures Under(Sub(m, |pre|, i), pre + [i])
  {
    forall p | p in Sub(m, |pre|, i) ensures pre + [i] <= p {
      assert p == pre + p[|pre|..];
      assert (pre + [i])[..|pre|] == pre;
    }
  }

  lemma {:induction false} KidOfCanonical(t: Tree, pre: Path, m: LeafMap, i: Nibble)
    requires Canonical(t, pre, m) && |pre| < NIBBLES
    ensures Canonical(KidOf(t, i), pre + [i], KidMap(t, m, |pre|, i))
  {
    if t.Fork? {
      KidCanonical(t, pre, m, i);
    }
  }

  /** The successor of a canonical tree is the canonical tree of the new contents. */
  lemma {:induction false} RewritesCanonical(t: Tree, m: LeafMap, t': Tree, m': LeafMap, pre: Path, v: nat)
    requires Canonical(t, pre, m) && Under(m', pre) && Rewrites(t, m, t', m', pre, v)
    ensures Canonical(t', pre, m')
    decreases t'
  {
    if m' != m && |m'| >= 2 {
      forall i: Nibble ensures t'.Fork? && |t'.kids| == SLOTS && Canonical(t'.kids[i], pre + [i], Sub(m', |pre|, i)) {
        RewritesKid(t, m, t', m', pre, v, i);
        KidOfCanonical(t, pre, m, i);
        SubUnder(m', pre, i);
        RewritesCanonical(KidOf(t, i), KidMap(t, m, |pre|, i), t'.kids[i], Sub(m', |pre|, i), pre + [i], v);
      }
    }
  }

  /** The result of a commit is determined by the old tree and the new contents. */
  lemma {:induction false} RewritesUnique(t: Tree, m: LeafMap, t1: Tree, t2: Tree, m': LeafMap, pre: Path, v: nat)
    requires Rewrites(t, m, t1, m', pre, v) && Rewrites(t, m, t2, m', pre, v)
    ensures t1 == t2
    decreases t1
  {
    if m' != m && |m'| >= 2 {
      RewritesKid(t, m, t1, m', pre, v, 0);
      RewritesKid(t, m, t2, m', pre, v, 0);
      forall i: Nibble ensures t1.kids[i] == t2.kids[i] {
        RewritesKid(t, m, t1, m', pre, v, i);
        RewritesKid(t, m, t2, m', pre, v, i);
        RewritesUnique(KidOf(t, i), KidMap(t, m, |pre|, i), t1.kids[i], t2.kids[i], Sub(m', |pre|, i), pre + [i], v);
      }
      assert t1.kids == t2.kids;
    }
  }

  // ------------------------------------------------------- records of a tree

  /** Value records follow the leaf map. */
  lemma {:induction false} ValueAt(t: Tree, pre: Path, m: LeafMap, vh: Digest, ver: nat)
    requires Canonical(t, pre, m) && Committed(m)
    ensures RecAt(t, pre, ValueKey(vh, ver))
         == if vh.ValueMac? && vh.macPath in m && m[vh.macPath] == Info(vh, ver)
            then Some(ValueRec(vh.plaintext)) else None
    decreases t
  {
    var k := ValueKey(vh, ver);
    if t.Fork? {
      if Within(k, pre) && |pre| < |Place(k)| {
        var i := Place(k)[|pre|];
        KidCanonical(t, pre, m, i);
        ValueAt(t.kids[i], pre + [i], Sub(m, |pre|, i), vh, ver);
      }
    } else if t.Tip? {
      assert t.path in m;
    }
  }

  /** Every leaf of m' was in m unchanged or has its value written at v. */
  ghost predicate Keeps(m: LeafMap, m': LeafMap, v: nat)
  {
    forall p :: p in m' ==> m'[p].valueVersion == v || (p in m && m'[p] == m[p])
  }

  /** Apart from the records written at v, a successor has only records its
      predecessor had, with the same content. */
  lemma {:induction false} RewritesEvolves(t: Tree, m: LeafMap, t': Tree, m': LeafMap, pre: Path, v: nat, k: RecordKey)
    requires Canonical(t, pre, m) && Committed(m) && Under(m', pre) && Committed(m')
    requires Rewrites(t, m, t', m', pre, v) && Keeps(m, m', v)
    requires RecAt(t', pre, k).Some? && Born(k) != v
    ensures RecAt(t, pre, k) == RecAt(t', pre, k)
    decreases t'
  {
    RewritesCanonical(t, m, t', m', pre, v);
    if k.ValueKey? {
      ValueAt(t, pre, m, k.vh, k.valueVersion);
      ValueAt(t', pre, m', k.vh, k.valueVersion);
    } else if m' != m {
      NodeEvolves(t, m, t', m', pre, v, k);
    }
  }

  lemma {:induction false} NodeEvolves(t: Tree, m: LeafMap, t': Tree, m': LeafMap, pre: Path, v: nat, k: RecordKey)
    requires Canonical(t, pre, m) && Committed(m) && Under(m', pre)
    requires Rewrites(t, m, t', m', pre, v)
    requires RecAt(t', pre, k).Some? && k.NodeKey? && Born(k) != v
    ensures RecAt(t, pre, k) == RecAt(t', pre, k)
    decreases t'
  {
    if m' != m && |m'| >= 2 {
      RewritesKid(t, m, t', m', pre, v, 0);
      var i := Place(k)[|pre|];
      RewritesKid(t, m, t', m', pre, v, i);
      KidOfCanonical(t, pre, m, i);
      SubUnder(m', pre, i);
      SubCommitted(t, m, |pre|, i);
      NodeEvolves(KidOf(t, i), KidMap(t, m, |pre|, i), t'.kids[i], Sub(m', |pre|, i), pre + [i], v, k);
    }
  }

  lemma {:induction false} SubCommitted(t: Tree, m: LeafMap, d: nat, i: Nibble)
    requires Committed(m)
    ensures Committed(KidMap(t, m, d, i)) && Committed(Sub(m, d, i))
  {
  }

  /** Every record of t was written at or before v. */
  ghost predicate BornBy(t: Tree, pre: Path, v: nat)
  {
    forall k {:trigger RecAt(t, pre, k)} :: RecAt(t, pre, k).Some? ==> Born(k) <= v
  }
}

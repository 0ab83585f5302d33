/** Folding a sorted batch of updates into a stored subtree.  */
module Applying {
  import opened Hashing
  import opened SparseMerkle
  import opened StoredTree
  import opened Records
  import opened CopyOnWrite
  import opened Updates
  import opened Accounting
  import opened Building
  import opened Merging

  /** The persisted part of t is on disk. */
  ghost predicate OnDisk(disk: Disk, t: Tree, pre: Path, v: nat)
  {
    forall k {:trigger RecAt(t, pre, k)} ::
      RecAt(t, pre, k).Some? && Born(k) < v ==> Lookup(disk, k) == RecAt(t, pre, k)
  }

  /** What the fold relies on at a subtree: t is the canonical tree of m, its
      records are on disk or held by the accumulator, and no insert lacks a value. */
  ghost predicate Ready(a: Acc, disk: Disk, inserts: map<Path, Value>, v: nat, t: Tree, m: LeafMap, pre: Path)
  {
    Canonical(t, pre, m) && Committed(m) && Sealed(m, inserts, v) &&
    BornBy(t, pre, v) && OnDisk(disk, t, pre, v) && Holds(a, v, t, pre)
  }

  /** The updates of a subtree: sorted, below pre, with prepared inserts. */
  ghost predicate GoodUpdates(es: seq<Update>, u: UpdateMap, pre: Path, inserts: map<Path, Value>)
  {
    Lists(es, u) && AllUnder(es, pre) && UpdatesUnder(u, pre) && Prepared(u, inserts)
  }

  /** The subtree became the copy-on-write successor for the overridden contents. */
  ghost predicate Folded(a: Acc, a': Acc, v: nat, t: Tree, m: LeafMap, u: UpdateMap, t': Tree, pre: Path)
  {
    Rewrites(t, m, t', Override(m, u, v), pre, v) && Moves(a, a', v, t, t', pre)
  }

  // ----------------------------------------------------- child references

  lemma {:induction false} UnderAligned(m: LeafMap, pre: Path, path: FullPath)
    requires Under(m, pre) && pre <= path
    ensures Aligned(m, path, 4 * |pre|)
  {
    forall p | p in m ensures SameBits(p, path, 4 * |pre|) {
      SameBitsNibbles(p, path, |pre|);
    }
  }

  /** A changed subtree never keeps its old reference: equal references mean equal contents. */
  lemma {:induction false} RefsTellApart(t: Tree, m: LeafMap, t': Tree, u: UpdateMap, pre: Path, v: nat)
    requires Canonical(t, pre, m) && Canonical(t', pre, Override(m, u, v)) && RefOf(t) == RefOf(t')
    ensures Override(m, u, v) == m
  {
    hide Canonical, TreeHash, SparseHash, Override;
    var m' := Override(m, u, v);
    CanonicalFacts(t, pre, m);
    CanonicalFacts(t', pre, m');
    if !t.Empty? {
      TreeHashIsSparseHash(t, pre, m);
      TreeHashIsSparseHash(t', pre, m');
      var path :| path in m;
      UnderAligned(m, pre, path);
      UnderAligned(m', pre, path);
      SparseHashInjective(m, m', path, 4 * |pre|);
      OverrideChanges(m, u, v);
    }
  }

  /** Resolves the node a reference points at: fresh ones from the accumulator. */
  method ResolveNode(backend: Backend, acc: CommitAcc, c: Child, pre: Path, ghost t: Tree, ghost m: LeafMap)
    returns (r: Result<NodeRecord>)
    requires Ready(acc.State(), backend.disk, acc.insertCTs, acc.newVersion, t, m, pre) && RefOf(t) == Some(c)
    ensures !t.Empty? && backend.Answers(r, Ok(NodeOf(t)))
  {
    var nk := NodeKey(c.version, pre);
    OwnRecord(acc.State(), backend.disk, acc.insertCTs, acc.newVersion, t, m, pre);
    if c.version == acc.newVersion {
      r := Ok(acc.pending[nk]);
    } else {
      LoadStored(backend.disk, t, pre, m);
      r := LoadNode(backend, nk, c.hash);
    }
    if r.Ok? && r.value.LeafNode? != c.isLeaf {
      r := Err(Corrupted);
    }
  }

  lemma {:induction false} OwnRecord(a: Acc, disk: Disk, inserts: map<Path, Value>, v: nat, t: Tree, m: LeafMap,
                                     pre: Path)
    requires Ready(a, disk, inserts, v, t, m, pre) && !t.Empty?
    ensures t.ver <= v
    ensures t.ver == v ==> NodeKey(v, pre) in a.pending && a.pending[NodeKey(v, pre)] == NodeOf(t)
    ensures t.ver < v ==> Lookup(disk, NodeKey(t.ver, pre)) == Some(NodeRec(NodeOf(t)))
    ensures t.Tip? ==> t.info.valueVersion <= v && t.info.vh.ValueMac? && t.info.vh.macPath == t.path && pre <= t.path
    ensures t.Tip? ==> m == map[t.path := t.info] && t.path in m
  {
    hide RecAt;
    var k := NodeKey(t.ver, pre);
    OwnRecAt(t, pre);
    assert RecAt(t, pre, k).Some?;
    assert FreshAt(a, v, k) == FreshAt(a, v, k);
    if t.Tip? {
      assert t.path in m;
      TipRecAt(t.ver, t.path, t.info, pre, ValueKey(t.info.vh, t.info.valueVersion));
    }
  }

  lemma {:induction false} OwnRecAt(t: Tree, pre: Path)
    requires !t.Empty?
    ensures RecAt(t, pre, NodeKey(t.ver, pre)) == Some(NodeRec(NodeOf(t)))
  {
  }

  // --------------------------------------------------- empty and leaf subtrees

  lemma {:induction false} FreshRewrites(t: Tree, m: LeafMap, t': Tree, m': LeafMap, pre: Path, v: nat)
    requires !t.Fork? && Rewrites(Empty, map[], t', m', pre, v) && (m' != m || (t.Empty? && m == map[]))
    ensures Rewrites(t, m, t', m', pre, v)
  {
    if m' != m && |m'| >= 2 {
      forall n: Nibble
        ensures Rewrites(KidOf(t, n), KidMap(t, m, |pre|, n), t'.kids[n], Sub(m', |pre|, n), pre + [n], v)
      {
        RewritesKid(Empty, map[], t', m', pre, v, n);
      }
    }
  }

  lemma {:induction false} EmptyReady(a: Acc, disk: Disk, inserts: map<Path, Value>, v: nat, es: seq<Update>,
                                      u: UpdateMap, pre: Path)
    requires Holds(a, v, Empty, pre) && GoodUpdates(es, u, pre, inserts)
    ensures var m' := Override(map[], u, v);
            Under(m', pre) && Committed(m') && Sealed(m', inserts, v) && Clear(a, v, pre, m')
  {
    OverrideFacts(map[], u, v, pre, inserts);
  }

  lemma {:induction false} EmptyMoves(a: Acc, a': Acc, v: nat, t': Tree, pre: Path)
    requires Builds(a, a', v, t', pre)
    ensures Moves(a, a', v, Empty, t', pre)
  {
    hide RecAt;
    forall k ensures !Retired(Empty, t', pre, v, k) {
      EmptyRecAt(pre, k);
    }
  }

  lemma {:induction false} PairsUnder(pairs: seq<Pair>, m: LeafMap, pre: Path)
    requires Lists(pairs, m) && Under(m, pre)
    ensures AllUnder(pairs, pre)
  {
  }

  /** Empty subtree: the inserts are built afresh. */
  method ApplyToEmpty(acc: CommitAcc, prefix: PrefixStack, updates: seq<Update>, ghost u: UpdateMap)
    returns (c: Option<Child>, ghost t': Tree)
    requires Holds(acc.State(), acc.newVersion, Empty, prefix.nibbles)
    requires GoodUpdates(updates, u, prefix.nibbles, acc.insertCTs)
    modifies acc`pending, acc`values, prefix
    ensures prefix.nibbles == old(prefix.nibbles) && c == RefOf(t')
    ensures Folded(old(acc.State()), acc.State(), acc.newVersion, Empty, map[], u, t', prefix.nibbles)
  {
    hide Override, Rewrites, Builds, Moves, Clear, Sealed;
    ghost var pre, v, m' := prefix.nibbles, acc.newVersion, Override(map[], u, acc.newVersion);
    EmptyReady(acc.State(), map[], acc.insertCTs, v, updates, u, pre);
    var pairs := InsertsOf(updates, acc.newVersion, u);
    PairsUnder(pairs, m', pre);
    c, t' := BuildFromPairs(acc, prefix, pairs, m');
    EmptyMoves(old(acc.State()), acc.State(), v, t', pre);
  }

  lemma {:induction false} LeafReady(a: Acc, disk: Disk, inserts: map<Path, Value>, v: nat, t: Tree, m: LeafMap,
                                     es: seq<Update>, u: UpdateMap, pre: Path)
    requires Ready(a, disk, inserts, v, t, m, pre) && t.Tip? && GoodUpdates(es, u, pre, inserts)
    ensures m == map[t.path := t.info] && t.path in m && |t.path| == NIBBLES
    ensures var m' := Override(m, u, v);
            && Under(m', pre) && Committed(m') && Sealed(m', inserts, v)
            && (t.path in m' && m'[t.path].vh == t.info.vh ==> m'[t.path] == t.info)
            && Clear(Superseded(a, v, t, pre, m'), v, pre, m')
  {
    var m' := Override(m, u, v);
    assert t.path in m;
    OverrideFacts(m, u, v, pre, inserts);
    OwnRecord(a, disk, inserts, v, t, m, pre);
    SupersededClear(a, v, t, pre, m');
  }

  lemma {:induction false} LeafFolded(a: Acc, a': Acc, disk: Disk, inserts: map<Path, Value>, v: nat, t: Tree,
                                      m: LeafMap, u: UpdateMap, t': Tree, pre: Path)
    requires Ready(a, disk, inserts, v, t, m, pre) && t.Tip? && Override(m, u, v) != m
    requires Under(Override(m, u, v), pre) && Committed(Override(m, u, v))
    requires var m' := Override(m, u, v); t.path in m' && m'[t.path].vh == t.info.vh ==> m'[t.path] == t.info
    requires BuiltTree(Superseded(a, v, t, pre, Override(m, u, v)), a', v, t', Override(m, u, v), pre)
    ensures Folded(a, a', v, t, m, u, t', pre)
  {
    hide Override, Builds, RecAt, Canonical, Holds;
    var m' := Override(m, u, v);
    OwnRecord(a, disk, inserts, v, t, m, pre);
    FreshRewrites(t, m, t', m', pre, v);
    RewritesCanonical(t, m, t', m', pre, v);
    SupersededMoves(a, a', v, t, pre, m', t');
  }

  lemma {:induction false} GoodLists(es: seq<Update>, u: UpdateMap, pre: Path, inserts: map<Path, Value>)
    requires GoodUpdates(es, u, pre, inserts)
    ensures Lists(es, u)
  {
  }

  lemma {:induction false} NothingFolded(a: Acc, disk: Disk, inserts: map<Path, Value>, v: nat, t: Tree, m: LeafMap,
                                         u: UpdateMap, pre: Path)
    requires Ready(a, disk, inserts, v, t, m, pre) && Override(m, u, v) == m
    ensures Folded(a, a, v, t, m, u, t, pre)
  {
    hide Override, Holds;
    MovesNowhere(a, v, t, pre);
  }

  /** Leaf subtree: the resident leaf is merged with the updates and replaced. */
  method ApplyToLeaf(acc: CommitAcc, prefix: PrefixStack, updates: seq<Update>, current: Child, leaf: Pair,
                     ghost disk: Disk, ghost t: Tree, ghost m: LeafMap, ghost u: UpdateMap)
    returns (c: Option<Child>, ghost t': Tree)
    requires Ready(acc.State(), disk, acc.insertCTs, acc.newVersion, t, m, prefix.nibbles) && t.Tip?
    requires RefOf(t) == Some(current) && leaf.path == t.path && leaf.item == t.info
    requires GoodUpdates(updates, u, prefix.nibbles, acc.insertCTs)
    modifies acc`pending, acc`values, acc`stale, prefix
    ensures prefix.nibbles == old(prefix.nibbles) && c == RefOf(t')
    ensures Folded(old(acc.State()), acc.State(), acc.newVersion, t, m, u, t', prefix.nibbles)
  {
    hide Override, Rewrites, Builds, Moves, Clear, Sealed, Ready, GoodUpdates, TreeHash, Lists, Canonical, Under,
         Folded;
    ghost var pre, v, a0 := prefix.nibbles, acc.newVersion, acc.State();
    ghost var m' := Override(m, u, v);
    LeafReady(a0, disk, acc.insertCTs, v, t, m, updates, u, pre);
    GoodLists(updates, u, pre, acc.insertCTs);
    var merged := MergeLeaf(leaf, updates, acc.newVersion, u);
    if |merged| == 1 && leaf.path in merged && merged[leaf.path] == leaf.item {
      OnlyKey(merged, leaf.path);
      NothingFolded(a0, disk, acc.insertCTs, v, t, m, u, pre);
      return Some(current), t;
    }
    OwnRecord(a0, disk, acc.insertCTs, v, t, m, pre);
    acc.StaleNode(NodeKey(current.version, prefix.nibbles));
    if leaf.path !in merged || merged[leaf.path].vh != leaf.item.vh {
      acc.StaleValue(leaf.item);
    }
    var pairs := SortEntries(merged);
    PairsUnder(pairs, m', pre);
    c, t' := BuildFromPairs(acc, prefix, pairs, m');
    LeafFolded(a0, acc.State(), disk, acc.insertCTs, v, t, m, u, t', pre);
  }

  // ------------------------------------------------------- internal subtrees

  /** Children below lim are folded, the rest is as it was. */
  ghost predicate FoldedKids(t: Tree, m: LeafMap, kids: seq<Tree>, m': LeafMap, pre: Path, v: nat, lim: nat)
  {
    t.Fork? && |t.kids| == SLOTS && |kids| == SLOTS &&
    forall n: Nibble {:trigger kids[n]} ::
      (n < lim ==> Rewrites(t.kids[n], Sub(m, |pre|, n), kids[n], Sub(m', |pre|, n), pre + [n], v)) &&
      (n >= lim ==> kids[n] == t.kids[n])
  }

  /** Some group below lim has new contents. */
  ghost predicate ChangedBelow(m: LeafMap, m': LeafMap, d: nat, lim: nat)
  {
    exists n: Nibble :: n < lim && Sub(m', d, n) != Sub(m, d, n)
  }

  lemma {:induction false} KidReady(a: Acc, a1: Acc, disk: Disk, inserts: map<Path, Value>, v: nat, t: Tree, m: LeafMap,
                                    pre: Path, kids: seq<Tree>, i: Nibble)
    requires Ready(a, disk, inserts, v, t, m, pre) && t.Fork? && |t.kids| == SLOTS && |kids| == SLOTS
    requires KidsMove(a, a1, v, t.kids, kids, pre) && kids[i] == t.kids[i]
    ensures Ready(a1, disk, inserts, v, t.kids[i], Sub(m, |pre|, i), pre + [i])
  {
    hide RecAt, Holds, KidsHold, Canonical;
    KidCanonical(t, pre, m, i);
    KidHolds(a1, v, kids, pre, i);
    var kid, q := t.kids[i], pre + [i];
    forall k | RecAt(kid, q, k).Some?
      ensures Born(k) <= v && (Born(k) < v ==> Lookup(disk, k) == RecAt(kid, q, k))
    {
      KidRecAt(t, pre, m, i, k);
      assert RecAt(t, pre, k).Some?;
    }
  }

  lemma {:induction false} GroupUpdates(es: seq<Update>, u: UpdateMap, pre: Path, inserts: map<Path, Value>, i: nat,
                                        j: nat)
    requires GoodUpdates(es, u, pre, inserts) && |pre| < NIBBLES
    requires i < j <= |es| && GroupStart(es, i, |pre|)
    requires forall x :: i <= x < j ==> es[x].path[|pre|] == es[i].path[|pre|]
    requires j < |es| ==> es[j].path[|pre|] != es[i].path[|pre|]
    ensures var nib := es[i].path[|pre|]; GoodUpdates(es[i..j], Sub(u, |pre|, nib), pre + [nib], inserts)
    ensures GroupStart(es, j, |pre|)
    ensures j < |es| ==> es[i].path[|pre|] < es[j].path[|pre|]
  {
    hide Lists, AllUnder, GroupStart;
    var nib := es[i].path[|pre|];
    GroupIsSub(es, u, pre, i, j);
    forall p | p in Sub(u, |pre|, nib) ensures pre + [nib] <= p {
      ExtendsPrefix(pre, p);
    }
  }

  lemma {:induction false} FirstFold(es: seq<Update>, u: UpdateMap, pre: Path, inserts: map<Path, Value>, t: Tree,
                                     m: LeafMap, v: nat)
    requires GoodUpdates(es, u, pre, inserts) && |pre| < NIBBLES && t.Fork? && |t.kids| == SLOTS
    ensures var m' := Override(m, u, v); var lim := NextGroup(es, 0, |pre|);
            FoldedKids(t, m, t.kids, m', pre, v, lim) && !ChangedBelow(m, m', |pre|, lim)
  {
    hide Rewrites, Override, Lists, AllUnder;
    var m', lim := Override(m, u, v), NextGroup(es, 0, |pre|);
    GroupStartZero(es, |pre|);
    forall n: Nibble | n < lim
      ensures Sub(m', |pre|, n) == Sub(m, |pre|, n)
      ensures Rewrites(t.kids[n], Sub(m, |pre|, n), t.kids[n], Sub(m', |pre|, n), pre + [n], v)
    {
      GapIsEmpty(es, u, pre, 0, n);
      GapUnchanged(m, u, v, |pre|, n);
      RewritesSame(t.kids[n], Sub(m, |pre|, n), pre + [n], v);
    }
  }

  lemma {:induction false} GapUnchanged(m: LeafMap, u: UpdateMap, v: nat, d: nat, n: Nibble)
    requires Sub(u, d, n) == map[]
    ensures Sub(Override(m, u, v), d, n) == Sub(m, d, n)
  {
    SubOverride(m, u, v, d, n);
    OverrideNothing(Sub(m, d, n), v);
  }

  /** One more group is folded: everything up to the next group is done. */
  lemma {:induction false} GroupFolded(es: seq<Update>, u: UpdateMap, pre: Path, inserts: map<Path, Value>, t: Tree,
                                       m: LeafMap, v: nat,
                                       kids: seq<Tree>, i: nat, j: nat, t': Tree, changed: bool)
    requires GoodUpdates(es, u, pre, inserts) && |pre| < NIBBLES
    requires i < j <= |es| && GroupStart(es, i, |pre|) && GroupStart(es, j, |pre|)
    requires forall x :: i <= x < j ==> es[x].path[|pre|] == es[i].path[|pre|]
    requires j < |es| ==> es[i].path[|pre|] < es[j].path[|pre|]
    requires FoldedKids(t, m, kids, Override(m, u, v), pre, v, es[i].path[|pre|])
    requires changed <==> ChangedBelow(m, Override(m, u, v), |pre|, es[i].path[|pre|])
    requires var nib := es[i].path[|pre|];
             Rewrites(t.kids[nib], Sub(m, |pre|, nib), t', Sub(Override(m, u, v), |pre|, nib), pre + [nib], v)
    ensures var nib := es[i].path[|pre|]; var m' := Override(m, u, v); var lim := NextGroup(es, j, |pre|);
            && FoldedKids(t, m, kids[nib := t'], m', pre, v, lim)
            && (ChangedBelow(m, m', |pre|, lim) <==> changed || Sub(m', |pre|, nib) != Sub(m, |pre|, nib))
  {
    hide Rewrites, Override, Lists, AllUnder;
    var d, nib, m' := |pre|, es[i].path[|pre|], Override(m, u, v);
    var lim := NextGroup(es, j, d);
    forall n: Nibble | nib < n < lim
      ensures Sub(m', d, n) == Sub(m, d, n)
      ensures Rewrites(t.kids[n], Sub(m, d, n), t.kids[n], Sub(m', d, n), pre + [n], v)
    {
      GapIsEmpty(es, u, pre, j, n);
      GapUnchanged(m, u, v, d, n);
      RewritesSame(t.kids[n], Sub(m, d, n), pre + [n], v);
    }
    FoldedStep(t, m, kids, m', pre, v, nib, t', lim);
    ChangedStep(m, m', d, nib, lim);
  }

  lemma {:induction false} FoldedStep(t: Tree, m: LeafMap, kids: seq<Tree>, m': LeafMap, pre: Path, v: nat, nib: Nibble,
                                      t': Tree, lim: nat)
    requires FoldedKids(t, m, kids, m', pre, v, nib) && nib < lim <= SLOTS
    requires Rewrites(t.kids[nib], Sub(m, |pre|, nib), t', Sub(m', |pre|, nib), pre + [nib], v)
    requires forall n: Nibble :: nib < n < lim ==>
              Rewrites(t.kids[n], Sub(m, |pre|, n), t.kids[n], Sub(m', |pre|, n), pre + [n], v)
    ensures FoldedKids(t, m, kids[nib := t'], m', pre, v, lim)
  {
    hide Rewrites;
    var kids2 := kids[nib := t'];
    forall n: Nibble
      ensures n < lim ==> Rewrites(t.kids[n], Sub(m, |pre|, n), kids2[n], Sub(m', |pre|, n), pre + [n], v)
      ensures n >= lim ==> kids2[n] == t.kids[n]
    {
      assert kids[n] == kids[n];
    }
  }

  lemma {:induction false} ChangedStep(m: LeafMap, m': LeafMap, d: nat, nib: Nibble, lim: nat)
    requires nib < lim && forall n: Nibble :: nib < n < lim ==> Sub(m', d, n) == Sub(m, d, n)
    ensures ChangedBelow(m, m', d, lim) <==> ChangedBelow(m, m', d, nib) || Sub(m', d, nib) != Sub(m, d, nib)
  {
  }

  /** Whether a child's fold changed it, as the references tell. */
  lemma {:induction false} ChildChanged(t: Tree, m: LeafMap, t': Tree, u: UpdateMap, pre: Path, v: nat)
    requires Canonical(t, pre, m) && Under(Override(m, u, v), pre)
    requires Rewrites(t, m, t', Override(m, u, v), pre, v)
    ensures RefOf(t') == RefOf(t) <==> Override(m, u, v) == m
    ensures Canonical(t', pre, Override(m, u, v))
  {
    hide Override, Canonical, TreeHash;
    RewritesCanonical(t, m, t', Override(m, u, v), pre, v);
    if RefOf(t') == RefOf(t) {
      RefsTellApart(t, m, t', u, pre, v);
    }
  }

  /** Rewrites each child that has updates, one group per slot. */
  method ApplyChildren(backend: Backend, acc: CommitAcc, prefix: PrefixStack, start: seq<Option<Child>>,
                       updates: seq<Update>,
                       ghost t: Tree, ghost m: LeafMap, ghost u: UpdateMap)
    returns (r: Result<seq<Option<Child>>>, changed: bool, ghost kids: seq<Tree>)
    requires |prefix.nibbles| < NIBBLES && t.Fork? && |t.kids| == SLOTS && start == Refs(t.kids)
    requires Ready(acc.State(), backend.disk, acc.insertCTs, acc.newVersion, t, m, prefix.nibbles)
    requires GoodUpdates(updates, u, prefix.nibbles, acc.insertCTs)
    modifies acc`pending, acc`values, acc`stale, prefix
    ensures r.Err? ==> !backend.reliable && r.error == ErrorKind.Backend
    ensures r.Ok? ==> prefix.nibbles == old(prefix.nibbles)
    ensures r.Ok? ==> |kids| == SLOTS && r.value == Refs(kids)
    ensures r.Ok? ==> FoldedKids(t, m, kids, Override(m, u, acc.newVersion), prefix.nibbles, acc.newVersion, SLOTS)
    ensures r.Ok? ==> KidsMove(old(acc.State()), acc.State(), acc.newVersion, t.kids, kids, prefix.nibbles)
    ensures r.Ok? ==> (changed <==> ChangedBelow(m, Override(m, u, acc.newVersion), |prefix.nibbles|, SLOTS))
    decreases NIBBLES - |prefix.nibbles|, 0
  {
    hide Rewrites, Override, Ready, GoodUpdates, KidsMove, FoldedKids, ChangedBelow, TreeHash, Moves, GroupStart,
         Canonical, Committed;
    ghost var pre, v, a0 := prefix.nibbles, acc.newVersion, acc.State();
    ghost var m' := Override(m, u, v);
    var children := start;
    kids, changed := t.kids, false;
    FirstFold(updates, u, pre, acc.insertCTs, t, m, v);
    ReadyKids(a0, backend.disk, acc.insertCTs, v, t, m, pre);
    GroupStartZero(updates, |pre|);
    var i := 0;
    while i < |updates|
      invariant 0 <= i <= |updates| && GroupStart(updates, i, |pre|) && prefix.nibbles == pre
      invariant |kids| == SLOTS && children == Refs(kids)
      invariant FoldedKids(t, m, kids, m', pre, v, NextGroup(updates, i, |pre|))
      invariant changed <==> ChangedBelow(m, m', |pre|, NextGroup(updates, i, |pre|))
      invariant KidsMove(a0, acc.State(), v, t.kids, kids, pre)
    {
      var nib: Nibble := updates[i].path[|prefix.nibbles|];
      var j := GroupEnd(updates, i, |prefix.nibbles|);
      GroupUpdates(updates, u, pre, acc.insertCTs, i, j);
      NotYetFolded(t, m, kids, m', pre, v, nib);
      KidReady(a0, acc.State(), backend.disk, acc.insertCTs, v, t, m, pre, kids, nib);
      ghost var a1 := acc.State();
      prefix.Push(nib);
      var sub; ghost var t';
      sub, t' := ApplySubtree(backend, acc, children[nib], prefix, updates[i..j], t.kids[nib], Sub(m, |pre|, nib),
                              Sub(u, |pre|, nib));
      if sub.Err? {
        return Err(sub.error), changed, kids;
      }
      prefix.Pop();
      KidFolded(a0, a1, acc.State(), backend.disk, acc.insertCTs, v, t, m, u, updates[i..j], pre, kids, nib, t');
      GroupFolded(updates, u, pre, acc.insertCTs, t, m, v, kids, i, j, t', changed);
      if sub.value != children[nib] {
        changed := true;
      }
      children, kids := children[nib := sub.value], kids[nib := t'];
      i := j;
    }
    r := Ok(children);
  }

  lemma {:induction false} NotYetFolded(t: Tree, m: LeafMap, kids: seq<Tree>, m': LeafMap, pre: Path, v: nat,
                                        nib: Nibble)
    requires FoldedKids(t, m, kids, m', pre, v, nib)
    ensures kids[nib] == t.kids[nib]
  {
  }

  lemma {:induction false} ReadyKids(a: Acc, disk: Disk, inserts: map<Path, Value>, v: nat, t: Tree, m: LeafMap,
                                     pre: Path)
    requires Ready(a, disk, inserts, v, t, m, pre) && t.Fork? && |t.kids| == SLOTS
    ensures KidsMove(a, a, v, t.kids, t.kids, pre)
  {
    KidsMoveStart(a, v, t, pre);
  }

  /** Folds the child's step into the node's. */
  lemma {:induction false} KidFolded(a: Acc, a1: Acc, a2: Acc, disk: Disk, inserts: map<Path, Value>, v: nat, t: Tree,
                                     m: LeafMap, u: UpdateMap,
                                     group: seq<Update>, pre: Path, kids: seq<Tree>, i: Nibble, t': Tree)
    requires t.Fork? && |t.kids| == SLOTS && |kids| == SLOTS && |pre| < NIBBLES
    requires KidsMove(a, a1, v, t.kids, kids, pre) && kids[i] == t.kids[i]
    requires Ready(a1, disk, inserts, v, t.kids[i], Sub(m, |pre|, i), pre + [i])
    requires GoodUpdates(group, Sub(u, |pre|, i), pre + [i], inserts)
    requires Folded(a1, a2, v, t.kids[i], Sub(m, |pre|, i), Sub(u, |pre|, i), t', pre + [i])
    ensures KidsMove(a, a2, v, t.kids, kids[i := t'], pre)
    ensures Rewrites(t.kids[i], Sub(m, |pre|, i), t', Sub(Override(m, u, v), |pre|, i), pre + [i], v)
    ensures RefOf(t') == RefOf(t.kids[i]) <==> Sub(Override(m, u, v), |pre|, i) == Sub(m, |pre|, i)
  {
    hide Override, KidsMove, Moves, Canonical, TreeHash, Holds;
    var s := Sub(m, |pre|, i);
    SubOverride(m, u, v, |pre|, i);
    KidStep(a, a1, a2, v, t.kids, kids, pre, i, t', s);
    CanonicalFacts(t.kids[i], pre + [i], s);
    OverrideFacts(s, Sub(u, |pre|, i), v, pre + [i], inserts);
    ChildChanged(t.kids[i], s, t', Sub(u, |pre|, i), pre + [i], v);
  }

  // -------------------------------------------------- closing an internal node

  lemma {:induction false} KidVersion(t: Tree, m: LeafMap, t': Tree, m': LeafMap, pre: Path, v: nat)
    requires Rewrites(t, m, t', m', pre, v) && !t'.Empty?
    ensures t'.ver == v || t' == t
  {
  }

  lemma {:induction false} SameGroups(m: LeafMap, m': LeafMap, pre: Path)
    requires Under(m, pre) && Under(m', pre) && |pre| < NIBBLES && !ChangedBelow(m, m', |pre|, SLOTS)
    ensures m' == m
  {
    forall p ensures p in m <==> p in m'
             ensures p in m && p in m' ==> m[p] == m'[p]
    {
      if p in m || p in m' {
        var n: Nibble := p[|pre|];
        assert Sub(m', |pre|, n) == Sub(m, |pre|, n);
        assert p in m <==> p in Sub(m, |pre|, n);
        assert p in m' <==> p in Sub(m', |pre|, n);
      }
    }
  }

  /** No child changed: the node is returned untouched. */
  lemma {:induction false} UnchangedFold(a: Acc, a1: Acc, disk: Disk, inserts: map<Path, Value>, v: nat, t: Tree,
                                         m: LeafMap, u: UpdateMap, kids: seq<Tree>, pre: Path)
    requires Ready(a, disk, inserts, v, t, m, pre) && Under(Override(m, u, v), pre) && t.Fork? && |t.kids| == SLOTS
    requires |kids| == SLOTS
    requires KidsMove(a, a1, v, t.kids, kids, pre)
    requires FoldedKids(t, m, kids, Override(m, u, v), pre, v, SLOTS)
    requires !ChangedBelow(m, Override(m, u, v), |pre|, SLOTS)
    ensures Folded(a, a1, v, t, m, u, t, pre)
  {
    hide Override, RecAt, Canonical;
    CanonicalFacts(t, pre, m);
    SameGroups(m, Override(m, u, v), pre);
    assert kids == t.kids by {
      forall n: Nibble ensures kids[n] == t.kids[n] {
        assert kids[n] == kids[n];
      }
    }
    forall k | Within(k, pre) ensures FreshAt(a1, v, k) == NewPart(t, pre, k, v) {
      ForkRecAt(t, pre, k);
      assert FreshAt(a, v, k) == FreshAt(a, v, k);
    }
    forall k ensures k !in Added(a, a1) {
    }
  }

  lemma {:induction false} KidRewrites(t: Tree, m: LeafMap, kids: seq<Tree>, m': LeafMap, pre: Path, v: nat, n: Nibble)
    requires FoldedKids(t, m, kids, m', pre, v, SLOTS)
    ensures Rewrites(t.kids[n], Sub(m, |pre|, n), kids[n], Sub(m', |pre|, n), pre + [n], v)
  {
    hide Rewrites;
    assert kids[n] == kids[n];
  }

  lemma {:induction false} KidCanonicalAfter(t: Tree, m: LeafMap, kids: seq<Tree>, m': LeafMap, pre: Path, v: nat,
                                             n: Nibble)
    requires Canonical(t, pre, m) && Under(m', pre) && FoldedKids(t, m, kids, m', pre, v, SLOTS)
    ensures |kids| == SLOTS && Canonical(kids[n], pre + [n], Sub(m', |pre|, n))
  {
    hide Canonical, Rewrites;
    CanonicalFacts(t, pre, m);
    KidRewrites(t, m, kids, m', pre, v, n);
    KidCanonical(t, pre, m, n);
    SubUnder(m', pre, n);
    RewritesCanonical(t.kids[n], Sub(m, |pre|, n), kids[n], Sub(m', |pre|, n), pre + [n], v);
  }

  /** The folded children commit to the groups of the new contents. */
  lemma {:induction false} KidsCommit(t: Tree, m: LeafMap, kids: seq<Tree>, m': LeafMap, pre: Path, v: nat)
    requires |kids| == SLOTS && Canonical(t, pre, m) && Under(m', pre) && FoldedKids(t, m, kids, m', pre, v, SLOTS)
    ensures SlotsCommit(Refs(kids), |pre|, m')
    ensures forall n: Nibble {:trigger kids[n]} :: Canonical(kids[n], pre + [n], Sub(m', |pre|, n))
  {
    hide Canonical, Rewrites, SlotCommits, TreeHash, FoldedKids;
    forall n: Nibble
      ensures Canonical(kids[n], pre + [n], Sub(m', |pre|, n))
      ensures SlotCommits(Refs(kids)[n], Sub(m', |pre|, n), 4 * |pre| + 4)
    {
      KidCanonicalAfter(t, m, kids, m', pre, v, n);
      RefCommits(kids[n], pre + [n], Sub(m', |pre|, n));
    }
  }

  lemma {:induction false} AllVacant(kids: seq<Tree>, m': LeafMap, pre: Path)
    requires |kids| == SLOTS && Under(m', pre) && |pre| < NIBBLES && SlotsCommit(Refs(kids), |pre|, m')
    requires Vacant(Refs(kids), 0, SLOTS)
    ensures |m'| == 0 && forall n: Nibble :: kids[n] == Empty
  {
    hide SlotsCommit, TreeHash;
    RangeVacant(Refs(kids), |pre|, m', 0, SLOTS);
    assert RangeMap(m', |pre|, 0, SLOTS) == m';
    forall n: Nibble ensures kids[n] == Empty {
      assert Refs(kids)[n] == RefOf(kids[n]);
    }
  }

  lemma {:induction false} LoneLeafKid(kids: seq<Tree>, m': LeafMap, pre: Path, i: Nibble)
    requires |kids| == SLOTS && Under(m', pre) && |pre| < NIBBLES && Committed(m') && SlotsCommit(Refs(kids), |pre|, m')
    requires Lone(Refs(kids), 0, SLOTS, i) && Refs(kids)[i].value.isLeaf
    requires Canonical(kids[i], pre + [i], Sub(m', |pre|, i))
    ensures LoneTip(kids, i, pre) && m' == map[kids[i].path := kids[i].info] && |m'| == 1 && Only(m') == kids[i].path
  {
    hide SlotsCommit, TreeHash, Canonical;
    RangeLone(Refs(kids), |pre|, m', 0, SLOTS, i);
    assert RangeMap(m', |pre|, 0, SLOTS) == m';
    CanonicalFacts(kids[i], pre + [i], Sub(m', |pre|, i));
    assert kids[i].path in m';
    forall j: Nibble | j != i ensures kids[j] == Empty {
      assert Refs(kids)[j] == RefOf(kids[j]);
    }
  }

  lemma {:induction false} ManyKids(kids: seq<Tree>, m': LeafMap, pre: Path)
    requires |kids| == SLOTS && Under(m', pre) && |pre| < NIBBLES && SlotsCommit(Refs(kids), |pre|, m')
    requires !Vacant(Refs(kids), 0, SLOTS)
    requires forall i: nat :: Lone(Refs(kids), 0, SLOTS, i) ==> !Refs(kids)[i].value.isLeaf
    ensures |m'| >= 2
  {
    hide SlotsCommit, TreeHash;
    RangeMany(Refs(kids), |pre|, m', 0, SLOTS);
    assert RangeMap(m', |pre|, 0, SLOTS) == m';
  }

  /** A leaf's node record is pending if this commit wrote it, else on disk. */
  ghost predicate Available(pending: map<NodeRef, NodeRecord>, disk: Disk, v: nat, tip: Tree, pre: Path)
    requires tip.Tip?
  {
    (tip.ver == v ==> Lookup(pending, NodeKey(v, pre)) == Some(NodeOf(tip))) &&
    (tip.ver != v ==> Lookup(disk, NodeKey(tip.ver, pre)) == Some(NodeRec(NodeOf(tip))))
  }

  /** The leaf behind a reference, with its old node record dropped or marked. */
  method TakeLeaf(backend: Backend, acc: CommitAcc, c: Child, prefix: Path, ghost tip: Tree,
                  ghost m: LeafMap) returns (r: Result<Pair>)
    requires tip.Tip? && RefOf(tip) == Some(c) && Canonical(tip, prefix, m)
    requires Available(acc.pending, backend.disk, acc.newVersion, tip, prefix)
    modifies acc`pending, acc`stale
    ensures r.Err? ==> !backend.reliable && r.error == ErrorKind.Backend
    ensures r.Ok? ==> r.value.path == tip.path && r.value.item == tip.info
    ensures r.Ok? ==> acc.State() == DropNode(old(acc.State()), acc.newVersion, NodeKey(c.version, prefix))
  {
    var nk := NodeKey(c.version, prefix);
    assert tip.path in m;
    if c.version == acc.newVersion {
      var n := acc.pending[nk];
      acc.pending := acc.pending - {nk};
      return Ok(Entry(n.path, n.info));
    }
    LoadStored(backend.disk, tip, prefix, m);
    var n := LoadNode(backend, nk, c.hash);
    if n.Err? {
      return Err(n.error);
    }
    acc.stale := acc.stale + [nk];
    return Ok(Entry(n.value.path, n.value.info));
  }

  /** What closing an internal node may assume once a child changed. */
  ghost predicate Closing(a: Acc, a1: Acc, disk: Disk, inserts: map<Path, Value>, v: nat, t: Tree, m: LeafMap,
                          u: UpdateMap, kids: seq<Tree>, pre: Path)
  {
    t.Fork? && |t.kids| == SLOTS && |kids| == SLOTS && |pre| < NIBBLES && t.ver <= v &&
    Holds(a, v, t, pre) && BornBy(t, pre, v) && OnDisk(disk, t, pre, v) && KidsMove(a, a1, v, t.kids, kids, pre) &&
    Canonical(t, pre, m) &&
    var m' := Override(m, u, v);
    m' != m && Under(m', pre) && Committed(m') && Sealed(m', inserts, v) &&
    FoldedKids(t, m, kids, m', pre, v, SLOTS)
  }

  lemma {:induction false} ClosingFrom(a: Acc, a1: Acc, disk: Disk, inserts: map<Path, Value>, v: nat, t: Tree,
                                       m: LeafMap, es: seq<Update>, u: UpdateMap, kids: seq<Tree>, pre: Path)
    requires Ready(a, disk, inserts, v, t, m, pre) && GoodUpdates(es, u, pre, inserts) && t.Fork? && |t.kids| == SLOTS
    requires |kids| == SLOTS
    requires KidsMove(a, a1, v, t.kids, kids, pre) && FoldedKids(t, m, kids, Override(m, u, v), pre, v, SLOTS)
    ensures Under(Override(m, u, v), pre)
    ensures ChangedBelow(m, Override(m, u, v), |pre|, SLOTS) ==> Closing(a, a1, disk, inserts, v, t, m, u, kids, pre)
  {
    hide Override, KidsMove, FoldedKids, Canonical, Holds, RecAt;
    CanonicalFacts(t, pre, m);
    OverrideFacts(m, u, v, pre, inserts);
    OwnRecord(a, disk, inserts, v, t, m, pre);
  }

  lemma {:induction false} CloseEmpty(a: Acc, a1: Acc, disk: Disk, inserts: map<Path, Value>, v: nat, t: Tree,
                                      m: LeafMap, u: UpdateMap, kids: seq<Tree>, pre: Path)
    requires |kids| == SLOTS && Vacant(Refs(kids), 0, SLOTS) && Closing(a, a1, disk, inserts, v, t, m, u, kids, pre)
    ensures t.Fork? && Folded(a, DropNode(a1, v, NodeKey(t.ver, pre)), v, t, m, u, Empty, pre)
  {
    hide Override, KidsMove, FoldedKids, Canonical, Holds, OnDisk, Sealed, SlotsCommit, Moves, TreeHash, DropNode;
    var m' := Override(m, u, v);
    KidsCommit(t, m, kids, m', pre, v);
    AllVacant(kids, m', pre);
    FinishEmpty(a, a1, v, t, kids, pre);
  }

  lemma {:induction false} CloseFork(a: Acc, a1: Acc, disk: Disk, inserts: map<Path, Value>, v: nat, t: Tree,
                                     m: LeafMap, u: UpdateMap, kids: seq<Tree>, pre: Path)
    requires |kids| == SLOTS && !Vacant(Refs(kids), 0, SLOTS)
    requires forall i: nat :: Lone(Refs(kids), 0, SLOTS, i) ==> !Refs(kids)[i].value.isLeaf
    requires Closing(a, a1, disk, inserts, v, t, m, u, kids, pre)
    ensures t.Fork?
    ensures Folded(a, PutNode(DropNode(a1, v, NodeKey(t.ver, pre)), NodeKey(v, pre), InternalNode(Refs(kids))), v, t, m,
                   u, Fork(v, kids), pre)
  {
    hide Override, KidsMove, Canonical, Holds, OnDisk, Sealed, SlotsCommit, Moves, TreeHash, DropNode, PutNode,
         Rewrites;
    var m' := Override(m, u, v);
    KidsCommit(t, m, kids, m', pre, v);
    ManyKids(kids, m', pre);
    forall n: Nibble ensures Rewrites(KidOf(t, n), KidMap(t, m, |pre|, n), kids[n], Sub(m', |pre|, n), pre + [n], v) {
      assert kids[n] == kids[n];
    }
    ForkRewrites(t, m, kids, m', pre, v);
    FinishFork(a, a1, v, t, kids, pre);
  }

  /** The lone leaf child: its content is at hand. */
  lemma {:induction false} CollapseReady(a: Acc, a1: Acc, disk: Disk, inserts: map<Path, Value>, v: nat, t: Tree,
                                         m: LeafMap, u: UpdateMap, kids: seq<Tree>, pre: Path, i: Nibble)
    requires |kids| == SLOTS && Lone(Refs(kids), 0, SLOTS, i) && Refs(kids)[i].value.isLeaf
    requires Closing(a, a1, disk, inserts, v, t, m, u, kids, pre)
    ensures t.Fork? && kids[i].Tip? && kids[i].ver <= v &&
            (kids[i].ver < v ==> |t.kids| == SLOTS && kids[i] == t.kids[i])
    ensures Canonical(kids[i], pre + [i], Sub(Override(m, u, v), |pre|, i)) && LoneTip(kids, i, pre)
    ensures |Override(m, u, v)| == 1 && Override(m, u, v) == map[kids[i].path := kids[i].info]
    ensures Available(DropNode(a1, v, NodeKey(t.ver, pre)).pending, disk, v, kids[i], pre + [i])
    ensures kids[i].info.valueVersion == v ==> kids[i].path in inserts
  {
    hide Override, KidsMove, Canonical, Holds, OnDisk, BornBy, SlotsCommit, Moves, TreeHash, DropNode, Rewrites, RecAt;
    var m' := Override(m, u, v);
    KidsCommit(t, m, kids, m', pre, v);
    assert kids[i] == kids[i];
    LoneLeafKid(kids, m', pre, i);
    LoneLeafRecord(a, a1, disk, v, t, m, kids, m', pre, i);
  }

  /** Re-homing the lone leaf completes the fold. */
  lemma {:induction false} CloseCollapse(a: Acc, a1: Acc, v: nat, t: Tree, m: LeafMap, u: UpdateMap, kids: seq<Tree>,
                                         pre: Path,
                                         i: Nibble, tip: Tree, value: Value)
    requires t.Fork? && |t.kids| == SLOTS && |kids| == SLOTS && t.ver <= v && tip.Tip? && kids[i] == tip
    requires LoneTip(kids, i, pre) && tip.ver <= v && (tip.ver < v ==> tip == t.kids[i])
    requires Holds(a, v, t, pre) && KidsMove(a, a1, v, t.kids, kids, pre)
    requires Override(m, u, v) != m && |Override(m, u, v)| == 1 && Override(m, u, v) == map[tip.path := tip.info]
    ensures Folded(a, Risen(a1, v, t, tip, pre, i, value), v, t, m, u, Tip(v, tip.path, tip.info), pre)
  {
    hide Override, KidsMove, Holds, Moves, TreeHash, DropNode, Risen, Rewrites, RecAt;
    OneLeafRewrites(t, m, Override(m, u, v), tip.path, pre, v);
    FinishCollapse(a, a1, v, t, kids, pre, i, value);
  }

  lemma {:induction false} ClosingFacts(a: Acc, a1: Acc, disk: Disk, inserts: map<Path, Value>, v: nat, t: Tree,
                                        m: LeafMap, u: UpdateMap, kids: seq<Tree>, pre: Path)
    requires |kids| == SLOTS && Closing(a, a1, disk, inserts, v, t, m, u, kids, pre)
    ensures t.Fork? && |t.kids| == SLOTS && t.ver <= v && Override(m, u, v) != m
    ensures Holds(a, v, t, pre) && KidsMove(a, a1, v, t.kids, kids, pre)
  {
    hide Override, KidsMove, Holds;
  }

  lemma {:induction false} OneLeafRewrites(t: Tree, m: LeafMap, m': LeafMap, p: Path, pre: Path, v: nat)
    requires m' != m && |m'| == 1 && p in m'
    ensures Rewrites(t, m, Tip(v, p, m'[p]), m', pre, v)
  {
    OnlyKey(m', p);
  }

  lemma {:induction false} LoneLeafRecord(a: Acc, a1: Acc, disk: Disk, v: nat, t: Tree, m: LeafMap, kids: seq<Tree>,
                                          m': LeafMap, pre: Path, i: Nibble)
    requires t.Fork? && |t.kids| == SLOTS && |kids| == SLOTS && |pre| < NIBBLES && t.ver <= v
    requires OnDisk(disk, t, pre, v) && BornBy(t, pre, v) && KidsMove(a, a1, v, t.kids, kids, pre)
    requires Canonical(t, pre, m) && FoldedKids(t, m, kids, m', pre, v, SLOTS) && kids[i].Tip?
    ensures kids[i].ver <= v && (kids[i].ver < v ==> kids[i] == t.kids[i])
    ensures Available(DropNode(a1, v, NodeKey(t.ver, pre)).pending, disk, v, kids[i], pre + [i])
  {
    hide RecAt, Rewrites, Canonical;
    var k := NodeKey(kids[i].ver, pre + [i]);
    assert kids[i] == kids[i];
    KidVersion(t.kids[i], Sub(m, |pre|, i), kids[i], Sub(m', |pre|, i), pre + [i], v);
    OwnRecAt(kids[i], pre + [i]);
    DeeperWithin(k, pre, i);
    ForkRecAt(t, pre, k);
    if kids[i].ver == v {
      assert FreshAt(a1, v, k) == NewPart(kids[i], pre + [i], k, v);
    } else {
      assert RecAt(t, pre, k).Some? && Born(k) <= v;
    }
  }

  /** Internal subtree: the children are folded, then the node is rewritten,
      collapsed into its lone surviving leaf, or dropped. */
  method ApplyToInternal(backend: Backend, acc: CommitAcc, prefix: PrefixStack, updates: seq<Update>, current: Child,
                         start: seq<Option<Child>>,
                         ghost t: Tree, ghost m: LeafMap, ghost u: UpdateMap)
    returns (r: Result<Option<Child>>, ghost t': Tree)
    requires |prefix.nibbles| < NIBBLES && t.Fork? && |t.kids| == SLOTS && start == Refs(t.kids)
    requires RefOf(t) == Some(current)
    requires Ready(acc.State(), backend.disk, acc.insertCTs, acc.newVersion, t, m, prefix.nibbles)
    requires GoodUpdates(updates, u, prefix.nibbles, acc.insertCTs)
    modifies acc`pending, acc`values, acc`stale, prefix
    ensures r.Err? ==> !backend.reliable && r.error == ErrorKind.Backend
    ensures r.Ok? ==> prefix.nibbles == old(prefix.nibbles) && r.value == RefOf(t')
    ensures r.Ok? ==> Folded(old(acc.State()), acc.State(), acc.newVersion, t, m, u, t', prefix.nibbles)
    decreases NIBBLES - |prefix.nibbles|, 1
  {
    hide Override, KidsMove, FoldedKids, ChangedBelow, Ready, GoodUpdates, Folded, Closing, TreeHash, Canonical;
    ghost var pre, v, a0 := prefix.nibbles, acc.newVersion, acc.State();
    t' := t;
    var folded, changed; ghost var kids;
    folded, changed, kids := ApplyChildren(backend, acc, prefix, start, updates, t, m, u);
    if folded.Err? {
      return Err(folded.error), t;
    }
    var children := folded.value;
    ghost var a1 := acc.State();
    ClosingFrom(a0, a1, backend.disk, acc.insertCTs, v, t, m, updates, u, kids, pre);
    if !changed {
      UnchangedFold(a0, a1, backend.disk, acc.insertCTs, v, t, m, u, kids, pre);
      return Ok(Some(current)), t;
    }
    r, t' := CloseNode(backend, acc, prefix, current, children, a0, t, m, u, kids);
  }

  method CloseNode(backend: Backend, acc: CommitAcc, prefix: PrefixStack, current: Child, children: seq<Option<Child>>,
                   ghost a0: Acc, ghost t: Tree, ghost m: LeafMap, ghost u: UpdateMap, ghost kids: seq<Tree>)
    returns (r: Result<Option<Child>>, ghost t': Tree)
    requires Closing(a0, acc.State(), backend.disk, acc.insertCTs, acc.newVersion, t, m, u, kids, prefix.nibbles)
    requires |kids| == SLOTS && children == Refs(kids) && RefOf(t) == Some(current)
    modifies acc`pending, acc`values, acc`stale, prefix
    ensures r.Err? ==> !backend.reliable && r.error == ErrorKind.Backend
    ensures r.Ok? ==> prefix.nibbles == old(prefix.nibbles) && r.value == RefOf(t')
    ensures r.Ok? ==> Folded(a0, acc.State(), acc.newVersion, t, m, u, t', prefix.nibbles)
  {
    hide Override, Folded, Closing, Canonical, TreeHash, Vacant, Holds, KidsMove, LoneTip;
    ghost var pre, v, a1 := prefix.nibbles, acc.newVersion, acc.State();
    t' := t;
    acc.StaleNode(NodeKey(current.version, prefix.nibbles));
    var present, only := CountPresent(children, 0, SLOTS);
    if present == 0 {
      CloseEmpty(a0, a1, backend.disk, acc.insertCTs, v, t, m, u, kids, pre);
      return Ok(None), Empty;
    }
    if present == 1 && children[only].value.isLeaf {
      // One leaf is left below: it takes this position.
      CollapseReady(a0, a1, backend.disk, acc.insertCTs, v, t, m, u, kids, pre, only);
      ClosingFacts(a0, a1, backend.disk, acc.insertCTs, v, t, m, u, kids, pre);
      CloseCollapse(a0, a1, v, t, m, u, kids, pre, only, kids[only], acc.InsertOf(kids[only].path));
      prefix.Push(only);
      var leaf := TakeLeaf(backend, acc, children[only].value, prefix.nibbles, kids[only],
                           Sub(Override(m, u, v), |pre|, only));
      if leaf.Err? {
        return Err(leaf.error), t;
      }
      prefix.Pop();
      var c := acc.PutLeaf(prefix.nibbles, leaf.value);
      RefOfNew(v, kids, kids[only]);
      return Ok(Some(c)), Tip(v, kids[only].path, kids[only].info);
    }
    NoLoneLeaf(children, present, only);
    CloseFork(a0, a1, backend.disk, acc.insertCTs, v, t, m, u, kids, pre);
    RefOfNew(v, kids, kids[only]);
    var c := acc.PutInternal(prefix.nibbles, children);
    return Ok(Some(c)), Fork(v, kids);
  }

  lemma {:induction false} RefOfNew(v: nat, kids: seq<Tree>, tip: Tree)
    requires |kids| == SLOTS
    ensures RefOf(Fork(v, kids)) == Some(Child(v, SubtreeHash(Refs(kids), 0, SLOTS), false))
    ensures tip.Tip? ==> RefOf(Tip(v, tip.path, tip.info)) == Some(Child(v, LeafHash(tip.path, tip.info.vh), true))
  {
  }

  lemma {:induction false} NoLoneLeaf(children: seq<Option<Child>>, present: nat, only: nat)
    requires |children| == SLOTS && only < SLOTS && children[only].Some?
    requires present == 1 ==> Lone(children, 0, SLOTS, only) && !children[only].value.isLeaf
    requires present != 1 ==> exists j :: 0 <= j < SLOTS && j != only && children[j].Some?
    ensures forall i: nat :: Lone(children, 0, SLOTS, i) ==> !children[i].value.isLeaf
  {
  }

  /** Rewrites one subtree: t becomes the canonical tree of m overridden by u, with
      every new and retired record accounted for. */
  method ApplySubtree(backend: Backend, acc: CommitAcc, current: Option<Child>, prefix: PrefixStack,
                      updates: seq<Update>,
                      ghost t: Tree, ghost m: LeafMap, ghost u: UpdateMap)
    returns (r: Result<Option<Child>>, ghost t': Tree)
    requires Ready(acc.State(), backend.disk, acc.insertCTs, acc.newVersion, t, m, prefix.nibbles)
    requires current == RefOf(t)
    requires GoodUpdates(updates, u, prefix.nibbles, acc.insertCTs)
    modifies acc`pending, acc`values, acc`stale, prefix
    ensures r.Err? ==> !backend.reliable && r.error == ErrorKind.Backend
    ensures r.Ok? ==> prefix.nibbles == old(prefix.nibbles) && r.value == RefOf(t')
    ensures r.Ok? ==> Folded(old(acc.State()), acc.State(), acc.newVersion, t, m, u, t', prefix.nibbles)
    decreases NIBBLES - |prefix.nibbles|, 2
  {
    hide Override, Folded, Canonical, TreeHash, GoodUpdates, Holds;
    ghost var pre, v, a0 := prefix.nibbles, acc.newVersion, acc.State();
    CanonicalFacts(t, pre, m);
    if |updates| == 0 {
      NoUpdates(updates, u, pre, acc.insertCTs, m, v);
      NothingFolded(a0, backend.disk, acc.insertCTs, v, t, m, u, pre);
      return Ok(current), t;
    }
    if current.None? {
      var built;
      built, t' := ApplyToEmpty(acc, prefix, updates, u);
      assert m == map[];
      return Ok(built), t';
    }
    var n := ResolveNode(backend, acc, current.value, prefix.nibbles, t, m);
    if n.Err? {
      return Err(n.error), t;
    }
    if n.value.LeafNode? {
      var merged;
      merged, t' := ApplyToLeaf(acc, prefix, updates, current.value, Entry(n.value.path, n.value.info), backend.disk, t,
                                m, u);
      return Ok(merged), t';
    }
    r, t' := ApplyToInternal(backend, acc, prefix, updates, current.value, n.value.children, t, m, u);
  }

  lemma {:induction false} NoUpdates(es: seq<Update>, u: UpdateMap, pre: Path, inserts: map<Path, Value>, m: LeafMap,
                                     v: nat)
    requires GoodUpdates(es, u, pre, inserts) && |es| == 0
    ensures Override(m, u, v) == m
  {
    assert u == map[];
    OverrideNothing(m, v);
  }
}

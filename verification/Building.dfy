/** The commit accumulator and the construction of fresh subtrees.  */
module Building {
  import opened Hashing
  import opened SparseMerkle
  import opened StoredTree
  import opened Records
  import opened CopyOnWrite
  import opened Updates
  import opened Accounting

  /** The nibble prefix shared by the recursion, pushed and popped in place. */
  class PrefixStack {
    var nibbles: Path

    constructor ()
      ensures nibbles == []
    {
      nibbles := [];
    }

    method Push(n: Nibble)
      modifies this
      ensures nibbles == old(nibbles) + [n]
    {
      nibbles := nibbles + [n];
    }

    method Pop()
      requires nibbles != []
      modifies this
      ensures nibbles == old(nibbles)[..|old(nibbles)| - 1]
    {
      nibbles := nibbles[..|nibbles| - 1];
    }
  }

  /** A commit in the making: the records it will write and those it retires. */
  class CommitAcc {
    const newVersion: nat
    var pending: map<NodeRef, NodeRecord>
    var stale: seq<RecordKey>
    var insertCTs: map<Path, Value>
    var values: map<Digest, Value>
    var newHead: Option<Digest>

    constructor (newVersion: nat)
      ensures this.newVersion == newVersion && State() == Acc(map[], map[], [])
      ensures insertCTs == map[] && newHead == None
    {
      this.newVersion := newVersion;
      pending, stale, insertCTs, values, newHead := map[], [], map[], map[], None;
    }

    ghost function State(): Acc
      reads this
    {
      Acc(pending, values, stale)
    }

    /** The stored form prepared for an insert at path. */
    ghost function InsertOf(path: Path): Value
      reads this
    {
      if path in insertCTs then insertCTs[path] else Bytes([])
    }

    /** Takes a node out: forgotten if written by this very commit, marked otherwise. */
    method StaleNode(nk: NodeRef)
      modifies this`pending, this`stale
      ensures State() == DropNode(old(State()), newVersion, nk)
    {
      if Born(nk) == newVersion {
        pending := pending - {nk};
      } else {
        stale := stale + [nk];
      }
    }

    /** Retires the value record of a leaf that lost it. */
    method StaleValue(info: Info)
      modifies this`values, this`stale
      ensures State() == DropValue(old(State()), newVersion, info)
    {
      if info.valueVersion == newVersion {
        values := values - {info.vh};
      } else {
        stale := stale + [ValueKey(info.vh, info.valueVersion)];
      }
    }

    /** Adds a leaf record, together with its value when the value is new. */
    method PutLeaf(prefix: Path, leaf: Pair) returns (c: Child)
      requires leaf.item.valueVersion == newVersion ==> leaf.path in insertCTs
      modifies this`pending, this`values
      ensures c == Child(newVersion, LeafHash(leaf.path, leaf.item.vh), true)
      ensures State() == PutLeafAt(old(State()), newVersion, prefix, leaf.path, leaf.item, InsertOf(leaf.path))
    {
      if leaf.item.valueVersion == newVersion && leaf.item.vh !in values {
        values := values[leaf.item.vh := insertCTs[leaf.path]];
      }
      pending := pending[NodeKey(newVersion, prefix) := LeafNode(leaf.path, leaf.item)];
      c := Child(newVersion, LeafHash(leaf.path, leaf.item.vh), true);
    }

    /** Stores an internal node at prefix. */
    method PutInternal(prefix: Path, children: seq<Option<Child>>) returns (c: Child)
      requires |children| == SLOTS
      modifies this`pending
      ensures c == Child(newVersion, SubtreeHash(children, 0, SLOTS), false)
      ensures State() == PutNode(old(State()), NodeKey(newVersion, prefix), InternalNode(children))
    {
      var h := FoldSlots(children, 0, SLOTS);
      pending := pending[NodeKey(newVersion, prefix) := InternalNode(children)];
      c := Child(newVersion, h, false);
    }
  }

  const NO_CHILDREN: seq<Option<Child>> := seq(SLOTS, _ => None)
  ghost const NO_KIDS: seq<Tree> := seq(SLOTS, _ => Empty)

  /** The fresh children of m's groups below lim are in place. */
  ghost predicate BuiltKids(kids: seq<Tree>, m: LeafMap, pre: Path, v: nat, lim: nat)
  {
    |kids| == SLOTS &&
    forall n: Nibble {:trigger kids[n]} ::
      (n < lim ==> Rewrites(Empty, map[], kids[n], Sub(m, |pre|, n), pre + [n], v)) && (n >= lim ==> kids[n] == Empty)
  }

  /** The nibble group entry i starts, or the end of the node. */
  ghost function NextGroup<T>(es: seq<Entry<T>>, i: nat, d: nat): nat
    requires d < NIBBLES
  {
    if i < |es| then es[i].path[d] else SLOTS
  }

  lemma {:induction false} GapIsEmpty<T(!new)>(es: seq<Entry<T>>, m: map<Path, T>, pre: Path, i: nat, n: Nibble)
    requires Lists(es, m) && AllUnder(es, pre) && |pre| < NIBBLES && GroupStart(es, i, |pre|)
    requires forall x :: 0 <= x < i ==> es[x].path[|pre|] < n
    requires n < NextGroup(es, i, |pre|)
    ensures Sub(m, |pre|, n) == map[]
  {
    NoEntries(es, m, pre, i, n);
  }

  lemma {:induction false} FirstGap(pairs: seq<Pair>, m: LeafMap, pre: Path, v: nat, a: Acc)
    requires Lists(pairs, m) && AllUnder(pairs, pre) && |pre| < NIBBLES && Clear(a, v, pre, m)
    ensures BuiltKids(NO_KIDS, m, pre, v, NextGroup(pairs, 0, |pre|))
    ensures Building(a, a, v, NO_KIDS, pre, NextGroup(pairs, 0, |pre|))
  {
    hide Rewrites;
    var lim := NextGroup(pairs, 0, |pre|);
    forall n: Nibble | n < lim
      ensures Sub(m, |pre|, n) == map[] && Rewrites(Empty, map[], Empty, Sub(m, |pre|, n), pre + [n], v)
    {
      GapIsEmpty(pairs, m, pre, 0, n);
      RewritesSame(Empty, map[], pre + [n], v);
    }
    assert Building(a, a, v, NO_KIDS, pre, 0);
    BuildSkip(a, a, v, NO_KIDS, pre, m, 0, lim);
  }

  lemma {:induction false} RewritesSame(t: Tree, m: LeafMap, pre: Path, v: nat)
    ensures Rewrites(t, m, t, m, pre, v)
  {
  }

  /** One more group is built: everything up to the next group is done. */
  lemma {:induction false} GroupBuilt(pairs: seq<Pair>, m: LeafMap, pre: Path, v: nat, a: Acc, a1: Acc, a2: Acc,
                                      kids: seq<Tree>, i: nat, j: nat, t': Tree)
    requires Lists(pairs, m) && AllUnder(pairs, pre) && |pre| < NIBBLES && Clear(a, v, pre, m)
    requires i < j <= |pairs| && GroupStart(pairs, i, |pre|) && GroupStart(pairs, j, |pre|)
    requires forall x :: i <= x < j ==> pairs[x].path[|pre|] == pairs[i].path[|pre|]
    requires j < |pairs| ==> pairs[i].path[|pre|] < pairs[j].path[|pre|]
    requires BuiltKids(kids, m, pre, v, pairs[i].path[|pre|])
    requires Building(a, a1, v, kids, pre, pairs[i].path[|pre|])
    requires Rewrites(Empty, map[], t', Sub(m, |pre|, pairs[i].path[|pre|]), pre + [pairs[i].path[|pre|]], v)
    requires Builds(a1, a2, v, t', pre + [pairs[i].path[|pre|]])
    ensures BuiltKids(kids[pairs[i].path[|pre|] := t'], m, pre, v, NextGroup(pairs, j, |pre|))
    ensures Building(a, a2, v, kids[pairs[i].path[|pre|] := t'], pre, NextGroup(pairs, j, |pre|))
  {
    hide Rewrites, Building, Builds, Clear;
    var d, nib := |pre|, pairs[i].path[|pre|];
    var kids2 := kids[nib := t'];
    var lim := NextGroup(pairs, j, d);
    forall n: Nibble | nib < n < lim
      ensures Sub(m, d, n) == map[] && kids2[n] == Empty && Rewrites(Empty, map[], Empty, map[], pre + [n], v)
    {
      GapIsEmpty(pairs, m, pre, j, n);
      assert kids[n] == Empty;
      RewritesSame(Empty, map[], pre + [n], v);
    }
    BuildKid(a, a1, a2, v, kids, pre, nib, t');
    BuildSkip(a, a2, v, kids2, pre, m, nib + 1, lim);
  }

  /** A fresh subtree at pre for contents m, now held by the accumulator. */
  ghost predicate BuiltTree(a: Acc, a': Acc, v: nat, t': Tree, m: LeafMap, pre: Path)
  {
    Rewrites(Empty, map[], t', m, pre, v) && Builds(a, a', v, t', pre)
  }

  lemma {:induction false} ListsSmall(pairs: seq<Pair>, m: LeafMap)
    requires Lists(pairs, m)
    ensures |pairs| == 0 ==> m == map[]
    ensures |pairs| == 1 ==> |m| == 1 && m == map[pairs[0].path := pairs[0].item] && Only(m) == pairs[0].path
    ensures |pairs| >= 2 ==> |m| >= 2
  {
    if |pairs| == 1 {
      assert m == map[pairs[0].path := pairs[0].item];
    } else if |pairs| >= 2 {
      PathOrder(pairs[0].path, pairs[1].path);
      AtLeastTwo(m, pairs[0].path, pairs[1].path);
    }
  }

  lemma {:induction false} ManyMeansShallow(m: LeafMap, pre: Path)
    requires Under(m, pre) && |m| >= 2
    ensures |pre| < NIBBLES
  {
    var p, q := TwoOf(m);
    assert p[..|p|] == p && q[..|q|] == q;
  }

  /** From sorted leaves to the canonical subtree at the prefix, all records new. */
  method BuildFromPairs(acc: CommitAcc, prefix: PrefixStack, pairs: seq<Pair>, ghost m: LeafMap)
    returns (c: Option<Child>, ghost t': Tree)
    requires Lists(pairs, m) && AllUnder(pairs, prefix.nibbles) && Under(m, prefix.nibbles) && Committed(m)
    requires Sealed(m, acc.insertCTs, acc.newVersion)
    requires Clear(acc.State(), acc.newVersion, prefix.nibbles, m)
    modifies acc`pending, acc`values, prefix
    ensures prefix.nibbles == old(prefix.nibbles)
    ensures c == RefOf(t') && BuiltTree(old(acc.State()), acc.State(), acc.newVersion, t', m, prefix.nibbles)
    decreases NIBBLES - |prefix.nibbles|, 1
  {
    hide Clear, Builds, Sealed;
    ListsSmall(pairs, m);
    ghost var a0 := acc.State();
    if |pairs| == 0 {
      BuildNothing(a0, acc.newVersion, prefix.nibbles);
      return None, Empty;
    }
    if |pairs| == 1 {
      LeafIsPrepared(m, acc.insertCTs, acc.newVersion, pairs[0].path);
      BuildLeaf(a0, acc.newVersion, prefix.nibbles, pairs[0].path, pairs[0].item, acc.InsertOf(pairs[0].path));
      var leaf := acc.PutLeaf(prefix.nibbles, pairs[0]);
      return Some(leaf), Tip(acc.newVersion, pairs[0].path, pairs[0].item);
    }
    ManyMeansShallow(m, prefix.nibbles);
    var children; ghost var kids;
    children, kids := BuildChildren(acc, prefix, pairs, m);
    ForkRewrites(Empty, map[], kids, m, prefix.nibbles, acc.newVersion);
    BuildFork(a0, acc.State(), acc.newVersion, kids, prefix.nibbles, m);
    var node := acc.PutInternal(prefix.nibbles, children);
    return Some(node), Fork(acc.newVersion, kids);
  }

  lemma {:induction false} LeafIsPrepared(m: LeafMap, inserts: map<Path, Value>, v: nat, p: Path)
    requires Sealed(m, inserts, v) && Committed(m) && p in m
    ensures m[p].vh.ValueMac? && m[p].vh.macPath == p
    ensures m[p].valueVersion == v ==> p in inserts && m[p].vh.plaintext == inserts[p]
  {
  }

  lemma {:induction false} ForkRewrites(t: Tree, m: LeafMap, kids: seq<Tree>, m': LeafMap, pre: Path, v: nat)
    requires |kids| == SLOTS && |m'| >= 2 && m' != m && |pre| < NIBBLES
    requires forall n: Nibble {:trigger kids[n]} ::
               Rewrites(KidOf(t, n), KidMap(t, m, |pre|, n), kids[n], Sub(m', |pre|, n), pre + [n], v)
    ensures Rewrites(t, m, Fork(v, kids), m', pre, v)
  {
  }

  /** Builds the nibble groups of two or more leaves, one child per group. */
  method BuildChildren(acc: CommitAcc, prefix: PrefixStack, pairs: seq<Pair>, ghost m: LeafMap)
    returns (children: seq<Option<Child>>, ghost kids: seq<Tree>)
    requires |prefix.nibbles| < NIBBLES
    requires Lists(pairs, m) && AllUnder(pairs, prefix.nibbles) && Under(m, prefix.nibbles) && Committed(m)
    requires Sealed(m, acc.insertCTs, acc.newVersion)
    requires Clear(acc.State(), acc.newVersion, prefix.nibbles, m)
    modifies acc`pending, acc`values, prefix
    ensures prefix.nibbles == old(prefix.nibbles)
    ensures |kids| == SLOTS && children == Refs(kids)
    ensures BuiltKids(kids, m, prefix.nibbles, acc.newVersion, SLOTS)
    ensures Building(old(acc.State()), acc.State(), acc.newVersion, kids, prefix.nibbles, SLOTS)
    decreases NIBBLES - |prefix.nibbles|, 0
  {
    hide Rewrites, Clear, Builds, Building, Lists, AllUnder, Under, Committed, Sealed, TreeHash, GroupStart;
    ghost var pre, v, a0 := prefix.nibbles, acc.newVersion, acc.State();
    children, kids := NO_CHILDREN, NO_KIDS;
    FirstGap(pairs, m, pre, v, a0);
    GroupStartZero(pairs, |pre|);
    var i := 0;
    while i < |pairs|
      invariant 0 <= i <= |pairs| && GroupStart(pairs, i, |pre|) && prefix.nibbles == pre
      invariant |kids| == SLOTS && children == Refs(kids)
      invariant BuiltKids(kids, m, pre, v, NextGroup(pairs, i, |pre|))
      invariant Building(a0, acc.State(), v, kids, pre, NextGroup(pairs, i, |pre|))
    {
      var nib: Nibble := pairs[i].path[|prefix.nibbles|];
      var j := GroupEnd(pairs, i, |prefix.nibbles|);
      GroupReady(pairs, m, pre, v, acc.insertCTs, a0, acc.State(), kids, i, j);
      ghost var a1 := acc.State();
      prefix.Push(nib);
      var c; ghost var t';
      c, t' := BuildFromPairs(acc, prefix, pairs[i..j], Sub(m, |pre|, nib));
      prefix.Pop();
      GroupBuilt(pairs, m, pre, v, a0, a1, acc.State(), kids, i, j, t');
      children, kids := children[nib := c], kids[nib := t'];
      i := j;
    }
  }

  lemma {:induction false} GroupStartZero<T>(es: seq<Entry<T>>, d: nat)
    requires d < NIBBLES
    ensures GroupStart(es, 0, d)
  {
  }

  /** The next group satisfies what building it requires. */
  lemma {:induction false} GroupReady(pairs: seq<Pair>, m: LeafMap, pre: Path, v: nat, inserts: map<Path, Value>,
                                      a: Acc, a1: Acc,
                                      kids: seq<Tree>, i: nat, j: nat)
    requires Lists(pairs, m) && AllUnder(pairs, pre) && Under(m, pre) && |pre| < NIBBLES && Committed(m)
    requires Sealed(m, inserts, v)
    requires |kids| == SLOTS && Clear(a, v, pre, m)
    requires i < j <= |pairs| && GroupStart(pairs, i, |pre|)
    requires forall x :: i <= x < j ==> pairs[x].path[|pre|] == pairs[i].path[|pre|]
    requires j < |pairs| ==> pairs[j].path[|pre|] != pairs[i].path[|pre|]
    requires Building(a, a1, v, kids, pre, pairs[i].path[|pre|])
    ensures var nib := pairs[i].path[|pre|]; var s := Sub(m, |pre|, nib);
            && Lists(pairs[i..j], s) && AllUnder(pairs[i..j], pre + [nib]) && Under(s, pre + [nib])
            && Committed(s) && Sealed(s, inserts, v) && Clear(a1, v, pre + [nib], s)
    ensures GroupStart(pairs, j, |pre|)
    ensures j < |pairs| ==> pairs[i].path[|pre|] < pairs[j].path[|pre|]
  {
    hide Lists, AllUnder, GroupStart, Clear, Building;
    var nib := pairs[i].path[|pre|];
    GroupIsSub(pairs, m, pre, i, j);
    SubUnder(m, pre, nib);
    BuildKidClear(a, a1, v, kids, pre, m, nib);
  }
}

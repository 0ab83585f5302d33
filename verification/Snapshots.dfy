/** Chunked, path-ordered export of a version, and the restore that reproduces it.  */
module Snapshots {
  import opened Hashing
  import opened SparseMerkle
  import opened StoredTree
  import opened Records
  import opened CopyOnWrite
  import opened Updates
  import opened Building
  import opened Runs
  import opened Reading
  import opened LedgerStore
  import opened Diff

  function Plaintext(info: Info): Value
  {
    if info.vh.ValueMac? then info.vh.plaintext else Bytes([])
  }

  /** p comes strictly after the resume point. */
  predicate Later(sa: Option<Path>, p: Path)
  {
    sa.None? || PathLess(sa.value, p)
  }

  /** The values of m strictly after the resume point. */
  ghost function AfterMap(m: LeafMap, sa: Option<Path>): map<Path, Value>
  {
    map p | p in m && Later(sa, p) :: Plaintext(m[p])
  }

  /** A resume point inside the subtree at pre. */
  ghost predicate Resumes(sa: Option<Path>, pre: Path)
  {
    |pre| <= NIBBLES && (sa.Some? ==> |sa.value| == NIBBLES && pre <= sa.value)
  }

  /** The resume point a child inherits. */
  function KidResume(sa: Option<Path>, d: nat, i: Nibble): Option<Path>
  {
    if sa.Some? && d < |sa.value| && sa.value[d] == i then sa else None
  }

  predicate Skips(sa: Option<Path>, d: nat, i: Nibble)
  {
    sa.Some? && d < |sa.value| && i < sa.value[d]
  }

  /** The leaves the descent visits after the resume point. */
  ghost function Remaining(t: Tree, sa: Option<Path>, d: nat): seq<Leaf>
    decreases t, 17
  {
    match t
    case Empty => []
    case Tip(_, path, info) => if |path| == NIBBLES && Later(sa, path) then [Entry(path, Plaintext(info))] else []
    case Fork(_, kids) => if |kids| == SLOTS then RemainingFrom(t, sa, d, 0) else []
  }

  /** The same, over the children from slot n on. */
  ghost function RemainingFrom(t: Tree, sa: Option<Path>, d: nat, n: nat): seq<Leaf>
    requires t.Fork? && |t.kids| == SLOTS && n <= SLOTS
    decreases t, 16 - n
  {
    if n == SLOTS then []
    else KidRemaining(t.kids[n], sa, d, n) + RemainingFrom(t, sa, d, n + 1)
  }

  ghost function KidRemaining(kid: Tree, sa: Option<Path>, d: nat, i: Nibble): seq<Leaf>
    decreases kid, 18
  {
    if Skips(sa, d, i) then [] else Remaining(kid, KidResume(sa, d, i), d + 1)
  }

  // ------------------------------------------------- what the descent lists

  lemma {:induction false} DivergeLess(pre: Path, p: Path, q: Path)
    requires pre <= p && pre <= q && |pre| < |p| && |p| == |q| && p[|pre|] < q[|pre|]
    ensures PathLess(p, q) && !PathLess(q, p)
    decreases |pre|
  {
    if |pre| > 0 {
      assert p[0] == pre[0] == q[0];
      DivergeLess(pre[1..], p[1..], q[1..]);
    }
  }

  lemma {:induction false} JoinLists<T(!new)>(a: seq<Entry<T>>, b: seq<Entry<T>>, ma: map<Path, T>, mb: map<Path, T>)
    requires Lists(a, ma) && Lists(b, mb)
    requires forall p, q :: p in ma && q in mb ==> PathLess(p, q)
    requires ma.Keys !! mb.Keys
    ensures Lists(a + b, ma + mb)
  {
    var es, m := a + b, ma + mb;
    forall i, j | 0 <= i < j < |es| ensures PathLess(es[i].path, es[j].path) {
      if i < |a| && j >= |a| {
        assert es[i] == a[i] && es[j] == b[j - |a|];
      }
    }
    forall p | p in m ensures exists i :: 0 <= i < |es| && es[i].path == p {
      if p in mb {
        var i :| 0 <= i < |b| && b[i].path == p;
        assert es[|a| + i].path == p;
      } else {
        var i :| 0 <= i < |a| && a[i].path == p;
        assert es[i].path == p;
      }
    }
  }

  /** The part of AfterMap in the children from n on. */
  ghost function AfterFrom(m: LeafMap, sa: Option<Path>, d: nat, n: nat): map<Path, Value>
  {
    map p | p in m && Later(sa, p) && d < |p| && p[d] >= n :: Plaintext(m[p])
  }

  ghost function AfterIn(m: LeafMap, sa: Option<Path>, d: nat, i: Nibble): map<Path, Value>
  {
    map p | p in m && Later(sa, p) && d < |p| && p[d] == i :: Plaintext(m[p])
  }

  /** Skipping below the resume nibble and unbounding above it is exact. */
  lemma {:induction false} KidAfter(m: LeafMap, pre: Path, sa: Option<Path>, i: Nibble)
    requires Under(m, pre) && |pre| < NIBBLES && Resumes(sa, pre)
    ensures Resumes(KidResume(sa, |pre|, i), pre + [i])
    ensures AfterIn(m, sa, |pre|, i)
         == if Skips(sa, |pre|, i) then map[] else AfterMap(Sub(m, |pre|, i), KidResume(sa, |pre|, i))
  {
    var d := |pre|;
    if sa.Some? {
      forall p | p in m && p[d] == i
        ensures i < sa.value[d] ==> !Later(sa, p)
        ensures i > sa.value[d] ==> Later(sa, p)
      {
        if i < sa.value[d] {
          DivergeLess(pre, p, sa.value);
        } else if i > sa.value[d] {
          DivergeLess(pre, sa.value, p);
        }
      }
      if sa.value[d] == i {
        assert sa.value[..d + 1] == pre + [i];
      }
    }
  }

  /** The descent lists exactly the later leaves, in path order, each once. */
  lemma {:induction false} RemainingLists(t: Tree, pre: Path, m: LeafMap, sa: Option<Path>)
    requires Canonical(t, pre, m) && Resumes(sa, pre)
    ensures Lists(Remaining(t, sa, |pre|), AfterMap(m, sa))
    decreases t, 17
  {
    hide Canonical, RemainingFrom;
    CanonicalFacts(t, pre, m);
    if t.Fork? {
      RemainingFromLists(t, pre, m, sa, 0);
      assert AfterFrom(m, sa, |pre|, 0) == AfterMap(m, sa);
    } else if t.Tip? && Later(sa, t.path) {
      assert Remaining(t, sa, |pre|)[0].path == t.path;
    }
  }

  lemma {:induction false} RemainingFromLists(t: Tree, pre: Path, m: LeafMap, sa: Option<Path>, n: nat)
    requires Canonical(t, pre, m) && Resumes(sa, pre) && t.Fork? && |t.kids| == SLOTS && n <= SLOTS
    ensures Lists(RemainingFrom(t, sa, |pre|, n), AfterFrom(m, sa, |pre|, n))
    decreases t, 16 - n
  {
    hide Canonical, Lists, Remaining, AfterFrom, AfterIn, KidRemaining, PathLess, Resumes;
    CanonicalFacts(t, pre, m);
    var d := |pre|;
    if n == SLOTS {
      NothingFrom(m, sa, d);
    } else {
      var i: Nibble := n;
      KidLists(t, pre, m, sa, i);
      RemainingFromLists(t, pre, m, sa, n + 1);
      AfterSplits(m, pre, sa, i);
      JoinLists(KidRemaining(t.kids[i], sa, d, i), RemainingFrom(t, sa, d, n + 1), AfterIn(m, sa, d, i),
                AfterFrom(m, sa, d, n + 1));
    }
  }

  lemma {:induction false} KidLists(t: Tree, pre: Path, m: LeafMap, sa: Option<Path>, i: Nibble)
    requires Canonical(t, pre, m) && Resumes(sa, pre) && t.Fork? && |t.kids| == SLOTS
    ensures Lists(KidRemaining(t.kids[i], sa, |pre|, i), AfterIn(m, sa, |pre|, i))
    decreases t.kids[i], 18
  {
    hide Canonical, Lists, Remaining, AfterIn, PathLess, AfterMap, Resumes;
    CanonicalFacts(t, pre, m);
    KidAfter(m, pre, sa, i);
    KidCanonical(t, pre, m, i);
    if Skips(sa, |pre|, i) {
      NothingListed<Value>();
    } else {
      RemainingLists(t.kids[i], pre + [i], Sub(m, |pre|, i), KidResume(sa, |pre|, i));
    }
  }

  lemma {:induction false} NothingListed<T(!new)>()
    ensures Lists<T>([], map[])
  {
  }

  lemma {:induction false} NothingFrom(m: LeafMap, sa: Option<Path>, d: nat)
    ensures AfterFrom(m, sa, d, SLOTS) == map[] && Lists<Value>([], map[])
  {
  }

  lemma {:induction false} AfterSplits(m: LeafMap, pre: Path, sa: Option<Path>, i: Nibble)
    requires Under(m, pre) && |pre| < NIBBLES
    ensures AfterFrom(m, sa, |pre|, i) == AfterIn(m, sa, |pre|, i) + AfterFrom(m, sa, |pre|, i + 1)
    ensures AfterIn(m, sa, |pre|, i).Keys !! AfterFrom(m, sa, |pre|, i + 1).Keys
    ensures forall p, q :: p in AfterIn(m, sa, |pre|, i) && q in AfterFrom(m, sa, |pre|, i + 1) ==> PathLess(p, q)
  {
    forall p, q | p in AfterIn(m, sa, |pre|, i) && q in AfterFrom(m, sa, |pre|, i + 1) ensures PathLess(p, q) {
      DivergeLess(pre, p, q);
    }
  }

  // ----------------------------------------------------------------- chunks

  /** Appending at most max leaves in all: everything fits, or the list is cut. */
  ghost predicate Took(before: seq<Leaf>, after: seq<Leaf>, rest: seq<Leaf>, max: int, exhausted: bool)
  {
    if |before| >= max then after == before && !exhausted
    else if |rest| <= max - |before| then after == before + rest && exhausted
    else after == before + rest[..max - |before|] && !exhausted
  }

  class LeafBuffer {
    var leaves: seq<Leaf>

    constructor ()
      ensures leaves == []
    {
      leaves := [];
    }
  }

  /** A nonempty subtree without a resume point has leaves to give. */
  lemma {:induction false} SomeRemain(disk: Disk, t: Tree, pre: Path, m: LeafMap)
    requires Held(disk, t, pre, m) && !t.Empty?
    ensures Remaining(t, None, |pre|) != []
  {
    hide Canonical, Remaining, Remains;
    HeldFacts(disk, t, pre, m);
    CanonicalFacts(t, pre, m);
    RemainingLists(t, pre, m, None);
    assert m != map[];
    var p :| p in m;
    assert p in AfterMap(m, None);
  }

  lemma {:induction false} FromStep(t: Tree, sa: Option<Path>, d: nat, i: Nibble)
    requires t.Fork? && |t.kids| == SLOTS
    ensures Remaining(t, sa, d) == RemainingFrom(t, sa, d, 0) && RemainingFrom(t, sa, d, SLOTS) == []
    ensures RemainingFrom(t, sa, d, i) == KidRemaining(t.kids[i], sa, d, i) + RemainingFrom(t, sa, d, i + 1)
    ensures t.kids[i].Empty? || Skips(sa, d, i) ==> RemainingFrom(t, sa, d, i) == RemainingFrom(t, sa, d, i + 1)
  {
  }

  lemma {:induction false} TipRemaining(t: Tree, sa: Option<Path>, d: nat)
    requires t.Tip?
    ensures Remaining(t, sa, d) == if |t.path| == NIBBLES && Later(sa, t.path) then [Entry(t.path, Plaintext(t.info))]
                                   else []
  {
  }

  /** The value of a held leaf is readable, unless its record is gone. */
  lemma {:induction false} TipReads(disk: Disk, t: Tree, pre: Path, m: LeafMap)
    requires Held(disk, t, pre, m) && t.Tip?
    ensures |t.path| == NIBBLES
    ensures ReadValue(disk, t.path, t.info) == Ok(Some(Plaintext(t.info))) ||
            (ReadValue(disk, t.path, t.info) == Err(Missing) && !Stored(disk, t, pre))
  {
    hide Canonical, Stored, ReadValue, Remains;
    CanonicalFacts(t, pre, m);
    OwnRemains(disk, t, pre, m);
    assert t.path in m;
  }

  /** Depth-first in nibble order; reports whether the subtree was exhausted. */
  method CollectLeaves(backend: Backend, c: Child, prefix: PrefixStack, startAfter: Option<Path>, max: int,
                       out: LeafBuffer,
                       ghost t: Tree, ghost m: LeafMap)
    returns (r: Result<bool>)
    requires Held(backend.disk, t, prefix.nibbles, m) && RefOf(t) == Some(c) && Resumes(startAfter, prefix.nibbles)
    modifies prefix, out
    ensures r.Err? ==> Excused(backend, r.error, Stored(backend.disk, t, old(prefix.nibbles)))
    ensures r.Ok? ==> prefix.nibbles == old(prefix.nibbles)
    ensures r.Ok? ==> Took(old(out.leaves), out.leaves, Remaining(t, startAfter, |old(prefix.nibbles)|), max, r.value)
    decreases NIBBLES - |prefix.nibbles|, 2
  {
    hide Held, TreeHash, RefOf, Remaining, NodeOf, Resumes, ReadValue, PathLess, Stored;
    if |out.leaves| >= max {
      return Ok(false);
    }
    ghost var pre := prefix.nibbles;
    HeldFacts(backend.disk, t, pre, m);
    var n := LoadHeld(backend, Some(c), prefix.nibbles, t, m);
    if n.Err? {
      return Err(n.error);
    }
    NodeKinds(t);
    var node := n.value.value;
    if node.LeafNode? {
      TipRemaining(t, startAfter, |pre|);
      TipReads(backend.disk, t, pre, m);
      if startAfter.Some? && !PathLess(startAfter.value, node.path) {
        return Ok(true);
      }
      var value := ReadValueRecord(backend, node.path, node.info);
      if value.Err? {
        return Err(value.error);
      }
      out.leaves := out.leaves + [Entry(node.path, value.value.value)];
      return Ok(true);
    }
    r := CollectSlots(backend, node.children, prefix, startAfter, max, out, t, m);
  }

  /** The children of a node in slot order, from the resume nibble on. */
  method CollectSlots(backend: Backend, children: seq<Option<Child>>, prefix: PrefixStack, startAfter: Option<Path>,
                      max: int, out: LeafBuffer,
                      ghost t: Tree, ghost m: LeafMap)
    returns (r: Result<bool>)
    requires Held(backend.disk, t, prefix.nibbles, m) && Resumes(startAfter, prefix.nibbles)
    requires t.Fork? && NodeOf(t) == InternalNode(children) && |out.leaves| < max
    modifies prefix, out
    ensures r.Err? ==> Excused(backend, r.error, Stored(backend.disk, t, old(prefix.nibbles)))
    ensures r.Ok? ==> prefix.nibbles == old(prefix.nibbles)
    ensures r.Ok? ==> Took(old(out.leaves), out.leaves, Remaining(t, startAfter, |old(prefix.nibbles)|), max, r.value)
    decreases NIBBLES - |prefix.nibbles|, 1
  {
    hide Held, TreeHash, RefOf, Remaining, RemainingFrom, KidRemaining, NodeOf, Resumes, PathLess, KidOf, KidMap,
         KidResume, Took, Listed, Refs, Stored;
    ghost var pre, before := prefix.nibbles, out.leaves;
    HeldFacts(backend.disk, t, pre, m);
    ForkChildren(t, children);
    NothingTaken(t, startAfter, |pre|);
    var nib := 0;
    ghost var taken: seq<Leaf> := [];
    while nib < SLOTS
      invariant nib <= SLOTS && prefix.nibbles == pre && out.leaves == before + taken && |out.leaves| <= max
      invariant Listed(t, startAfter, |pre|, taken, nib)
    {
      var i: Nibble := nib;
      KidIs(t, i, children);
      nib := nib + 1;
      if !Skips(startAfter, |prefix.nibbles|, i) && children[i].Some? {
        ghost var rest := KidRemaining(t.kids[i], startAfter, |pre|, i);
        r := CollectSlot(backend, children[i].value, i, prefix, startAfter, max, out, t, m);
        if r.Err? {
          return;
        }
        if !r.value {
          KidCut(backend.disk, t, m, pre, startAfter, i, before, taken, out.leaves, max);
          return;
        }
        TookAll(before + taken, out.leaves, rest, max);
        TakenMore(t, startAfter, |pre|, taken, i);
        assert before + taken + rest == before + (taken + rest);
        taken := taken + rest;
      } else {
        TakenNone(t, startAfter, |pre|, taken, i);
      }
    }
    AllTaken(t, startAfter, |pre|, taken);
    TookWhole(before, taken, max);
    return Ok(true);
  }

  /** The leaves taken so far and those of the slots from nib on are all the leaves;
      nothing is taken before the resume slot. */
  ghost predicate Listed(t: Tree, sa: Option<Path>, d: nat, taken: seq<Leaf>, nib: nat)
  {
    t.Fork? && |t.kids| == SLOTS && nib <= SLOTS && taken + RemainingFrom(t, sa, d, nib) == Remaining(t, sa, d) &&
    (sa.Some? && d < |sa.value| && nib <= sa.value[d] ==> taken == [])
  }

  lemma {:induction false} NothingTaken(t: Tree, sa: Option<Path>, d: nat)
    requires t.Fork? && |t.kids| == SLOTS
    ensures Listed(t, sa, d, [], 0)
  {
    hide RemainingFrom;
    assert [] + RemainingFrom(t, sa, d, 0) == RemainingFrom(t, sa, d, 0);
  }

  lemma {:induction false} TakenMore(t: Tree, sa: Option<Path>, d: nat, taken: seq<Leaf>, i: Nibble)
    requires Listed(t, sa, d, taken, i) && !Skips(sa, d, i)
    ensures Listed(t, sa, d, taken + KidRemaining(t.kids[i], sa, d, i), i + 1)
  {
    hide Remaining, RemainingFrom, KidRemaining;
    FromStep(t, sa, d, i);
    var rest, more := KidRemaining(t.kids[i], sa, d, i), RemainingFrom(t, sa, d, i + 1);
    assert taken + (rest + more) == taken + rest + more;
  }

  lemma {:induction false} TakenNone(t: Tree, sa: Option<Path>, d: nat, taken: seq<Leaf>, i: Nibble)
    requires Listed(t, sa, d, taken, i) && (t.kids[i].Empty? || Skips(sa, d, i))
    ensures Listed(t, sa, d, taken, i + 1)
  {
    hide Remaining, RemainingFrom, KidRemaining;
    FromStep(t, sa, d, i);
  }

  lemma {:induction false} AllTaken(t: Tree, sa: Option<Path>, d: nat, taken: seq<Leaf>)
    requires Listed(t, sa, d, taken, SLOTS)
    ensures taken == Remaining(t, sa, d)
  {
    hide Remaining, RemainingFrom, KidRemaining;
    FromStep(t, sa, d, 0);
    assert taken + [] == taken;
  }

  /** One occupied child, with the bound it inherits. */
  method CollectSlot(backend: Backend, child: Child, i: Nibble, prefix: PrefixStack, startAfter: Option<Path>, max: int,
                     out: LeafBuffer,
                     ghost t: Tree, ghost m: LeafMap)
    returns (r: Result<bool>)
    requires Held(backend.disk, t, prefix.nibbles, m) && Resumes(startAfter, prefix.nibbles)
    requires |prefix.nibbles| < NIBBLES
    requires t.Fork? && |t.kids| == SLOTS && RefOf(t.kids[i]) == Some(child) && !Skips(startAfter, |prefix.nibbles|, i)
    modifies prefix, out
    ensures r.Err? ==> Excused(backend, r.error, Stored(backend.disk, t, old(prefix.nibbles)))
    ensures r.Ok? ==> prefix.nibbles == old(prefix.nibbles)
    ensures r.Ok? ==>
              Took(old(out.leaves), out.leaves, KidRemaining(t.kids[i], startAfter, |old(prefix.nibbles)|, i), max,
                   r.value)
    decreases NIBBLES - |prefix.nibbles|, 0
  {
    hide Held, TreeHash, RefOf, Remaining, KidRemaining, Resumes, PathLess, KidMap, Took, Stored;
    ghost var pre := prefix.nibbles;
    HeldKid(backend.disk, t, pre, m, i);
    ResumeKid(startAfter, pre, i);
    KidNotSkipped(t, startAfter, |pre|, i);
    var sa := KidResume(startAfter, |prefix.nibbles|, i);
    prefix.Push(i);
    r := CollectLeaves(backend, child, prefix, sa, max, out, t.kids[i], KidMap(t, m, |pre|, i));
    if r.Ok? {
      prefix.Pop();
    }
  }

  lemma {:induction false} ForkChildren(t: Tree, children: seq<Option<Child>>)
    requires t.Fork? && NodeOf(t) == InternalNode(children)
    ensures children == Refs(t.kids) && |children| == |t.kids|
  {
  }

  lemma {:induction false} KidIs(t: Tree, i: Nibble, children: seq<Option<Child>>)
    requires t.Fork? && |t.kids| == SLOTS && children == Refs(t.kids)
    ensures KidOf(t, i) == t.kids[i] && children[i] == RefOf(t.kids[i]) && (children[i].None? <==> t.kids[i].Empty?)
  {
  }

  lemma {:induction false} ResumeKid(sa: Option<Path>, pre: Path, i: Nibble)
    requires Resumes(sa, pre) && |pre| < NIBBLES
    ensures Resumes(KidResume(sa, |pre|, i), pre + [i])
  {
    if sa.Some? && sa.value[|pre|] == i {
      assert sa.value[..|pre| + 1] == pre + [i];
    }
  }

  lemma {:induction false} KidNotSkipped(t: Tree, sa: Option<Path>, d: nat, i: Nibble)
    requires t.Fork? && |t.kids| == SLOTS && !Skips(sa, d, i)
    ensures KidRemaining(t.kids[i], sa, d, i) == Remaining(t.kids[i], KidResume(sa, d, i), d + 1)
  {
  }

  lemma {:induction false} TookAll(before: seq<Leaf>, after: seq<Leaf>, rest: seq<Leaf>, max: int)
    requires Took(before, after, rest, max, true)
    ensures after == before + rest && |after| <= max
  {
  }

  lemma {:induction false} TookWhole(before: seq<Leaf>, rest: seq<Leaf>, max: int)
    requires |before| < max && |before + rest| <= max
    ensures Took(before, before + rest, rest, max, true)
  {
  }

  /** A child that was cut short cuts the whole listing at the same leaf. */
  lemma {:induction false} KidCut(disk: Disk, t: Tree, m: LeafMap, pre: Path, sa: Option<Path>, i: Nibble,
                                  before: seq<Leaf>, taken: seq<Leaf>, after: seq<Leaf>, max: int)
    requires Held(disk, t, pre, m) && t.Fork? && |t.kids| == SLOTS && !t.kids[i].Empty? && |pre| < NIBBLES
    requires !Skips(sa, |pre|, i) && |before| < max && |before + taken| <= max
    requires Took(before + taken, after, KidRemaining(t.kids[i], sa, |pre|, i), max, false)
    requires Listed(t, sa, |pre|, taken, i)
    ensures Took(before, after, Remaining(t, sa, |pre|), max, false)
  {
    hide Held, Remaining, RemainingFrom, KidRemaining, KidOf, KidMap;
    var d := |pre|;
    var rest, whole := KidRemaining(t.kids[i], sa, d, i), Remaining(t, sa, d);
    FromStep(t, sa, d, i);
    if |before + taken| >= max {
      KidNotSkipped(t, sa, d, i);
      KidIs(t, i, Refs(t.kids));
      HeldKid(disk, t, pre, m, i);
      SomeRemain(disk, t.kids[i], pre + [i], KidMap(t, m, d, i));
    }
    assert whole == taken + (rest + RemainingFrom(t, sa, d, i + 1));
    assert whole[..max - |before|] == taken + rest[..max - |before| - |taken|];
  }

  /** What one export call returns for contents m: the first max later leaves in
      path order, and whether that was all.  An empty tree is always done. */
  ghost predicate Chunk(m: LeafMap, sa: Option<Path>, max: int, leaves: seq<Leaf>, done: bool)
  {
    if m == map[] then leaves == [] && done
    else exists rest: seq<Leaf> :: Lists(rest, AfterMap(m, sa)) && Took([], leaves, rest, max, done)
  }

  /** One chunk of a version, from the resume point on. */
  method SnapshotLeaves(s: Store, v: nat, startAfter: Option<FullPath>, max: int) returns (r: Result<(seq<Leaf>, bool)>)
    requires s.Valid()
    ensures v > s.version ==> s.backend.Answers(r, Err(Missing))
    ensures v <= s.version && r.Ok? ==> Chunk(s.versions[v].leaves, startAfter, max, r.value.0, r.value.1)
    ensures v <= s.version && r.Err? ==> Excused(s.backend, r.error, s.horizon <= v)
    ensures RootRecord(s.backend.disk, v).Err? ==> s.backend.Answers(r, Err(Missing))
  {
    hide Inv, TreeHash, RefOf, RootRecord, RootChild, Lists, Held, Remaining, Took, AfterMap, Stored;
    VersionHeld(s.State(), v);
    var root := LoadRootRecord(s.backend, v);
    if root.Err? {
      return Err(root.error);
    }
    ghost var t, m := s.versions[v].tree, s.versions[v].leaves;
    HeldFacts(s.backend.disk, t, [], m);
    var child := LoadRootChild(s.backend, root.value, v);
    if child.Err? {
      return Err(child.error);
    }
    if child.value.None? {
      return Ok(([], true));
    }
    var prefix := new PrefixStack();
    var out := new LeafBuffer();
    var done := CollectLeaves(s.backend, child.value.value, prefix, startAfter, max, out, t, m);
    if done.Err? {
      return Err(done.error);
    }
    ChunkFrom(s.backend.disk, t, m, startAfter, max, out.leaves, done.value);
    return Ok((out.leaves, done.value));
  }

  lemma {:induction false} ChunkFrom(disk: Disk, t: Tree, m: LeafMap, sa: Option<FullPath>, max: int, leaves: seq<Leaf>,
                                     done: bool)
    requires Held(disk, t, [], m) && !t.Empty? && Took([], leaves, Remaining(t, sa, 0), max, done)
    ensures Chunk(m, sa, max, leaves, done)
  {
    hide Canonical, Remains, Lists, Took, AfterMap, Remaining;
    CanonicalFacts(t, [], m);
    RemainingLists(t, [], m, sa);
    assert m != map[];
  }

  // ----------------------------------------------------------- whole exports

  lemma {:induction false} EmptyBoth<T(!new)>(es: seq<Entry<T>>, m: map<Path, T>)
    requires Lists(es, m)
    ensures es == [] <==> m == map[]
  {
    if es != [] {
      assert es[0].path in m;
    }
  }

  /** A sorted listing is determined by what it lists. */
  lemma {:induction false} ListingUnique<T(!new)>(a: seq<Entry<T>>, b: seq<Entry<T>>, m: map<Path, T>)
    requires Lists(a, m) && Lists(b, m)
    ensures a == b
    decreases |a|
  {
    hide Lists, PathLess;
    EmptyBoth(a, m);
    EmptyBoth(b, m);
    if a != [] {
      FirstListed(a, m, a[0].path);
      FirstListed(b, m, a[0].path);
      FirstListed(a, m, b[0].path);
      PathOrder(a[0].path, b[0].path);
      TailLists(a, m);
      TailLists(b, m);
      ListingUnique(a[1..], b[1..], m - {a[0].path});
      assert a == [a[0]] + a[1..] && b == [b[0]] + b[1..];
    }
  }

  lemma {:induction false} FirstListed<T(!new)>(a: seq<Entry<T>>, m: map<Path, T>, p: Path)
    requires Lists(a, m) && a != []
    ensures a[0].path in m && m[a[0].path] == a[0].item
    ensures p in m ==> a[0].path == p || PathLess(a[0].path, p)
  {
    hide PathLess;
    assert a[0].path in m;
    if p in m {
      var i :| 0 <= i < |a| && a[i].path == p;
    }
  }

  lemma {:induction false} TailLists<T(!new)>(a: seq<Entry<T>>, m: map<Path, T>)
    requires Lists(a, m) && a != []
    ensures Lists(a[1..], m - {a[0].path})
  {
    hide PathLess;
    var tail := a[1..];
    forall i | 0 <= i < |tail|
      ensures tail[i].path in m && tail[i].path != a[0].path && m[tail[i].path] == tail[i].item
    {
      assert tail[i] == a[i + 1];
      PathOrder(a[0].path, a[i + 1].path);
    }
    forall p | p in m && p != a[0].path ensures exists i :: 0 <= i < |tail| && tail[i].path == p {
      var i :| 0 <= i < |a| && a[i].path == p;
      assert tail[i - 1].path == p;
    }
  }

  /** done is reported exactly when no later leaf remains, for every positive max. */
  lemma {:induction false} DoneIffNoneLeft(m: LeafMap, sa: Option<Path>, max: int, leaves: seq<Leaf>, done: bool,
                                           rest: seq<Leaf>)
    requires Chunk(m, sa, max, leaves, done) && Lists(rest, AfterMap(m, sa)) && max > 0
    ensures leaves <= rest && |leaves| <= max && (done <==> leaves == rest) && (!done ==> |leaves| == max)
  {
    hide Lists;
    if m == map[] {
      EmptyBoth(rest, AfterMap(m, sa));
    } else {
      var r: seq<Leaf> :| Lists(r, AfterMap(m, sa)) && Took([], leaves, r, max, done);
      ListingUnique(r, rest, AfterMap(m, sa));
    }
  }

  /** Without a positive max a nonempty tree is never done, even past its last leaf. */
  lemma {:induction false} NoRoomNeverDone(m: LeafMap, sa: Option<Path>, max: int, leaves: seq<Leaf>, done: bool)
    requires Chunk(m, sa, max, leaves, done) && m != map[] && max <= 0
    ensures leaves == [] && !done
  {
  }

  /** Resuming after the last exported path continues where the listing stopped. */
  lemma {:induction false} ResumeContinues(m: LeafMap, sa: Option<Path>, rest: seq<Leaf>, k: nat)
    requires Lists(rest, AfterMap(m, sa)) && 0 < k <= |rest|
    ensures Lists(rest[k..], AfterMap(m, Some(rest[k - 1].path)))
  {
    var last, tail := rest[k - 1].path, rest[k..];
    assert last in AfterMap(m, sa);
    forall i | 0 <= i < |tail|
      ensures tail[i].path in AfterMap(m, Some(last)) && AfterMap(m, Some(last))[tail[i].path] == tail[i].item
    {
      assert tail[i] == rest[k + i];
      assert PathLess(rest[k - 1].path, rest[k + i].path);
    }
    forall p | p in AfterMap(m, Some(last)) ensures exists i :: 0 <= i < |tail| && tail[i].path == p {
      ResumeFinds(m, sa, rest, k, p);
    }
  }

  lemma {:induction false} ResumeFinds(m: LeafMap, sa: Option<Path>, rest: seq<Leaf>, k: nat, p: Path)
    requires Lists(rest, AfterMap(m, sa)) && 0 < k <= |rest| && p in AfterMap(m, Some(rest[k - 1].path))
    ensures exists i :: 0 <= i < |rest[k..]| && rest[k..][i].path == p
  {
    hide PathLess;
    assert rest[k - 1].path in AfterMap(m, sa);
    LaterTwice(sa, rest[k - 1].path, p);
    assert p in AfterMap(m, sa);
    var i :| 0 <= i < |rest| && rest[i].path == p;
    if i < k {
      NotBefore(rest, m, sa, i, k);
    }
    assert rest[k..][i - k].path == p;
  }

  lemma {:induction false} LaterTwice(sa: Option<Path>, last: Path, p: Path)
    requires Later(sa, last) && PathLess(last, p)
    ensures Later(sa, p)
  {
    if sa.Some? {
      PathLessTrans(sa.value, last, p);
    }
  }

  lemma {:induction false} NotBefore(rest: seq<Leaf>, m: LeafMap, sa: Option<Path>, i: nat, k: nat)
    requires Lists(rest, AfterMap(m, sa)) && i < k <= |rest|
    ensures !PathLess(rest[k - 1].path, rest[i].path)
  {
    PathOrder(rest[i].path, rest[k - 1].path);
  }

  ghost function Flatten(chunks: seq<seq<Leaf>>): seq<Leaf>
  {
    if chunks == [] then [] else chunks[0] + Flatten(chunks[1..])
  }

  /** A whole export: each call resumes after the last leaf of the one before, and
      only the last one is done. */
  ghost predicate Exports(chunks: seq<seq<Leaf>>, m: LeafMap, sa: Option<Path>, max: int)
    decreases |chunks|
  {
    chunks != [] &&
    if |chunks| == 1 then Chunk(m, sa, max, chunks[0], true)
    else chunks[0] != [] && Chunk(m, sa, max, chunks[0], false) &&
         Exports(chunks[1..], m, Some(chunks[0][|chunks[0]| - 1].path), max)
  }

  /** A whole export lists every leaf exactly once, in path order. */
  lemma {:induction false} ExportListsAll(chunks: seq<seq<Leaf>>, m: LeafMap, sa: Option<Path>, max: int,
                                          rest: seq<Leaf>)
    requires Exports(chunks, m, sa, max) && max > 0 && Lists(rest, AfterMap(m, sa))
    ensures Flatten(chunks) == rest
    decreases |chunks|
  {
    hide Lists, Chunk, AfterMap;
    if |chunks| == 1 {
      DoneIffNoneLeft(m, sa, max, chunks[0], true, rest);
      assert Flatten(chunks[1..]) == [];
    } else {
      var first := chunks[0];
      DoneIffNoneLeft(m, sa, max, first, false, rest);
      ResumeContinues(m, sa, rest, |first|);
      ExportListsAll(chunks[1..], m, Some(rest[|first| - 1].path), max, rest[|first|..]);
      assert rest == first + rest[|first|..];
    }
  }

  /** While a version is pinned no prune takes it away. */
  lemma {:induction false} PinnedStaysReadable(s: Ledger, s': Ledger, b: nat, all: bool, p: nat)
    requires Inv(s) && s.pin == Some(p) && s.horizon <= p <= Version(s) && Prune(s, s', b, all)
    ensures s'.horizon <= p && Readable(s', p)
  {
    hide RecAt, TreeHash, WellFormed, Evolves, Pruned;
    PruneReadable(s, s', b, all, p);
  }
}

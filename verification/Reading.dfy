/** Verified reads: the descent from a root reference to a value.  */
module Reading {
  import opened Hashing
  import opened SparseMerkle
  import opened StoredTree
  import opened Records
  import opened CopyOnWrite
  import opened Runs

  /** A value record counts only if it re-derives the leaf's commitment. */
  function ReadValue(disk: Disk, path: Path, info: Info): Result<Option<Value>>
  {
    match Lookup(disk, ValueKey(info.vh, info.valueVersion))
    case None => Err(Missing)
    case Some(rec) =>
      if rec.ValueRec? && ValueMac(path, rec.value) == info.vh then Ok(Some(rec.value)) else Err(Corrupted)
  }

  /** The answer of the descent at prefix; a nibble past the path's end is out of range. */
  ghost function Walk(disk: Disk, c: Child, prefix: Path, path: FullPath): Result<Option<Value>>
    requires |prefix| <= NIBBLES
    decreases NIBBLES - |prefix|
  {
    match Load(disk, NodeKey(c.version, prefix), c.hash)
    case Err(e) => Err(e)
    case Ok(n) =>
      if n.LeafNode? != c.isLeaf then Err(Corrupted)
      else if n.LeafNode? then
        if n.path == path then ReadValue(disk, path, n.info) else Ok(None)
      else if |prefix| == NIBBLES then Err(IndexPanic)
      else
        match n.children[path[|prefix|]]
        case None => Ok(None)
        case Some(next) => Walk(disk, next, prefix + [path[|prefix|]], path)
  }

  ghost function WalkRoot(disk: Disk, root: Option<Child>, path: FullPath): Result<Option<Value>>
  {
    match root
    case None => Ok(None)
    case Some(c) => Walk(disk, c, [], path)
  }

  /** The loop of the descent. */
  method WalkTree(backend: Backend, root: Option<Child>, path: FullPath) returns (r: Result<Option<Value>>)
    ensures backend.Answers(r, WalkRoot(backend.disk, root, path))
  {
    hide Load;
    if root.None? {
      return Ok(None);
    }
    var c := root.value;
    var prefix: Path := [];
    while true
      invariant |prefix| <= NIBBLES
      invariant Walk(backend.disk, c, prefix, path) == WalkRoot(backend.disk, root, path)
      decreases NIBBLES - |prefix|
    {
      var n := LoadNode(backend, NodeKey(c.version, prefix), c.hash);
      if n.Err? {
        return Err(n.error);
      }
      if n.value.LeafNode? != c.isLeaf {
        return Err(Corrupted);
      }
      if n.value.LeafNode? {
        if n.value.path != path {
          return Ok(None);
        }
        r := ReadValueRecord(backend, path, n.value.info);
        return;
      }
      if |prefix| == NIBBLES {
        return Err(IndexPanic);
      }
      var nib: Nibble := path[|prefix|];
      LoadedChildren(backend.disk, NodeKey(c.version, prefix), c.hash);
      var next := n.value.children[nib];
      if next.None? {
        return Ok(None);
      }
      prefix := prefix + [nib];
      c := next.value;
    }
  }

  lemma {:induction false} LoadedChildren(disk: Disk, nk: RecordKey, expected: Digest)
    ensures var n := Load(disk, nk, expected); n.Ok? && n.value.InternalNode? ==> |n.value.children| == SLOTS
  {
  }

  method ReadValueRecord(backend: Backend, path: FullPath, info: Info) returns (r: Result<Option<Value>>)
    ensures backend.Answers(r, ReadValue(backend.disk, path, info))
  {
    var got := backend.Get(ValueKey(info.vh, info.valueVersion));
    if got.Err? {
      return Err(got.error);
    }
    if got.value.None? {
      return Err(Missing);
    }
    var rec := got.value.value;
    r := if rec.ValueRec? && ValueMac(path, rec.value) == info.vh then Ok(Some(rec.value)) else Err(Corrupted);
  }

  // ------------------------------------------------ reads of a stored version

  /** What the contents say about a path. */
  ghost function ValueIn(m: LeafMap, path: Path): Option<Value>
  {
    if path in m && m[path].vh.ValueMac? then Some(m[path].vh.plaintext) else None
  }

  lemma {:induction false} ReadsLeaf(disk: Disk, t: Tree, pre: Path, m: LeafMap, path: FullPath)
    requires Canonical(t, pre, m) && Committed(m) && t.Tip? && t.path == path
    requires Lookup(disk, ValueKey(t.info.vh, t.info.valueVersion)) == Some(ValueRec(t.info.vh.plaintext))
    ensures ReadValue(disk, path, t.info) == Ok(ValueIn(m, path))
  {
    assert t.path in m;
  }

  /** On a store-written tree the descent returns exactly the contents. */
  lemma {:induction false} WalkStored(disk: Disk, t: Tree, pre: Path, m: LeafMap, path: FullPath)
    requires Canonical(t, pre, m) && Committed(m) && Stored(disk, t, pre) && pre <= path && !t.Empty?
    ensures |pre| <= NIBBLES && Walk(disk, RefOf(t).value, pre, path) == Ok(ValueIn(m, path))
    decreases t
  {
    hide Canonical, TreeHash, Load, RecAt, SubtreeHash;
    CanonicalFacts(t, pre, m);
    OwnStored(disk, t, pre, m);
    LoadStored(disk, t, pre, m);
    if t.Tip? {
      if t.path == path {
        ReadsLeaf(disk, t, pre, m, path);
      }
    } else {
      var i: Nibble := path[|pre|];
      KidFacts(disk, t, pre, m, i);
      CanonicalFacts(t.kids[i], pre + [i], Sub(m, |pre|, i));
      assert path in m <==> path in Sub(m, |pre|, i);
      if !t.kids[i].Empty? {
        assert path[..|pre| + 1] == pre + [i];
        WalkStored(disk, t.kids[i], pre + [i], Sub(m, |pre|, i), path);
      }
    }
  }

  lemma {:induction false} OwnStored(disk: Disk, t: Tree, pre: Path, m: LeafMap)
    requires Canonical(t, pre, m) && Committed(m) && Stored(disk, t, pre) && !t.Empty?
    ensures Lookup(disk, NodeKey(t.ver, pre)) == Some(NodeRec(NodeOf(t)))
    ensures t.Tip? ==> t.info.vh.ValueMac?
    ensures t.Tip? ==> Lookup(disk, ValueKey(t.info.vh, t.info.valueVersion)) == Some(ValueRec(t.info.vh.plaintext))
  {
    assert RecAt(t, pre, NodeKey(t.ver, pre)).Some?;
    if t.Tip? {
      assert t.path in m;
      assert RecAt(t, pre, ValueKey(t.info.vh, t.info.valueVersion)).Some?;
    }
  }

  // ------------------------------------------------ subtrees held on disk

  /** t is the tree of m at pre, and each of its records is on disk or gone. */
  ghost predicate Held(disk: Disk, t: Tree, pre: Path, m: LeafMap)
  {
    Canonical(t, pre, m) && Committed(m) && Remains(disk, t, pre)
  }

  /** A read may fail for an I/O error, or for a record that is gone. */
  ghost predicate Excused(backend: Backend, e: ErrorKind, whole: bool)
  {
    (e == ErrorKind.Backend && !backend.reliable) || (e == Missing && !whole)
  }

  lemma {:induction false} HeldFacts(disk: Disk, t: Tree, pre: Path, m: LeafMap)
    requires Held(disk, t, pre, m)
    ensures Under(m, pre) && |pre| <= NIBBLES
    ensures t.Empty? ==> m == map[]
    ensures t.Tip? ==> m == map[t.path := t.info] && t.path in m
    ensures t.Fork? ==> |pre| < NIBBLES && |t.kids| == SLOTS
    ensures RefOf(t) == if t.Empty? then None else Some(Child(t.ver, TreeHash(t), t.Tip?))
  {
    hide Canonical, TreeHash;
    CanonicalFacts(t, pre, m);
  }

  lemma {:induction false} HeldKid(disk: Disk, t: Tree, pre: Path, m: LeafMap, i: Nibble)
    requires Held(disk, t, pre, m) && |pre| < NIBBLES
    ensures Held(disk, KidOf(t, i), pre + [i], KidMap(t, m, |pre|, i))
    ensures Stored(disk, t, pre) ==> Stored(disk, KidOf(t, i), pre + [i])
    ensures t.Fork? && |t.kids| == SLOTS ==> Refs(t.kids)[i] == RefOf(KidOf(t, i))
  {
    hide Canonical, TreeHash, RecAt;
    if t.Fork? {
      KidCanonical(t, pre, m, i);
      KidRemains(disk, t, pre, m, i);
      if Stored(disk, t, pre) {
        KidStored(disk, t, pre, m, i);
      }
    } else {
      KidOfCanonical(t, pre, m, i);
      EmptyStored(disk, pre + [i]);
    }
  }

  lemma {:induction false} EmptyStored(disk: Disk, pre: Path)
    ensures Stored(disk, Empty, pre) && Remains(disk, Empty, pre) && Committed(map[])
  {
  }

  /** A subtree's own records are there, or it is not whole. */
  lemma {:induction false} OwnRemains(disk: Disk, t: Tree, pre: Path, m: LeafMap)
    requires Held(disk, t, pre, m) && !t.Empty?
    ensures Load(disk, NodeKey(t.ver, pre), TreeHash(t)) == Ok(NodeOf(t)) ||
            (Load(disk, NodeKey(t.ver, pre), TreeHash(t)) == Err(Missing) && !Stored(disk, t, pre))
    ensures t.Tip? ==> |t.path| == NIBBLES
    ensures t.Tip? ==> ReadValue(disk, t.path, t.info) == Ok(ValueIn(m, t.path)) ||
                       (ReadValue(disk, t.path, t.info) == Err(Missing) && !Stored(disk, t, pre))
  {
    hide Canonical, TreeHash, Refs;
    CanonicalFacts(t, pre, m);
    assert RecAt(t, pre, NodeKey(t.ver, pre)) == Some(NodeRec(NodeOf(t)));
    if Lookup(disk, NodeKey(t.ver, pre)).Some? {
      LoadStored(disk, t, pre, m);
    }
    if t.Tip? {
      assert t.path in m;
      assert RecAt(t, pre, ValueKey(t.info.vh, t.info.valueVersion)) == Some(ValueRec(t.info.vh.plaintext));
      if Lookup(disk, ValueKey(t.info.vh, t.info.valueVersion)).Some? {
        ReadsLeaf(disk, t, pre, m, t.path);
      }
    }
  }

  /** Loads the node a reference to a held subtree points at. */
  method LoadHeld(backend: Backend, c: Option<Child>, prefix: Path, ghost t: Tree,
                  ghost m: LeafMap) returns (r: Result<Option<NodeRecord>>)
    requires Held(backend.disk, t, prefix, m) && c == RefOf(t)
    ensures r.Ok? ==> r.value == if t.Empty? then None else Some(NodeOf(t))
    ensures r.Err? ==> Excused(backend, r.error, Stored(backend.disk, t, prefix))
  {
    hide Canonical, TreeHash, RecAt, Load, Stored;
    HeldFacts(backend.disk, t, prefix, m);
    if c.None? {
      return Ok(None);
    }
    OwnRemains(backend.disk, t, prefix, m);
    var n := LoadNode(backend, NodeKey(c.value.version, prefix), c.value.hash);
    r := if n.Err? then Err(n.error) else Ok(Some(n.value));
  }

  /** On what is left of a store-written tree the descent returns the contents, or
      reports a record as missing. */
  lemma {:induction false} WalkRemnant(disk: Disk, t: Tree, pre: Path, m: LeafMap, path: FullPath)
    requires Held(disk, t, pre, m) && pre <= path && !t.Empty?
    ensures |pre| <= NIBBLES
    ensures Walk(disk, RefOf(t).value, pre, path) == Ok(ValueIn(m, path)) ||
            Walk(disk, RefOf(t).value, pre, path) == Err(Missing)
    decreases t
  {
    hide Canonical, TreeHash, Load, RecAt, SubtreeHash, Remains, Stored;
    CanonicalFacts(t, pre, m);
    OwnRemains(disk, t, pre, m);
    if t.Fork? {
      var i: Nibble := path[|pre|];
      HeldKid(disk, t, pre, m, i);
      KidCanonical(t, pre, m, i);
      CanonicalFacts(t.kids[i], pre + [i], Sub(m, |pre|, i));
      assert path in m <==> path in Sub(m, |pre|, i);
      if !t.kids[i].Empty? {
        assert path[..|pre| + 1] == pre + [i];
        WalkRemnant(disk, t.kids[i], pre + [i], Sub(m, |pre|, i), path);
      }
    }
  }

  // -------------------------------------------------- historical reads of a run

  /** The root recorded for a version. */
  ghost function RootRecord(disk: Disk, w: nat): Result<Digest>
  {
    match Lookup(disk, RootKey(w))
    case None => Err(Missing)
    case Some(rec) => if rec.RootRec? then Ok(rec.root) else Err(Corrupted)
  }

  /** The root reference for a root hash at a version. */
  ghost function RootChild(disk: Disk, root: Digest, w: nat): Result<Option<Child>>
  {
    if root == Placeholder then Ok(None)
    else match Load(disk, NodeKey(w, []), root)
         case Err(e) => Err(e)
         case Ok(n) => Ok(Some(Child(w, root, n.LeafNode?)))
  }

  /** Resolves the root reference recorded for a version. */
  ghost function RootChildAt(disk: Disk, w: nat): Result<Option<Child>>
  {
    match RootRecord(disk, w)
    case Err(e) => Err(e)
    case Ok(root) => RootChild(disk, root, w)
  }

  method LoadRootRecord(backend: Backend, w: nat) returns (r: Result<Digest>)
    ensures backend.Answers(r, RootRecord(backend.disk, w))
  {
    var got := backend.Get(RootKey(w));
    if got.Err? {
      return Err(got.error);
    }
    if got.value.None? {
      return Err(Missing);
    }
    var rec := got.value.value;
    r := if rec.RootRec? then Ok(rec.root) else Err(Corrupted);
  }

  method LoadRootChild(backend: Backend, root: Digest, w: nat) returns (r: Result<Option<Child>>)
    ensures backend.Answers(r, RootChild(backend.disk, root, w))
  {
    hide Load;
    if root == Placeholder {
      return Ok(None);
    }
    var n := LoadNode(backend, NodeKey(w, []), root);
    if n.Err? {
      return Err(n.error);
    }
    return Ok(Some(Child(w, root, n.value.LeafNode?)));
  }

  /** The answer for a path as of version w. */
  ghost function GetAt(disk: Disk, w: nat, path: FullPath): Result<Option<Value>>
  {
    match RootChildAt(disk, w)
    case Err(e) => Err(e)
    case Ok(root) => WalkRoot(disk, root, path)
  }

  lemma {:induction false} ReadableReads(s: Ledger, w: nat, path: FullPath)
    requires w < |s.versions| && WellFormed(s.versions[w], w) && Readable(s, w)
    ensures RootChildAt(s.disk, w) == Ok(RefOf(s.versions[w].tree))
    ensures GetAt(s.disk, w, path) == Ok(ValueIn(s.versions[w].leaves, path))
  {
    hide Canonical, TreeHash, Load, RecAt, Walk;
    var snap := s.versions[w];
    CanonicalFacts(snap.tree, [], snap.leaves);
    RootHash(snap.tree, snap.leaves);
    if !snap.tree.Empty? {
      OwnStored(s.disk, snap.tree, [], snap.leaves);
      LoadStored(s.disk, snap.tree, [], snap.leaves);
      WalkStored(s.disk, snap.tree, [], snap.leaves, path);
    }
  }

  /** Only the empty tree has the placeholder root. */
  lemma {:induction false} RootHash(t: Tree, m: LeafMap)
    requires Canonical(t, [], m)
    ensures TreeHash(t) == SparseHash(m, 0) && (TreeHash(t) == Placeholder <==> t.Empty?)
  {
    hide Canonical, TreeHash, SparseHash;
    TreeHashIsSparseHash(t, [], m);
    CanonicalFacts(t, [], m);
    HashShape(m, 0);
  }

  /** Over every run of commits, pins and prunes (also ones cut short), every
      version at or above the horizon reads exactly the contents it was committed
      with, for every path. */
  lemma {:induction false} RetainedVersionsRead(states: seq<Ledger>, j: nat, i: nat, w: nat, path: FullPath)
    requires Run(states) && j <= i < |states|
    requires w < |states[j].versions| && states[i].horizon <= w
    ensures w < |states[i].versions|
    ensures GetAt(states[i].disk, w, path) == Ok(ValueIn(states[j].versions[w].leaves, path))
  {
    hide Walk, WellFormed, Readable, MarksTrue, Accounted, Evolves, GetAt;
    RunInvariant(states, i);
    HistoryOnlyGrows(states, j, i);
    assert Readable(states[i], w);
    assert WellFormed(states[i].versions[w], w);
    ReadableReads(states[i], w, path);
  }

  lemma {:induction false} RemnantReads(s: Ledger, w: nat, path: FullPath)
    requires w < |s.versions| && WellFormed(s.versions[w], w) && Remnant(s, w)
    ensures GetAt(s.disk, w, path) == Ok(ValueIn(s.versions[w].leaves, path)) || GetAt(s.disk, w, path) == Err(Missing)
  {
    hide Canonical, TreeHash, Load, RecAt, Walk, Stored;
    var snap := s.versions[w];
    CanonicalFacts(snap.tree, [], snap.leaves);
    RootHash(snap.tree, snap.leaves);
    if !snap.tree.Empty? {
      OwnRemains(s.disk, snap.tree, [], snap.leaves);
      WalkRemnant(s.disk, snap.tree, [], snap.leaves, path);
    }
  }

  /** Over every run, however its prunes were cut short, no version ever reads
      wrongly: a read returns what was committed, or that it is missing. */
  lemma {:induction false} ReadsNeverLie(states: seq<Ledger>, j: nat, i: nat, w: nat, path: FullPath)
    requires Run(states) && j <= i < |states| && w < |states[j].versions|
    ensures GetAt(states[i].disk, w, path) == Ok(ValueIn(states[j].versions[w].leaves, path)) ||
            GetAt(states[i].disk, w, path) == Err(Missing)
  {
    hide Walk, WellFormed, Readable, MarksTrue, Accounted, Evolves, GetAt, Remnant;
    RunInvariant(states, i);
    HistoryOnlyGrows(states, j, i);
    assert Remnant(states[i], w);
    assert WellFormed(states[i].versions[w], w);
    RemnantReads(states[i], w, path);
  }

  /** Every version below h is reported missing, whatever is asked of it. */
  ghost predicate Gone(disk: Disk, h: nat)
  {
    forall w: nat, path: FullPath {:trigger GetAt(disk, w, path)} :: w < h ==> GetAt(disk, w, path) == Err(Missing)
  }

  lemma {:induction false} PrunedGone(s: Ledger, s': Ledger, h: nat)
    requires PrunedTo(s, s', h)
    ensures Gone(s'.disk, h)
  {
    hide WalkRoot;
    forall w: nat, path: FullPath | w < h ensures GetAt(s'.disk, w, path) == Err(Missing) {
      assert Lookup(s'.disk, RootKey(w)) == None;
    }
  }

  /** After a complete prune to b, versions below b and below the pin are missing. */
  lemma {:induction false} PrunedVersionsMissing(s: Ledger, s': Ledger, b: nat, w: nat, path: FullPath)
    requires Prune(s, s', b, true) && w < b && (s.pin.Some? ==> w < s.pin.value)
    ensures GetAt(s'.disk, w, path) == Err(Missing)
  {
    assert Lookup(s'.disk, RootKey(w)) == None;
  }
}

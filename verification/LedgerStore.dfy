/** The store object: commits, pruning, pinning, reads and reopening, each proved
    to be the corresponding step of the run-level state machine.  */
module LedgerStore {
  import opened Hashing
  import opened SparseMerkle
  import opened StoredTree
  import opened Records
  import opened CopyOnWrite
  import opened Updates
  import opened Accounting
  import opened Building
  import opened Applying
  import opened Flushing
  import opened Runs
  import opened Reading
  import opened Chain
  import opened Batches
  import opened Pruning

  /** The contents a batch asks for on top of m. */
  ghost function Requested(m: LeafMap, ops: seq<Op>, pathOf: string -> FullPath, v: nat): LeafMap
  {
    Override(m, UpdatesOf(Deduped(ops, pathOf)), v)
  }

  /** The same contents with the chain head stored in the reserved leaf. */
  ghost function WithHead(m: LeafMap, hp: Path, head: Digest, v: nat): LeafMap
  {
    Override(m, map[hp := Some(ValueMac(hp, Head(head)))], v)
  }

  /** No key of the batch other than a system key shares the path of the chain head. */
  ghost predicate HeadPathFree(ops: seq<Op>, pathOf: string -> FullPath)
  {
    forall i :: 0 <= i < |ops| && pathOf(ops[i].key) == pathOf(HISTORY_KEY) ==> RESERVED_PREFIX <= ops[i].key
  }

  ghost predicate HasReserved(ops: seq<Op>)
  {
    exists i :: 0 <= i < |ops| && RESERVED_PREFIX <= ops[i].key
  }

  /** What an export yields: a value under its path. */
  type Leaf = Entry<Value>

  /** The values a list of leaves asks for; the last one per path wins. */
  ghost function Restoring(leaves: seq<Leaf>): (d: map<Path, Option<Value>>)
    ensures forall p :: p in d ==> |p| == NIBBLES && d[p].Some?
  {
    if leaves == [] then map[]
    else Restoring(leaves[..|leaves| - 1])[leaves[|leaves| - 1].path := Some(leaves[|leaves| - 1].item)]
  }

  /** Of several leaves with one path the last one counts. */
  lemma {:induction false} LastLeafWins(leaves: seq<Leaf>, i: nat)
    requires i < |leaves| && forall j :: i < j < |leaves| ==> leaves[j].path != leaves[i].path
    ensures Lookup(Restoring(leaves), leaves[i].path) == Some(Some(leaves[i].item))
    decreases |leaves|
  {
    var n := |leaves| - 1;
    if i < n {
      LastLeafWins(leaves[..n], i);
    }
  }

  method DedupeLeaves(leaves: seq<Leaf>) returns (deduped: map<Path, Option<Value>>)
    ensures deduped == Restoring(leaves)
  {
    deduped := map[];
    for i := 0 to |leaves|
      invariant deduped == Restoring(leaves[..i])
    {
      assert leaves[..i + 1][..i] == leaves[..i];
      deduped := deduped[leaves[i].path := Some(leaves[i].item)];
    }
    assert leaves[..|leaves|] == leaves;
  }

  /** Contents m with the leaves inserted. */
  ghost function RestoredOnto(m: LeafMap, leaves: seq<Leaf>, v: nat): LeafMap
  {
    Override(m, UpdatesOf(Restoring(leaves)), v)
  }

  /** The chain head stored in contents, or the one known before. */
  ghost function HeadIn(m: LeafMap, hp: Path, known: Digest): (head: Digest)
    ensures hp in m && m[hp].vh.ValueMac? && m[hp].vh.plaintext.Head? ==> m[hp].vh.plaintext == Head(head)
    ensures (forall h: Digest {:trigger Head(h)} :: ValueIn(m, hp) != Some(Head(h))) ==> head == known
  {
    var v := ValueIn(m, hp);
    if v.Some? && v.value.Head? then v.value.head else known
  }

  // ------------------------------------------------------------ proof steps

  lemma {:induction false} RestoredIs(m: LeafMap, leaves: seq<Leaf>, v: nat)
    ensures RestoredOnto(m, leaves, v) == Override(m, UpdatesOf(Restoring(leaves)), v)
    ensures Restoring(leaves) == map[] ==> RestoredOnto(m, leaves, v) == m
  {
    assert UpdatesOf(map[]) == map[];
    OverrideNothing(m, v);
  }

  /** The fold of a batch tells a no-op from a change by the root reference alone. */
  lemma {:induction false} FoldDecides(s: Ledger, a: Acc, inserts: map<Path, Value>, es: seq<Update>, u: UpdateMap,
                                       t': Tree)
    requires Inv(s) && GoodUpdates(es, u, [], inserts)
    requires var snap := s.versions[Version(s)];
             Folded(EMPTY_ACC, a, |s.versions|, snap.tree, snap.leaves, u, t', [])
    ensures var snap := s.versions[Version(s)];
            RefOf(t') == RefOf(snap.tree) <==> Override(snap.leaves, u, |s.versions|) == snap.leaves
  {
    hide RecAt, Canonical, Holds, Evolves, TreeHash, Override, GoodUpdates, Moves, BornBy, Committed, OnDisk, Inv;
    InvHasVersion(s);
    var snap, v := s.versions[Version(s)], |s.versions|;
    StartReady(s, inserts);
    GoodMeansSealed(snap.leaves, es, u, inserts, v, EMPTY_ACC, s.disk, snap.tree);
    ReadyAgain(EMPTY_ACC, a, s.disk, inserts, inserts, v, snap.tree, snap.leaves, es, u, t');
    if RefOf(t') == RefOf(snap.tree) {
      RefsTellApart(snap.tree, snap.leaves, t', u, [], v);
    }
  }

  lemma {:induction false} CurrentFacts(s: Ledger)
    requires Inv(s)
    ensures |s.versions| > 0 && WellFormed(s.versions[Version(s)], Version(s)) && Readable(s, Version(s))
  {
    assert Readable(s, Version(s));
  }

  /** One prepared insert is a good update list. */
  lemma {:induction false} OneGoodUpdate(p: FullPath, value: Value, inserts: map<Path, Value>)
    requires Lookup(inserts, p) == Some(value)
    ensures GoodUpdates([Entry(p, Some(ValueMac(p, value)))], map[p := Some(ValueMac(p, value))], [], inserts)
  {
    var es: seq<Update> := [Entry(p, Some(ValueMac(p, value)))];
    assert es[0].path == p;
  }

  /** Preparing one more value leaves the fold's requirements in place as long as
      its path was not itself written by this commit. */
  lemma {:induction false} ReadyWithInsert(a: Acc, disk: Disk, inserts: map<Path, Value>, v: nat, t: Tree, m: LeafMap,
                                           p: Path, value: Value)
    requires Ready(a, disk, inserts, v, t, m, []) && (p in m ==> m[p].valueVersion != v)
    ensures Ready(a, disk, inserts[p := value], v, t, m, [])
  {
    hide RecAt, Canonical, Holds, BornBy, OnDisk;
  }

  /** A batch that cannot name the head's path leaves its leaf alone. */
  lemma {:induction false} HeadLeafUntouched(s: Ledger, ops: seq<Op>, pathOf: string -> FullPath)
    requires Inv(s) && HeadPathFree(ops, pathOf) && !HasReserved(ops)
    ensures var m' := Requested(s.versions[Version(s)].leaves, ops, pathOf, |s.versions|);
            pathOf(HISTORY_KEY) in m' ==> m'[pathOf(HISTORY_KEY)].valueVersion != |s.versions|
  {
    hide RecAt, Canonical, Evolves, Deduped, Readable, Inv;
    CurrentFacts(s);
    var hp, snap, w := pathOf(HISTORY_KEY), s.versions[Version(s)], Version(s);
    OnlyNamed(ops, pathOf, hp);
    if hp in snap.leaves {
      LeafVersions(snap.tree, snap.leaves, w, hp);
    }
  }

  /** Nor does it put one where there was none. */
  lemma {:induction false} HeadLeafAbsent(m: LeafMap, ops: seq<Op>, pathOf: string -> FullPath, v: nat)
    requires HeadPathFree(ops, pathOf) && !HasReserved(ops) && pathOf(HISTORY_KEY) !in m
    ensures pathOf(HISTORY_KEY) !in Requested(m, ops, pathOf, v)
  {
    hide Deduped;
    OnlyNamed(ops, pathOf, pathOf(HISTORY_KEY));
  }

  /** Flushing a computed version is a commit step. */
  lemma {:induction false} FlushIsCommit(s: Ledger, s': Ledger, a: Acc, snap: Snapshot, root: Digest, history: bool)
    requires Inv(s) && Computed(s, a, snap) && root == TreeHash(snap.tree)
    requires s'.disk == s.disk + BatchMap(a, |s.versions|, root, history)
    requires s'.versions == s.versions + [snap] && s'.horizon == s.horizon && s'.pin == s.pin
    ensures Commit(s, s', snap) && Inv(s')
    ensures Lookup(s'.disk, CheckpointKey) == Some(CheckpointRec(root, |s.versions|, history))
  {
    hide RecAt, WellFormed, Evolves, TreeHash, Outcome, CommitDisk, NodeWrites, ValueWrites, MarkWrites, Inv;
    InvHasVersion(s);
    FlushCommits(s.disk, a, |s.versions|, s.versions[Version(s)].tree, snap.tree, root, history);
    CommitKeeps(s, s', snap);
  }

  lemma {:induction false} RequestedIs(m: LeafMap, ops: seq<Op>, pathOf: string -> FullPath, v: nat)
    ensures Requested(m, ops, pathOf, v) == Override(m, UpdatesOf(Deduped(ops, pathOf)), v)
  {
  }

  lemma {:induction false} NothingRequested(m: LeafMap, ops: seq<Op>, pathOf: string -> FullPath, v: nat)
    requires Deduped(ops, pathOf) == map[]
    ensures Requested(m, ops, pathOf, v) == m
  {
    assert UpdatesOf(map[]) == map[];
    OverrideNothing(m, v);
  }

  lemma {:induction false} CommitGrows(s: Ledger, s': Ledger, snap: Snapshot)
    requires Commit(s, s', snap)
    ensures s'.versions == s.versions + [snap] && s'.horizon == s.horizon && s'.pin == s.pin
  {
  }

  lemma {:induction false} PrunedCheckpoint(d: Disk, d': Disk, b: nat, all: bool)
    requires Pruned(d, d', b, all)
    ensures Lookup(d', CheckpointKey) == Lookup(d, CheckpointKey)
  {
  }

  lemma {:induction false} RootIsSparse(snap: Snapshot, w: nat)
    requires WellFormed(snap, w)
    ensures TreeHash(snap.tree) == SparseHash(snap.leaves, 0)
  {
    hide Canonical, TreeHash, SparseHash;
    RootHash(snap.tree, snap.leaves);
  }

  lemma {:induction false} RefHash(t: Tree)
    ensures TreeHash(t) == if RefOf(t).Some? then RefOf(t).value.hash else Placeholder
  {
  }

  /** The root of a computed version is the sparse hash of its contents. */
  lemma {:induction false} ComputedRoot(s: Ledger, a: Acc, snap: Snapshot)
    requires |s.versions| > 0 && Computed(s, a, snap)
    ensures TreeHash(snap.tree) == SparseHash(snap.leaves, 0)
  {
    hide Canonical, TreeHash, SparseHash;
    RootHash(snap.tree, snap.leaves);
  }

  /** A commit that stores the next link keeps a chained store chained. */
  lemma {:induction false} CommitLinks(versions: seq<Snapshot>, hp: Path, snap: Snapshot, m1: LeafMap, head: Digest)
    requires |versions| > 0 && Chained(versions, hp)
    requires head ==
             HistoryLink(HeadOf(RootsOf(versions), |versions| - 1), TreeHash(versions[|versions| - 1].tree), |versions|)
    requires snap.leaves == WithHead(m1, hp, head, |versions|)
    ensures Chained(versions + [snap], hp) && head == HeadOf(RootsOf(versions + [snap]), |versions|)
  {
    hide TreeHash, HeadOf, RootsOf, Chained;
    ChainExtends(versions, hp, snap, head);
  }

  class Store {
    const backend: Backend
    /** The keyed hash of a logical key. */
    const pathOf: string -> FullPath
    const history: bool
    var root: Digest
    var version: nat
    var rootChild: Option<Child>
    var snapshotPin: Option<nat>
    var historyHead: Digest
    ghost var versions: seq<Snapshot>
    ghost var horizon: nat

    ghost function State(): Ledger
      reads this, backend
    {
      Ledger(backend.disk, versions, horizon, snapshotPin)
    }

    /** The in-memory fields describe the newest version of an intact ledger, and
        so does the checkpoint record. */
    ghost predicate Valid()
      reads this, backend
    {
      Inv(State()) && version == Version(State()) &&
      root == TreeHash(versions[version].tree) && rootChild == RefOf(versions[version].tree) &&
      Lookup(backend.disk, CheckpointKey) == Some(CheckpointRec(root, version, history))
    }

    /** Chained stores know the head of their lineage. */
    ghost predicate Linked()
      reads this, backend
      requires Valid()
    {
      history ==> Chained(versions, pathOf(HISTORY_KEY)) && historyHead == HeadOf(RootsOf(versions), version)
    }

    /** Stores without the chain hold nothing in its place. */
    ghost predicate Plain()
      reads this, backend
      requires Valid()
    {
      !history ==> pathOf(HISTORY_KEY) !in versions[version].leaves
    }

    ghost predicate Same(s: Ledger, r: Digest, v: nat, c: Option<Child>, head: Digest)
      reads this, backend
    {
      State() == s && root == r && version == v && rootChild == c && historyHead == head
    }

    constructor (backend: Backend, pathOf: string -> FullPath, history: bool, root: Digest, version: nat,
                 rootChild: Option<Child>, historyHead: Digest, ghost versions: seq<Snapshot>, ghost horizon: nat)
      ensures this.backend == backend && this.pathOf == pathOf && this.history == history
      ensures State() == Ledger(backend.disk, versions, horizon, None)
      ensures this.root == root && this.version == version && this.rootChild == rootChild
      ensures this.historyHead == historyHead
    {
      this.backend, this.pathOf, this.history := backend, pathOf, history;
      this.root, this.version, this.rootChild := root, version, rootChild;
      this.historyHead, this.snapshotPin := historyHead, None;
      this.versions, this.horizon := versions, horizon;
    }

    // -------------------------------------------------------------- commits

    /** First pass: folds prepared updates into the current tree. */
    method Fold(updates: seq<Update>, inserts: map<Path, Value>, ghost u: UpdateMap)
      returns (r: Result<Option<Child>>, acc: CommitAcc, ghost t': Tree)
      requires Valid() && GoodUpdates(updates, u, [], inserts)
      ensures fresh(acc) && acc.newVersion == version + 1 && acc.insertCTs == inserts && acc.newHead == None
      ensures r.Err? ==> !backend.reliable && r.error == ErrorKind.Backend
      ensures r.Ok? ==> r.value == RefOf(t') &&
                        (r.value == rootChild <==>
                           Override(versions[version].leaves, u, version + 1) == versions[version].leaves)
      ensures r.Ok? && r.value != rootChild ==>
                var m' := Override(versions[version].leaves, u, version + 1);
                Computed(State(), acc.State(), Snapshot(t', m')) &&
                Ready(acc.State(), backend.disk, inserts, version + 1, t', m', [])
    {
      hide Inv, Ready, Folded, GoodUpdates, Computed, Override, RefOf, TreeHash;
      acc := new CommitAcc(version + 1);
      acc.insertCTs := inserts;
      var prefix := new PrefixStack();
      ghost var snap := versions[version];
      StartReady(State(), inserts);
      r, t' := ApplySubtree(backend, acc, rootChild, prefix, updates, snap.tree, snap.leaves, u);
      if r.Ok? {
        FoldDecides(State(), acc.State(), inserts, updates, u, t');
        if r.value != rootChild {
          OnePassComputed(State(), acc.State(), inserts, updates, u, t');
        }
      }
    }

    /** Second pass: folds the new chain head into the tree of the first. */
    method AppendHistoryLink(acc: CommitAcc, current: Option<Child>, ghost t1: Tree, ghost m1: LeafMap)
      returns (r: Result<Option<Child>>, ghost t2: Tree)
      requires Valid() && acc.newVersion == version + 1 && current == RefOf(t1)
      requires Computed(State(), acc.State(), Snapshot(t1, m1))
      requires Ready(acc.State(), backend.disk, acc.insertCTs, version + 1, t1, m1, [])
      requires pathOf(HISTORY_KEY) in m1 ==> m1[pathOf(HISTORY_KEY)].valueVersion != version + 1
      modifies acc
      ensures r.Err? ==> !backend.reliable && r.error == ErrorKind.Backend
      ensures var head := HistoryLink(historyHead, root, version + 1);
              r.Ok? ==>
                r.value == RefOf(t2) && acc.newHead == Some(head) &&
                Computed(State(), acc.State(), Snapshot(t2, WithHead(m1, pathOf(HISTORY_KEY), head, version + 1)))
    {
      hide Inv, Ready, Folded, GoodUpdates, Computed, Override, RefOf, TreeHash;
      var head := HistoryLink(historyHead, root, acc.newVersion);
      var path := pathOf(HISTORY_KEY);
      var vh := ValueMac(path, Head(head));
      ReadyWithInsert(acc.State(), backend.disk, acc.insertCTs, version + 1, t1, m1, path, Head(head));
      acc.insertCTs := acc.insertCTs[path := Head(head)];
      acc.newHead := Some(head);
      var prefix := new PrefixStack();
      ghost var u: UpdateMap := map[path := Some(vh)];
      ghost var a1 := acc.State();
      OneGoodUpdate(path, Head(head), acc.insertCTs);
      r, t2 := ApplySubtree(backend, acc, current, prefix, [Entry(path, Some(vh))], t1, m1, u);
      if r.Ok? {
        TwoPassesComputed(State(), a1, acc.State(), acc.insertCTs, [Entry(path, Some(vh))], u, t1, m1, t2);
      }
    }

    /** The atomic tail of every commit: one write batch, then the in-memory state. */
    method Flush(acc: CommitAcc, newRootChild: Option<Child>, newRoot: Digest,
                 ghost snap: Snapshot) returns (r: Result<(Digest, nat)>)
      requires Valid() && acc.newVersion == version + 1 && Computed(State(), acc.State(), snap)
      requires newRootChild == RefOf(snap.tree) && newRoot == TreeHash(snap.tree)
      modifies this, backend
      ensures r.Err? ==> !backend.reliable && r.error == ErrorKind.Backend &&
                         Same(old(State()), old(root), old(version), old(rootChild), old(historyHead))
      ensures r.Ok? ==>
                Valid() && Commit(old(State()), State(), snap) && r.value == (root, version) &&
                version == old(version) + 1
      ensures r.Ok? ==> historyHead == if old(acc.newHead).Some? then old(acc.newHead).value else old(historyHead)
    {
      hide Inv, Computed, Commit, RefOf, TreeHash, BatchMap, WritesOf;
      ghost var s := State();
      var ops := BuildBatch(acc, newRoot, history);
      AppliedIsUpdate(backend.disk, ops, BatchMap(acc.State(), acc.newVersion, newRoot, history));
      var ok := backend.WriteBatch(ops);
      if !ok {
        return Err(ErrorKind.Backend);
      }
      root, version, rootChild := newRoot, acc.newVersion, newRootChild;
      if acc.newHead.Some? {
        historyHead := acc.newHead.value;
      }
      versions := versions + [snap];
      FlushIsCommit(s, State(), acc.State(), snap, newRoot, history);
      return Ok((root, version));
    }

    /** The computation shared by preview and commit; acc is null for a no-op. */
    method ComputeBatch(ops: seq<Op>)
      returns (r: Result<Option<Child>>, acc: CommitAcc?, newRoot: Digest, ghost snap: Snapshot)
      requires Valid() && (history ==> HeadPathFree(ops, pathOf))
      ensures r.Err? ==>
                if HasReserved(ops) then r.error == Invalid else !backend.reliable && r.error == ErrorKind.Backend
      ensures HasReserved(ops) ==> r.Err?
      ensures r.Ok? ==>
                (acc == null <==>
                   Requested(versions[version].leaves, ops, pathOf, version + 1) == versions[version].leaves)
      ensures r.Ok? && acc != null ==>
                fresh(acc) && acc.newVersion == version + 1 &&
                r.value == RefOf(snap.tree) && newRoot == TreeHash(snap.tree) && Computed(State(), acc.State(), snap)
      ensures r.Ok? && acc != null ==>
                snap.leaves == NextLeaves(ops) && acc.newHead == if history then Some(NextHead()) else None
    {
      hide Inv, Ready, GoodUpdates, Computed, Override, RefOf, TreeHash, Deduped, UpdatesOf, InsertsIn, HeadPathFree,
           Requested, WithHead, HistoryLink;
      acc, newRoot, snap := null, root, versions[version];
      var deduped := Dedupe(ops, pathOf);
      if deduped.Err? {
        return Err(Invalid), acc, newRoot, snap;
      }
      if deduped.value == map[] {
        NothingRequested(versions[version].leaves, ops, pathOf, version + 1);
        return Ok(rootChild), acc, newRoot, snap;
      }
      var updates, inserts := PrepareUpdates(deduped.value);
      ghost var u := UpdatesOf(deduped.value);
      ghost var m1 := Override(versions[version].leaves, u, version + 1);
      RequestedIs(versions[version].leaves, ops, pathOf, version + 1);
      var folded, work, t1 := Fold(updates, inserts, u);
      if folded.Err? {
        return Err(folded.error), acc, newRoot, snap;
      }
      if folded.value == rootChild {
        return Ok(rootChild), acc, newRoot, snap;
      }
      acc := work;
      r, snap := ExtendChain(ops, work, folded.value, t1, m1);
      if r.Ok? {
        newRoot := if r.value.Some? then r.value.value.hash else Placeholder;
        RefHash(snap.tree);
      }
    }

    /** The effective batch of a chained store gets the link on top. */
    method ExtendChain(ops: seq<Op>, acc: CommitAcc, current: Option<Child>, ghost t1: Tree, ghost m1: LeafMap)
      returns (r: Result<Option<Child>>, ghost snap: Snapshot)
      requires Valid() && (history ==> HeadPathFree(ops, pathOf)) && !HasReserved(ops)
      requires acc.newVersion == version + 1 && acc.newHead == None && current == RefOf(t1)
      requires m1 == Requested(versions[version].leaves, ops, pathOf, version + 1)
      requires Computed(State(), acc.State(), Snapshot(t1, m1))
      requires Ready(acc.State(), backend.disk, acc.insertCTs, version + 1, t1, m1, [])
      modifies acc
      ensures r.Err? ==> !backend.reliable && r.error == ErrorKind.Backend
      ensures r.Ok? ==> r.value == RefOf(snap.tree) && Computed(State(), acc.State(), snap)
      ensures r.Ok? ==> snap.leaves == NextLeaves(ops) && acc.newHead == if history then Some(NextHead()) else None
    {
      hide Inv, Ready, Computed, RefOf, TreeHash, HeadPathFree, HasReserved, Requested, WithHead, HistoryLink;
      if !history {
        return Ok(current), Snapshot(t1, m1);
      }
      HeadLeafUntouched(State(), ops, pathOf);
      ghost var t2;
      r, t2 := AppendHistoryLink(acc, current, t1, m1);
      snap := Snapshot(t2, WithHead(m1, pathOf(HISTORY_KEY), NextHead(), version + 1));
    }

    /** The chain link the next commit writes. */
    ghost function NextHead(): Digest
      reads this
    {
      HistoryLink(historyHead, root, version + 1)
    }

    /** The contents an effective batch commits. */
    ghost function NextLeaves(ops: seq<Op>): LeafMap
      requires version < |versions|
      reads this
    {
      var m' := Requested(versions[version].leaves, ops, pathOf, version + 1);
      if history then WithHead(m', pathOf(HISTORY_KEY), NextHead(), version + 1) else m'
    }

    /** The root and version a batch leads to: the sparse hash of the contents it
        asks for, or the current pair when it changes nothing. */
    ghost function Promised(ops: seq<Op>): (Digest, nat)
      requires version < |versions|
      reads this
    {
      if Requested(versions[version].leaves, ops, pathOf, version + 1) == versions[version].leaves then (root, version)
      else (SparseHash(NextLeaves(ops), 0), version + 1)
    }

    /** The root and version that committing the batch would give; nothing changes. */
    method PreviewBatch(ops: seq<Op>) returns (r: Result<(Digest, nat)>)
      requires Valid() && (history ==> HeadPathFree(ops, pathOf))
      ensures HasReserved(ops) ==> r == Err(Invalid)
      ensures (exists i :: 0 <= i < |ops| && ops[i].key == HISTORY_KEY) ==> r == Err(Invalid)
      ensures !HasReserved(ops) ==> backend.Answers(r, Ok(Promised(ops)))
    {
      hide Inv, Ready, Computed, Override, RefOf, TreeHash, HeadPathFree, SparseHash, WithHead;
      HistoryKeyReserved();
      var child, acc, newRoot, snap := ComputeBatch(ops);
      if child.Err? {
        return Err(child.error);
      }
      if acc == null {
        return Ok((root, version));
      }
      ComputedRoot(State(), acc.State(), snap);
      return Ok((newRoot, version + 1));
    }

    /** Applies a batch as one commit. */
    method PutBatch(ops: seq<Op>) returns (r: Result<(Digest, nat)>)
      requires Valid() && (history ==> HeadPathFree(ops, pathOf))
      modifies this, backend
      ensures Valid() && snapshotPin == old(snapshotPin) && horizon == old(horizon)
      ensures HasReserved(ops) ==> r == Err(Invalid)
      ensures (exists i :: 0 <= i < |ops| && ops[i].key == HISTORY_KEY) ==> r == Err(Invalid)
      ensures r.Err? ==> Same(old(State()), old(root), old(version), old(rootChild), old(historyHead))
      ensures !HasReserved(ops) ==> backend.Answers(r, Ok(old(Promised(ops))))
      ensures r.Ok? ==> r.value == (root, version)
      ensures r.Ok? && version == old(version) ==>
                Same(old(State()), old(root), old(version), old(rootChild), old(historyHead))
      ensures r.Ok? && version != old(version) ==> Commit(old(State()), State(), versions[version]) &&
                                                   versions[version].leaves == old(NextLeaves(ops))
      ensures old(Linked()) ==> Linked()
      ensures old(Plain()) && HeadPathFree(ops, pathOf) ==> Plain()
    {
      hide Inv, Ready, Computed, Override, RefOf, TreeHash, HeadPathFree, SparseHash, WithHead, Chained,
           HeadOf, RootsOf, Commit, HistoryLink, Requested;
      ghost var before, hp := versions, pathOf(HISTORY_KEY);
      HistoryKeyReserved();
      var child, acc, newRoot, snap := ComputeBatch(ops);
      if child.Err? {
        return Err(child.error);
      }
      if acc == null {
        return Ok((root, version));
      }
      ComputedRoot(State(), acc.State(), snap);
      if !history && Plain() && HeadPathFree(ops, pathOf) {
        HeadLeafAbsent(versions[version].leaves, ops, pathOf, version + 1);
      }
      if history && Linked() {
        CommitLinks(versions, hp, snap, Requested(versions[version].leaves, ops, pathOf, version + 1), NextHead());
      }
      r := Flush(acc, child.value, newRoot, snap);
      if r.Ok? {
        CommitGrows(old(State()), State(), snap);
      }
    }

    // ---------------------------------------------------------------- reads

    /** The current value of a key. */
    method Get(key: string) returns (r: Result<Option<Value>>)
      requires Valid()
      ensures backend.Answers(r, Ok(ValueIn(versions[version].leaves, pathOf(key))))
    {
      hide Inv, WellFormed, Readable, Walk, RootChild, RefOf, TreeHash;
      CurrentFacts(State());
      ReadableReads(State(), version, pathOf(key));
      r := WalkTree(backend, rootChild, pathOf(key));
    }

    method RootAt(v: nat) returns (r: Result<Digest>)
      requires Valid()
      ensures v > version ==> r == Err(Invalid)
      ensures horizon <= v <= version ==> backend.Answers(r, Ok(SparseHash(versions[v].leaves, 0)))
      ensures v <= version ==> backend.Answers(r, RootRecord(backend.disk, v))
    {
      hide TreeHash, SparseHash, WellFormed, Canonical, Evolves, MarksTrue, Accounted, RefOf;
      if v > version {
        return Err(Invalid);
      }
      r := LoadRootRecord(backend, v);
      if horizon <= v {
        assert Readable(State(), v) && WellFormed(versions[v], v);
        RootIsSparse(versions[v], v);
      }
    }

    /** What version v, current or earlier, committed for a key. */
    method GetAt(v: nat, key: string) returns (r: Result<Option<Value>>)
      requires Valid()
      ensures v > version ==> r == Err(Invalid)
      ensures horizon <= v <= version ==> backend.Answers(r, Ok(ValueIn(versions[v].leaves, pathOf(key))))
      ensures v <= version ==> backend.Answers(r, Reading.GetAt(backend.disk, v, pathOf(key)))
      ensures v <= version && r.Ok? ==> r.value == ValueIn(versions[v].leaves, pathOf(key))
      ensures v <= version && r.Err? ==> Excused(backend, r.error, horizon <= v)
    {
      hide TreeHash, SparseHash, WellFormed, Canonical, Evolves, MarksTrue, Accounted, RefOf, Walk, RootChild,
           RootRecord, Readable, Remnant;
      if v > version {
        return Err(Invalid);
      }
      assert Remnant(State(), v) && WellFormed(versions[v], v);
      RemnantReads(State(), v, pathOf(key));
      if horizon <= v {
        assert Readable(State(), v) && WellFormed(versions[v], v);
        ReadableReads(State(), v, pathOf(key));
      }
      var recorded := LoadRootRecord(backend, v);
      if recorded.Err? {
        return Err(recorded.error);
      }
      var child := LoadRootChild(backend, recorded.value, v);
      if child.Err? {
        return Err(child.error);
      }
      r := WalkTree(backend, child.value, pathOf(key));
    }

    // -------------------------------------------------------------- pruning

    /** Sets or clears the cap on how far prunes may reach. */
    method PinVersion(v: Option<nat>)
      requires Valid()
      modifies this`snapshotPin
      ensures Valid() && snapshotPin == v && Pin(old(State()), State())
    {
      hide RecAt, TreeHash, RefOf, Inv;
      snapshotPin := v;
      PinKeeps(old(State()), State());
    }

    /** One prune step up to the effective horizon, complete unless an I/O error
        stops it. */
    method Prune(beforeVersion: nat) returns (r: Result<bool>)
      requires Valid()
      modifies this`horizon, backend
      ensures Valid()
      ensures version < beforeVersion && (snapshotPin.Some? ==> version < snapshotPin.value) ==>
                r == Err(Invalid) && State() == old(State())
      ensures beforeVersion <= version || (snapshotPin.Some? && snapshotPin.value <= version) ==>
                Runs.Prune(old(State()), State(), beforeVersion, r.Ok?) &&
                (r.Err? ==> !backend.reliable && r.error == ErrorKind.Backend)
      ensures r.Ok? && (snapshotPin.Some? ==> beforeVersion <= snapshotPin.value) ==>
                beforeVersion <= version && PrunedTo(old(State()), State(), beforeVersion) &&
                Gone(backend.disk, beforeVersion)
      ensures r.Ok? && snapshotPin.Some? && snapshotPin.value < beforeVersion ==>
                PrunedTo(old(State()), State(), snapshotPin.value) && Gone(backend.disk, snapshotPin.value)
    {
      hide RecAt, TreeHash, RefOf, Inv, Pruned, Gone, PrunedTo;
      var b := if snapshotPin.Some? && snapshotPin.value < beforeVersion then snapshotPin.value else beforeVersion;
      if b > version {
        return Err(Invalid);
      }
      ghost var s := State();
      InvMarksAreData(s);
      horizon := if b > horizon then b else horizon;
      r := PruneStale(backend, b);
      if r.Ok? {
        r := PruneRoots(backend, b, s.disk);
      }
      PrunedCheckpoint(s.disk, backend.disk, b, r.Ok?);
      PruneKeeps(s, State(), beforeVersion, r.Ok?);
      if r.Ok? {
        PruneReaches(s, State(), beforeVersion);
        PrunedGone(s, State(), b);
      }
    }

    /** Prunes to window versions behind the current one. */
    method RetainRecent(window: nat) returns (r: Result<bool>)
      requires Valid()
      modifies this`horizon, backend
      ensures Valid() && (r.Err? ==> !backend.reliable && r.error == ErrorKind.Backend)
      ensures horizon <= old(horizon) || horizon + window <= version
      ensures Runs.Prune(old(State()), State(), if window > version then 0 else version - window, r.Ok?)
      ensures r.Ok? && window <= version && (snapshotPin.Some? ==> version - window <= snapshotPin.value) ==>
                PrunedTo(old(State()), State(), version - window) && Gone(backend.disk, version - window)
    {
      hide RecAt, TreeHash, RefOf, Inv, Pruned, Gone, PrunedTo;
      r := Prune(if window > version then 0 else version - window);
    }

    // -------------------------------------------------------------- restore

    /** Inserts values addressed by path, as one commit without a chain link; a
        head leaf among them becomes the chain head. */
    method RestoreLeaves(leaves: seq<Leaf>) returns (r: Result<(Digest, nat)>)
      requires Valid()
      modifies this, backend
      ensures Valid() && snapshotPin == old(snapshotPin)
      ensures r.Err? ==> !backend.reliable && r.error == ErrorKind.Backend
      ensures r.Ok? ==> r.value == (root, version)
      ensures r.Ok? ==> versions[version].leaves == old(Restored(leaves))
      ensures version == old(version) ==> Same(old(State()), old(root), old(version), old(rootChild), old(historyHead))
      ensures version != old(version) ==>
                version == old(version) + 1 && Commit(old(State()), State(), versions[version]) &&
                                          versions[version].leaves == old(Restored(leaves))
      ensures r.Ok? && history && version != old(version) ==>
                historyHead == HeadIn(old(Restored(leaves)), pathOf(HISTORY_KEY), old(historyHead))
    {
      hide Inv, Ready, Computed, Override, RefOf, TreeHash, SparseHash, Commit, Restoring, GoodUpdates, UpdatesOf,
           InsertsIn, ValueIn, HeadOf, Chained, RestoredOnto, HeadIn;
      var deduped := DedupeLeaves(leaves);
      RestoredIs(versions[version].leaves, leaves, version + 1);
      if deduped == map[] {
        return Ok((root, version));
      }
      var updates, inserts := PrepareUpdates(deduped);
      ghost var u := UpdatesOf(deduped);
      var folded, acc, t' := Fold(updates, inserts, u);
      if folded.Err? {
        return Err(folded.error);
      }
      if folded.value == rootChild {
        return Ok((root, version));
      }
      r := CommitRestored(acc, folded.value, Snapshot(t', Override(versions[version].leaves, u, version + 1)));
    }

    /** Commits a restored tree and refreshes the cached head from it. */
    method CommitRestored(acc: CommitAcc, child: Option<Child>, ghost snap: Snapshot) returns (r: Result<(Digest, nat)>)
      requires Valid() && acc.newVersion == version + 1 && acc.newHead == None && child == RefOf(snap.tree)
      requires Computed(State(), acc.State(), snap)
      modifies this, backend
      ensures Valid() && snapshotPin == old(snapshotPin)
      ensures r.Err? ==> !backend.reliable && r.error == ErrorKind.Backend
      ensures r.Ok? ==> r.value == (root, version) && version == old(version) + 1
      ensures version == old(version) ==> Same(old(State()), old(root), old(version), old(rootChild), old(historyHead))
      ensures version != old(version) ==>
                version == old(version) + 1 && Commit(old(State()), State(), snap) && versions[version] == snap
      ensures r.Ok? && history ==> historyHead == HeadIn(snap.leaves, pathOf(HISTORY_KEY), old(historyHead))
    {
      hide Inv, Computed, RefOf, TreeHash, Commit, HeadIn;
      var newRoot := if child.Some? then child.value.hash else Placeholder;
      RefHash(snap.tree);
      r := Flush(acc, child, newRoot, snap);
      if r.Ok? {
        CommitGrows(old(State()), State(), snap);
        var refreshed := RefreshHead();
        if refreshed.Err? {
          return Err(refreshed.error);
        }
      }
    }

    /** A chained store takes over the head its contents hold. */
    method RefreshHead() returns (r: Result<bool>)
      requires Valid()
      modifies this`historyHead
      ensures Valid() && (r.Err? ==> !backend.reliable && r.error == ErrorKind.Backend)
      ensures r.Ok? && history ==>
                historyHead == HeadIn(versions[version].leaves, pathOf(HISTORY_KEY), old(historyHead))
      ensures r.Ok? && !history ==> historyHead == old(historyHead)
    {
      hide Inv, RefOf, TreeHash, ValueIn;
      if history {
        var got := Get(HISTORY_KEY);
        if got.Err? {
          return Err(got.error);
        }
        if got.value.Some? && got.value.value.Head? {
          historyHead := got.value.value.head;
        }
      }
      return Ok(true);
    }

    /** The contents after inserting leaves. */
    ghost function Restored(leaves: seq<Leaf>): LeafMap
      requires version < |versions|
      reads this
    {
      RestoredOnto(versions[version].leaves, leaves, version + 1)
    }
  }

  // ------------------------------------------------------------ open and create

  /** Writes the records of version zero; on an empty disk the store is valid and linked. */
  method Create(backend: Backend, pathOf: string -> FullPath, history: bool) returns (r: Result<Store>)
    modifies backend
    ensures r.Err? ==> !backend.reliable && r.error == ErrorKind.Backend && backend.disk == old(backend.disk)
    ensures r.Ok? ==>
              fresh(r.value) && r.value.backend == backend && r.value.pathOf == pathOf && r.value.history == history
    ensures r.Ok? && old(backend.disk) == map[] ==>
              Initial(r.value.State()) && r.value.Valid() && r.value.Linked() && r.value.Plain()
  {
    hide TreeHash, RefOf, Inv, HeadOf;
    var ops := [Write(RootKey(0), RootRec(Placeholder)), Write(CheckpointKey, CheckpointRec(Placeholder, 0, history))];
    var ok := backend.WriteBatch(ops);
    if !ok {
      return Err(ErrorKind.Backend);
    }
    TwoWrites(old(backend.disk), ops[0], ops[1]);
    var s := new Store(backend, pathOf, history, Placeholder, 0, None, ZeroHash, [Snapshot(Empty, map[])], 0);
    if old(backend.disk) == map[] {
      InitialInv(s.State());
      EmptyFacts();
      EmptyChained(pathOf(HISTORY_KEY));
    }
    return Ok(s);
  }

  lemma {:induction false} TwoWrites(disk: Disk, a: BatchOp, b: BatchOp)
    requires a.Write? && b.Write?
    ensures Applied(disk, [a, b]) == disk[a.key := a.record][b.key := b.record]
  {
    assert [a, b][..1] == [a] && [a][..0] == [];
    assert Applied(disk, [a]) == disk[a.key := a.record];
  }

  lemma {:induction false} EmptyFacts()
    ensures TreeHash(Empty) == Placeholder && RefOf(Empty) == None
  {
  }

  lemma {:induction false} EmptyChained(hp: Path)
    ensures var versions := [Snapshot(Empty, map[])]; Chained(versions, hp) && HeadOf(RootsOf(versions), 0) == ZeroHash
  {
    assert HoldsHead([Snapshot(Empty, map[])], hp, 0);
  }

  /** The mode and head a store reopens with, or why it refuses to. */
  ghost function Reopened(history: bool, wantHistory: bool, version: nat, headLeaf: Option<Value>): Result<Digest>
  {
    if history && version > 0 && headLeaf.None? then Err(Corrupted)
    else if history && headLeaf.Some? && !headLeaf.value.Head? then Err(Corrupted)
    else if !history && headLeaf.Some? then Err(Corrupted)
    else if wantHistory && !history then Err(Invalid)
    else Ok(if headLeaf.Some? then headLeaf.value.head else ZeroHash)
  }

  /** Settles the chain mode of a store that opens: the checkpoint's, if the contents
      agree with it and the caller's wish with both. */
  method InitHistory(backend: Backend, child: Option<Child>, hp: FullPath, history: bool, wantHistory: bool,
                     version: nat) returns (r: Result<Digest>)
    ensures backend.Answers(r, match WalkRoot(backend.disk, child, hp)
                               case Err(e) => Err(e)
                               case Ok(leaf) => Reopened(history, wantHistory, version, leaf))
  {
    hide Walk;
    var leaf := WalkTree(backend, child, hp);
    if leaf.Err? {
      return Err(leaf.error);
    }
    if history {
      if version > 0 && leaf.value.None? {
        return Err(Corrupted);
      }
      if leaf.value.Some? && !leaf.value.value.Head? {
        return Err(Corrupted);
      }
    } else if leaf.value.Some? {
      return Err(Corrupted);
    }
    if wantHistory && !history {
      return Err(Invalid);
    }
    return Ok(if leaf.value.Some? then leaf.value.value.head else ZeroHash);
  }

  /** What a reopened store starts from. */
  datatype Opened = Opened(root: Digest, version: nat, child: Option<Child>, history: bool, head: Digest)

  /** What opening finds on a disk: the checkpoint, the root node it names and the
      head leaf below it, or the first thing wrong with them. */
  ghost function Opening(disk: Disk, hp: FullPath, wantHistory: bool): Result<Opened>
  {
    match Lookup(disk, CheckpointKey)
    case None => Err(Missing)
    case Some(rec) =>
      if !rec.CheckpointRec? then Err(Corrupted)
      else match RootChild(disk, rec.ckptRoot, rec.ckptVersion)
           case Err(e) => Err(e)
           case Ok(child) =>
             match WalkRoot(disk, child, hp)
             case Err(e) => Err(e)
             case Ok(leaf) =>
               match Reopened(rec.history, wantHistory, rec.ckptVersion, leaf)
               case Err(e) => Err(e)
               case Ok(head) => Ok(Opened(rec.ckptRoot, rec.ckptVersion, child, rec.history, head))
  }

  /** The disk of an intact ledger, with a checkpoint of its newest version if any. */
  ghost predicate Intact(s: Ledger, disk: Disk, on: bool)
  {
    Inv(s) && s.disk == disk && s.pin == None &&
    (Lookup(disk, CheckpointKey).Some? ==>
      Lookup(disk, CheckpointKey).value == CheckpointRec(TreeHash(s.versions[Version(s)].tree), Version(s), on))
  }

  /** On such a disk opening finds the newest committed version and its head. */
  lemma {:induction false} OpeningIntact(s: Ledger, disk: Disk, on: bool, hp: FullPath, wantHistory: bool)
    requires Intact(s, disk, on)
    ensures var snap := s.versions[Version(s)];
            Opening(disk, hp, wantHistory) ==
            if CheckpointKey !in disk then Err(Missing)
            else match Reopened(on, wantHistory, Version(s), ValueIn(snap.leaves, hp))
                 case Err(e) => Err(e)
                 case Ok(head) => Ok(Opened(TreeHash(snap.tree), Version(s), RefOf(snap.tree), on, head))
  {
    hide Inv, TreeHash, RefOf, RootChild, Walk, Reopened, ValueIn;
    CurrentFacts(s);
    ReadableReads(s, Version(s), hp);
    RootRecorded(s, Version(s));
  }

  /** When the disk of an intact ledger opens, and with which head: a chained one with
      the head leaf that every version past the first must have, any other one only if
      it has no such leaf and the chain is not asked for. */
  ghost predicate OpensAs(o: Result<Opened>, s: Ledger, on: bool, hp: Path, wantHistory: bool)
    requires |s.versions| > 0
  {
    var leaves := s.versions[Version(s)].leaves;
    (on && Chained(s.versions, hp) ==> Resumes(o, s, on, HeadOf(RootsOf(s.versions), Version(s)))) &&
    (on && ValueIn(leaves, hp).Some? && ValueIn(leaves, hp).value.Head? ==>
      Resumes(o, s, on, ValueIn(leaves, hp).value.head)) &&
    (on && Version(s) == 0 && hp !in leaves ==> Resumes(o, s, on, ZeroHash)) &&
    (on && Version(s) > 0 && hp !in leaves ==> o == Err(Corrupted)) &&
    (on && ValueIn(leaves, hp).Some? && !ValueIn(leaves, hp).value.Head? ==> o == Err(Corrupted)) &&
    (!on && hp in leaves ==> o == Err(Corrupted)) &&
    (!on && hp !in leaves && !wantHistory ==> Resumes(o, s, on, ZeroHash)) &&
    (!on && hp !in leaves && wantHistory ==> o == Err(Invalid))
  }

  /** Opening gives the newest version with this chain head. */
  ghost predicate Resumes(o: Result<Opened>, s: Ledger, on: bool, head: Digest)
    requires |s.versions| > 0
  {
    var tree := s.versions[Version(s)].tree;
    o == Ok(Opened(TreeHash(tree), Version(s), RefOf(tree), on, head))
  }

  /** The method's answer is o, or the backend failed it. */
  ghost predicate Reports(backend: Backend, r: Result<Store>, o: Result<Opened>)
    reads if r.Ok? then {r.value} else {}
  {
    if r.Err? then o == Err(r.error) || (!backend.reliable && r.error == ErrorKind.Backend)
    else o == Ok(Opened(r.value.root, r.value.version, r.value.rootChild, r.value.history, r.value.historyHead))
  }

  lemma {:induction false} HeldHead(versions: seq<Snapshot>, hp: Path, w: nat)
    requires w < |versions| && HoldsHead(versions, hp, w)
    ensures if w == 0 then hp !in versions[w].leaves && HeadOf(RootsOf(versions), w) == ZeroHash
            else ValueIn(versions[w].leaves, hp) == Some(Head(HeadOf(RootsOf(versions), w)))
  {
    hide RootsOf, HistoryLink;
  }

  /** The head a chained history ends with is the one its contents hold. */
  lemma {:induction false} ChainedHolds(versions: seq<Snapshot>, hp: Path)
    requires |versions| > 0 && Chained(versions, hp)
    ensures var (w, leaves) := (|versions| - 1, versions[|versions| - 1].leaves);
            if w == 0 then hp !in leaves && HeadOf(RootsOf(versions), w) == ZeroHash
            else ValueIn(leaves, hp) == Some(Head(HeadOf(RootsOf(versions), w)))
  {
    hide RootsOf, HeadOf, HoldsHead, ValueIn;
    var w := |versions| - 1;
    assert versions[w] == versions[w];
    HeldHead(versions, hp, w);
  }

  lemma {:induction false} OpeningCases(s: Ledger, disk: Disk, on: bool, hp: FullPath, wantHistory: bool)
    requires Intact(s, disk, on) && CheckpointKey in disk
    ensures |s.versions| > 0 && OpensAs(Opening(disk, hp, wantHistory), s, on, hp, wantHistory)
  {
    hide Inv, TreeHash, RefOf, Opening, HeadOf, RootsOf, Chained, Canonical;
    CurrentFacts(s);
    OpeningIntact(s, disk, on, hp, wantHistory);
    if Chained(s.versions, hp) {
      ChainedHolds(s.versions, hp);
    }
  }

  lemma {:induction false} ChainedOpens(s: Ledger, disk: Disk, on: bool, hp: FullPath, wantHistory: bool)
    requires Intact(s, disk, on) && CheckpointKey in disk && Chained(s.versions, hp)
    ensures |s.versions| > 0
    ensures on ==>
              Resumes(Opening(disk, hp, wantHistory), s, on, HeadOf(RootsOf(s.versions), Version(s)))
  {
    hide Inv, TreeHash, RefOf, Opening, HeadOf, RootsOf, Chained;
    OpeningCases(s, disk, on, hp, wantHistory);
  }

  /** Opens at the checkpoint, on any storage.  On the disk of an intact ledger this
      recovers the newest committed version. */
  method OpenLatest(backend: Backend, pathOf: string -> FullPath, wantHistory: bool, ghost s: Ledger, ghost on: bool)
    returns (r: Result<Store>)
    ensures Reports(backend, r, Opening(backend.disk, pathOf(HISTORY_KEY), wantHistory))
    ensures CheckpointKey !in backend.disk ==> Reports(backend, r, Err(Missing))
    ensures r.Ok? ==> fresh(r.value) && r.value.backend == backend && r.value.pathOf == pathOf
    ensures r.Ok? && Intact(s, backend.disk, on) ==> r.value.Valid() && r.value.State() == s && r.value.history == on
    ensures r.Ok? && Intact(s, backend.disk, on) && Chained(s.versions, pathOf(HISTORY_KEY)) ==> r.value.Linked()
    ensures Intact(s, backend.disk, on) && CheckpointKey in backend.disk ==>
              exists o :: Reports(backend, r, o) && OpensAs(o, s, on, pathOf(HISTORY_KEY), wantHistory)
  {
    hide Inv, TreeHash, RefOf, RootChild, WalkRoot, HeadOf, RootsOf, Chained, OpensAs, Reopened;
    if Intact(s, backend.disk, on) {
      CurrentFacts(s);
      OpeningIntact(s, backend.disk, on, pathOf(HISTORY_KEY), wantHistory);
      if CheckpointKey in backend.disk {
        OpeningCases(s, backend.disk, on, pathOf(HISTORY_KEY), wantHistory);
        if Chained(s.versions, pathOf(HISTORY_KEY)) {
          ChainedOpens(s, backend.disk, on, pathOf(HISTORY_KEY), wantHistory);
        }
      }
    }
    var got := backend.Get(CheckpointKey);
    if got.Err? {
      return Err(got.error);
    }
    if got.value.None? {
      return Err(Missing);
    }
    var ckpt := got.value.value;
    if !ckpt.CheckpointRec? {
      return Err(Corrupted);
    }
    var child := LoadRootChild(backend, ckpt.ckptRoot, ckpt.ckptVersion);
    if child.Err? {
      return Err(child.error);
    }
    var head := InitHistory(backend, child.value, pathOf(HISTORY_KEY), ckpt.history, wantHistory, ckpt.ckptVersion);
    if head.Err? {
      return Err(head.error);
    }
    var store := new Store(backend, pathOf, ckpt.history, ckpt.ckptRoot, ckpt.ckptVersion, child.value, head.value,
                           s.versions, s.horizon);
    return Ok(store);
  }

  /** Opening the backend of a store again gives the store back: nothing an honest run
      of commits and prunes leaves behind is refused. */
  method Reopen(store: Store) returns (r: Result<Store>)
    requires store.Valid() && store.Linked() && store.Plain()
    ensures r.Err? ==> !store.backend.reliable && r.error == ErrorKind.Backend
    ensures r.Ok? ==>
              fresh(r.value) && r.value.backend == store.backend && r.value.pathOf == store.pathOf &&
              r.value.history == store.history && r.value.Valid() && r.value.Linked() && r.value.Plain()
    ensures r.Ok? ==> r.value.State() == store.State().(pin := None) && r.value.root == store.root
    ensures r.Ok? && store.history ==> r.value.historyHead == store.historyHead
  {
    hide Inv, TreeHash, RefOf, HeadOf, RootsOf, Chained, Opening, ValueIn;
    ghost var s := store.State().(pin := None);
    PinKeeps(store.State(), s);
    assert Intact(s, store.backend.disk, store.history);
    r := OpenLatest(store.backend, store.pathOf, store.history, s, store.history);
  }

  lemma {:induction false} RootRecorded(s: Ledger, w: nat)
    requires w < |s.versions| && Readable(s, w)
    ensures RootRecord(s.disk, w) == Ok(TreeHash(s.versions[w].tree))
  {
    hide Stored, TreeHash;
  }
}

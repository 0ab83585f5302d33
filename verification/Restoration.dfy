/** Whole exports of a version, and restoring one into an empty store.  */
module Restoration {
  import opened Hashing
  import opened SparseMerkle
  import opened StoredTree
  import opened Records
  import opened CopyOnWrite
  import opened Updates
  import opened Runs
  import opened Reading
  import opened Batches
  import opened Chain
  import opened LedgerStore
  import opened Snapshots

  // --------------------------------------------------------------- exporting

  lemma {:induction false} LastChunk(m: LeafMap, sa: Option<Path>, max: int, rest: seq<Leaf>)
    requires max > 0 && Lists(rest, AfterMap(m, sa))
    ensures |rest| <= max ==> Chunk(m, sa, max, rest, true)
    ensures |rest| > max ==> Chunk(m, sa, max, rest[..max], false)
  {
    hide Lists;
    EmptyBoth(rest, AfterMap(m, sa));
    assert [] + rest == rest && [] + rest[..if |rest| > max then max else 0] == rest[..if |rest| > max then max else 0];
  }

  /** Iterating the export ends: with room for one leaf per call there is a whole
      export of all contents from every resume point. */
  lemma {:induction false} ExportExists(m: LeafMap, sa: Option<Path>, max: int, rest: seq<Leaf>)
    requires max > 0 && Lists(rest, AfterMap(m, sa))
    ensures exists chunks :: Exports(chunks, m, sa, max) && |chunks| <= |rest| + 1
    decreases |rest|
  {
    hide Lists, AfterMap, Chunk;
    LastChunk(m, sa, max, rest);
    if |rest| <= max {
      assert Exports([rest], m, sa, max);
    } else {
      var first := rest[..max];
      ResumeContinues(m, sa, rest, max);
      ExportExists(m, Some(rest[max - 1].path), max, rest[max..]);
      var more :| Exports(more, m, Some(rest[max - 1].path), max) && |more| <= |rest[max..]| + 1;
      var chunks := [first] + more;
      assert chunks[1..] == more && chunks[0] == first && first[max - 1] == rest[max - 1] && more != [];
      assert Exports(chunks, m, sa, max);
    }
  }

  /** Calls the export until it is done, resuming after the last leaf of each chunk. */
  method ExportAll(s: Store, v: nat, max: int) returns (r: Result<seq<Leaf>>)
    requires s.Valid() && s.horizon <= v <= s.version && max > 0
    ensures r.Err? ==> !s.backend.reliable && r.error == ErrorKind.Backend
    ensures r.Ok? ==> Lists(r.value, AfterMap(s.versions[v].leaves, None))
  {
    hide Inv, TreeHash, RefOf, Lists, AfterMap, Chunk, RootRecord;
    ghost var m := s.versions[v].leaves;
    ghost var full := Listing(s.State(), v);
    ghost var rest := full;
    var all: seq<Leaf> := [];
    var startAfter: Option<FullPath> := None;
    while true
      invariant full == all + rest && Lists(full, AfterMap(m, None)) && Lists(rest, AfterMap(m, startAfter))
      decreases |rest|
    {
      var chunk := SnapshotLeaves(s, v, startAfter, max);
      if chunk.Err? {
        return Err(chunk.error);
      }
      var (leaves, done) := chunk.value;
      DoneIffNoneLeft(m, startAfter, max, leaves, done, rest);
      all := all + leaves;
      if done {
        return Ok(all);
      }
      ResumeContinues(m, startAfter, rest, |leaves|);
      startAfter := Some(leaves[|leaves| - 1].path);
      rest := rest[|leaves|..];
    }
  }

  lemma {:induction false} Listing(s: Ledger, v: nat) returns (full: seq<Leaf>)
    requires Inv(s) && s.horizon <= v < |s.versions|
    ensures Lists(full, AfterMap(s.versions[v].leaves, None))
  {
    hide Canonical, TreeHash, RecAt, RefOf, Evolves, MarksTrue, Accounted, Stored, Lists, Remaining, BornBy;
    assert WellFormed(s.versions[v], v);
    full := Remaining(s.versions[v].tree, None, 0);
    RemainingLists(s.versions[v].tree, [], s.versions[v].leaves, None);
  }

  // --------------------------------------------------------------- restoring

  /** A full listing restores the contents it lists. */
  lemma {:induction false} RestoringListed(leaves: seq<Leaf>, all: map<Path, Value>)
    requires Lists(leaves, all)
    ensures Restoring(leaves) == map p | p in all :: Some(all[p])
    decreases |leaves|
  {
    hide Lists;
    if leaves == [] {
      EmptyBoth(leaves, all);
    } else {
      var n := |leaves| - 1;
      LastListed(leaves, all);
      InitLists(leaves, all);
      RestoringListed(leaves[..n], all - {leaves[n].path});
    }
  }

  lemma {:induction false} LastListed(leaves: seq<Leaf>, all: map<Path, Value>)
    requires Lists(leaves, all) && leaves != []
    ensures Lookup(all, leaves[|leaves| - 1].path) == Some(leaves[|leaves| - 1].item)
  {
  }

  lemma {:induction false} InitLists<T(!new)>(a: seq<Entry<T>>, m: map<Path, T>)
    requires Lists(a, m) && a != []
    ensures Lists(a[..|a| - 1], m - {a[|a| - 1].path})
  {
    hide PathLess;
    var n := |a| - 1;
    var init := a[..n];
    forall i | 0 <= i < n ensures init[i].path in m && init[i].path != a[n].path {
      PathOrder(a[i].path, a[n].path);
    }
    forall p | p in m && p != a[n].path ensures exists i :: 0 <= i < |init| && init[i].path == p {
      var i :| 0 <= i < |a| && a[i].path == p;
      assert init[i].path == p;
    }
  }

  /** Restoring a full listing of a version onto nothing reproduces the version's root. */
  lemma {:induction false} RestoredRoot(snap: Snapshot, w: nat, leaves: seq<Leaf>, v: nat)
    requires WellFormed(snap, w) && Lists(leaves, AfterMap(snap.leaves, None))
    ensures var m' := RestoredOnto(map[], leaves, v);
            Commitments(m') == Commitments(snap.leaves) && SparseHash(m', 0) == TreeHash(snap.tree)
  {
    hide Canonical, TreeHash, SparseHash, Lists, Restoring, BornBy, AfterMap;
    var m := snap.leaves;
    RestoringListed(leaves, AfterMap(m, None));
    RestoredIs(map[], leaves, v);
    var m' := Override(map[], UpdatesOf(Restoring(leaves)), v);
    CommitmentsRestored(m, Restoring(leaves), v);
    RootHash(snap.tree, m);
    SparseHashOfCommitments(m', m, 0);
  }

  /** Exporting a version in chunks and restoring the chunks onto nothing reproduces
      the version's root. */
  lemma {:induction false} RestoreReproducesRoot(snap: Snapshot, w: nat, chunks: seq<seq<Leaf>>, max: int, v: nat)
    requires WellFormed(snap, w) && Exports(chunks, snap.leaves, None, max) && max > 0
    ensures var m' := RestoredOnto(map[], Flatten(chunks), v);
            Commitments(m') == Commitments(snap.leaves) && SparseHash(m', 0) == TreeHash(snap.tree)
  {
    hide Canonical, TreeHash, SparseHash, Lists, Exports, BornBy, Remaining, RestoredOnto;
    RemainingLists(snap.tree, [], snap.leaves, None);
    ExportListsAll(chunks, snap.leaves, None, max, Remaining(snap.tree, None, 0));
    RestoredRoot(snap, w, Flatten(chunks), v);
  }

  lemma {:induction false} CommitmentsRestored(m: LeafMap, d: map<Path, Option<Value>>, v: nat)
    requires Committed(m) && d == map p | p in AfterMap(m, None) :: Some(AfterMap(m, None)[p])
    ensures Commitments(Override(map[], UpdatesOf(d), v)) == Commitments(m)
  {
    forall p | p in m ensures p in d && d[p] == Some(m[p].vh.plaintext) && m[p].vh == ValueMac(p, m[p].vh.plaintext) {
    }
  }

  /** Exports a retained version of one store and restores it into another that holds
      nothing: on success the roots agree, and so do all commitments. */
  method CopyVersion(source: Store, v: nat, max: int, target: Store) returns (r: Result<Digest>)
    requires source.Valid() && source.horizon <= v <= source.version && max > 0
    requires target.Valid() && target.versions[target.version].leaves == map[] && target != source
    requires target.backend != source.backend
    modifies target, target.backend
    ensures target.Valid()
    ensures r.Err? ==> r.error == ErrorKind.Backend && !(source.backend.reliable && target.backend.reliable)
    ensures r.Ok? ==> r.value == target.root == TreeHash(source.versions[v].tree)
    ensures r.Ok? ==> Commitments(target.versions[target.version].leaves) == Commitments(source.versions[v].leaves)
    ensures r.Ok? && v > 0 && source.history && source.Linked() && target.history &&
            source.pathOf(HISTORY_KEY) == target.pathOf(HISTORY_KEY) ==>
              target.historyHead == HeadOf(RootsOf(source.versions), v)
  {
    hide Inv, TreeHash, RefOf, Lists, AfterMap, Commitments, RestoredOnto, SparseHash, Commit, HeadOf, RootsOf, HeadIn;
    var exported := ExportAll(source, v, max);
    if exported.Err? {
      return Err(exported.error);
    }
    ghost var at := target.version + 1;
    var restored := target.RestoreLeaves(exported.value);
    if restored.Err? {
      return Err(restored.error);
    }
    SameRoots(source.State(), v, target.State(), exported.value, at);
    if v > 0 && source.history && source.Linked() {
      HeadCopied(source.versions, v, target.versions[target.version].leaves, source.pathOf(HISTORY_KEY));
    }
    return Ok(restored.value.0);
  }

  /** Contents with the commitments of a chained version hold its head. */
  lemma {:induction false} HeadCopied(versions: seq<Snapshot>, v: nat, m: LeafMap, hp: Path)
    requires 0 < v < |versions| && Chained(versions, hp) && Commitments(m) == Commitments(versions[v].leaves)
    ensures hp in m && m[hp].vh == ValueMac(hp, Head(HeadOf(RootsOf(versions), v)))
  {
    hide RootsOf, HeadOf;
    assert HoldsHead(versions, hp, v);
    assert hp in Commitments(m) && Commitments(m)[hp] == Commitments(versions[v].leaves)[hp];
  }

  lemma {:induction false} SameRoots(s: Ledger, v: nat, t: Ledger, leaves: seq<Leaf>, at: nat)
    requires Inv(s) && s.horizon <= v < |s.versions| && Inv(t) && |t.versions| > 0
    requires Lists(leaves, AfterMap(s.versions[v].leaves, None))
    requires t.versions[Version(t)].leaves == RestoredOnto(map[], leaves, at)
    ensures TreeHash(t.versions[Version(t)].tree) == TreeHash(s.versions[v].tree)
    ensures Commitments(t.versions[Version(t)].leaves) == Commitments(s.versions[v].leaves)
  {
    hide Canonical, TreeHash, RecAt, RefOf, Evolves, MarksTrue, Accounted, Stored, Lists, BornBy, AfterMap, SparseHash,
         RestoredOnto, Commitments;
    assert WellFormed(s.versions[v], v) && WellFormed(t.versions[Version(t)], Version(t));
    RestoredRoot(s.versions[v], v, leaves, at);
    RootHash(t.versions[Version(t)].tree, t.versions[Version(t)].leaves);
  }
}

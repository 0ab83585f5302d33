/** The ledger as a state machine over whole runs: commits, pins and prunes, and
    what every reachable state keeps.  */
module Runs {
  import opened Hashing
  import opened SparseMerkle
  import opened StoredTree
  import opened Records
  import opened CopyOnWrite
  import opened Accounting

  /** One committed version: its tree and its contents. */
  datatype Snapshot = Snapshot(tree: Tree, leaves: LeafMap)

  /** The store's persistent state with the history of what it committed.
      horizon is the highest version pruned to so far. */
  datatype Ledger = Ledger(disk: Disk, versions: seq<Snapshot>, horizon: nat, pin: Option<nat>)

  ghost function Version(s: Ledger): int
  {
    |s.versions| - 1
  }

  ghost predicate WellFormed(snap: Snapshot, w: nat)
  {
    Canonical(snap.tree, [], snap.leaves) && Committed(snap.leaves) && BornBy(snap.tree, [], w) &&
    (snap.tree.Empty? || snap.tree.ver == w)
  }

  /** Version w's tree adds only records born at w to those of its predecessor. */
  ghost predicate Evolves(prev: Tree, next: Tree, w: nat)
  {
    forall k {:trigger RecAt(next, [], k)} ::
      RecAt(next, [], k).Some? && Born(k) != w ==> RecAt(prev, [], k) == RecAt(next, [], k)
  }

  // ------------------------------------------------------------------- steps

  ghost predicate Initial(s: Ledger)
  {
    s.versions == [Snapshot(Empty, map[])] && s.horizon == 0 && s.pin == None &&
    (forall k {:trigger k in s.disk} :: k in s.disk ==> k == RootKey(0) || k == CheckpointKey) &&
    Lookup(s.disk, RootKey(0)) == Some(RootRec(Placeholder))
  }

  /** A commit writes the new tree's fresh records, one mark per record it
      retires, and the new root; nothing else on disk changes. */
  ghost predicate CommitDisk(disk: Disk, disk': Disk, prev: Tree, next: Tree, w: nat)
  {
    (forall k {:trigger Lookup(disk', k)} :: IsData(k) ==>
      Lookup(disk', k) == if Born(k) == w && RecAt(next, [], k).Some? then RecAt(next, [], k) else Lookup(disk, k)) &&
    (forall x: nat, r {:trigger StaleKey(x, r) in disk'} ::
      StaleKey(x, r) in disk' <==> StaleKey(x, r) in disk || (x == w && Retired(prev, next, [], w, r))) &&
    (forall x: nat {:trigger Lookup(disk', RootKey(x))} ::
      Lookup(disk', RootKey(x)) == if x == w then Some(RootRec(TreeHash(next))) else Lookup(disk, RootKey(x)))
  }

  ghost predicate Commit(s: Ledger, s': Ledger, snap: Snapshot)
  {
    var w := |s.versions|;
    w > 0 && WellFormed(snap, w) && Evolves(s.versions[w - 1].tree, snap.tree, w) &&
    CommitDisk(s.disk, s'.disk, s.versions[w - 1].tree, snap.tree, w) &&
    s'.versions == s.versions + [snap] && s'.horizon == s.horizon && s'.pin == s.pin
  }

  /** Some marks up to b are gone with their targets, and some roots below b;
      with all, every such mark and root is. */
  ghost predicate Pruned(disk: Disk, disk': Disk, b: nat, all: bool)
  {
    (forall x: nat, r {:trigger StaleKey(x, r) in disk'} :: StaleKey(x, r) in disk' ==> StaleKey(x, r) in disk) &&
    (forall x: nat, r {:trigger StaleKey(x, r) in disk} ::
      StaleKey(x, r) in disk && StaleKey(x, r) !in disk' ==> x <= b && r !in disk') &&
    (forall k {:trigger Lookup(disk', k)} :: IsData(k) ==>
      Lookup(disk', k) == Lookup(disk, k) ||
      (Lookup(disk', k) == None && exists x: nat :: x <= b && StaleKey(x, k) in disk)) &&
    (forall x: nat {:trigger Lookup(disk', RootKey(x))} ::
      Lookup(disk', RootKey(x)) == Lookup(disk, RootKey(x)) || (Lookup(disk', RootKey(x)) == None && x < b)) &&
    Lookup(disk', CheckpointKey) == Lookup(disk, CheckpointKey) &&
    (all ==> (forall x: nat, r {:trigger StaleKey(x, r) in disk'} :: StaleKey(x, r) in disk' ==> x > b) &&
             (forall x: nat {:trigger Lookup(disk', RootKey(x))} :: x < b ==> Lookup(disk', RootKey(x)) == None))
  }

  /** The horizon a prune request reaches: the greatest that neither the request nor
      the pin forbids. */
  function Effective(pin: Option<nat>, b: nat): (h: nat)
    ensures h <= b && (pin.Some? ==> h <= pin.value) && (h == b || pin == Some(h))
  {
    if pin.Some? && pin.value < b then pin.value else b
  }

  /** A prune, complete or stopped after any chunk. */
  ghost predicate Prune(s: Ledger, s': Ledger, b: nat, all: bool)
  {
    var h := Effective(s.pin, b);
    h <= Version(s) && Pruned(s.disk, s'.disk, h, all) &&
    s'.versions == s.versions && s'.pin == s.pin &&
    s'.horizon == if h > s.horizon then h else s.horizon
  }

  /** What a complete prune to h leaves: no root below h, no mark up to h, and a horizon
      that has not fallen back. */
  ghost predicate PrunedTo(s: Ledger, s': Ledger, h: nat)
  {
    s'.versions == s.versions && s'.pin == s.pin &&
    h <= s'.horizon && s.horizon <= s'.horizon && (s'.horizon == h || s'.horizon == s.horizon) &&
    (forall x: nat, r {:trigger StaleKey(x, r) in s'.disk} :: StaleKey(x, r) in s'.disk ==> h < x) &&
    (forall w: nat {:trigger Lookup(s'.disk, RootKey(w))} :: w < h ==> Lookup(s'.disk, RootKey(w)) == None)
  }

  /** A complete prune reaches the version asked for, or the pin if that comes first. */
  lemma {:induction false} PruneReaches(s: Ledger, s': Ledger, b: nat)
    requires Prune(s, s', b, true)
    ensures (s.pin.Some? ==> b <= s.pin.value) ==> b <= Version(s) && PrunedTo(s, s', b)
    ensures s.pin.Some? && s.pin.value < b ==> s.pin.value <= Version(s) && PrunedTo(s, s', s.pin.value)
  {
  }

  ghost predicate Pin(s: Ledger, s': Ledger)
  {
    s'.disk == s.disk && s'.versions == s.versions && s'.horizon == s.horizon
  }

  ghost predicate Next(s: Ledger, s': Ledger)
  {
    || s' == s
    || (|s'.versions| == |s.versions| + 1 && Commit(s, s', s'.versions[|s.versions|]))
    || (exists b: nat, all: bool :: Prune(s, s', b, all))
    || Pin(s, s')
  }

  // --------------------------------------------------------------- invariant

  ghost predicate History(versions: seq<Snapshot>)
  {
    |versions| > 0 &&
    (forall w {:trigger versions[w]} :: 0 <= w < |versions| ==> WellFormed(versions[w], w)) &&
    (forall w {:trigger versions[w]} :: 0 < w < |versions| ==> Evolves(versions[w - 1].tree, versions[w].tree, w))
  }

  /** The version w can be read: all its records and its root are on disk. */
  ghost predicate Readable(s: Ledger, w: nat)
    requires w < |s.versions|
  {
    Stored(s.disk, s.versions[w].tree, []) &&
    Lookup(s.disk, RootKey(w)) == Some(RootRec(TreeHash(s.versions[w].tree)))
  }

  /** A mark names the version at which its target stopped being reachable. */
  ghost predicate MarkIsTrue(s: Ledger, x: nat, r: RecordKey)
  {
    DiesAt(s.versions, x, r)
  }

  ghost predicate MarksTrue(s: Ledger)
  {
    forall x: nat, r {:trigger StaleKey(x, r) in s.disk} :: StaleKey(x, r) in s.disk ==> MarkIsTrue(s, x, r)
  }

  ghost predicate Marked(disk: Disk, k: RecordKey)
  {
    exists x: nat :: StaleKey(x, k) in disk
  }

  /** Every node or value record on disk is live, or marked for the pruner. */
  ghost predicate Accounted(s: Ledger)
    requires |s.versions| > 0
  {
    forall k {:trigger Lookup(s.disk, k)} :: IsData(k) && k in s.disk ==>
      Lookup(s.disk, k) == RecAt(s.versions[Version(s)].tree, [], k) || Marked(s.disk, k)
  }

  /** What is left of version w, pruned or not, is as it was committed. */
  ghost predicate Remnant(s: Ledger, w: nat)
    requires w < |s.versions|
  {
    Remains(s.disk, s.versions[w].tree, []) &&
    (Lookup(s.disk, RootKey(w)) == Some(RootRec(TreeHash(s.versions[w].tree))) || Lookup(s.disk, RootKey(w)).None?)
  }

  /** Nothing on disk contradicts the history. */
  ghost predicate Unaltered(s: Ledger)
  {
    (forall w {:trigger Remnant(s, w)} :: 0 <= w < |s.versions| ==> Remnant(s, w)) &&
    (forall w {:trigger Lookup(s.disk, RootKey(w))} :: w >= |s.versions| ==> Lookup(s.disk, RootKey(w)).None?)
  }

  ghost predicate Inv(s: Ledger)
  {
    History(s.versions) && s.horizon <= Version(s) &&
    (forall w {:trigger Readable(s, w)} :: s.horizon <= w < |s.versions| ==> Readable(s, w)) &&
    MarksTrue(s) && Accounted(s) && Unaltered(s)
  }

  // ------------------------------------------------------- dead stays dead

  /** A record absent at x and born before it is absent ever after. */
  lemma {:induction false} DeadStaysDead(versions: seq<Snapshot>, x: nat, w: nat, k: RecordKey)
    requires History(versions) && x <= w < |versions|
    requires Born(k) < x && RecAt(versions[x].tree, [], k).None?
    ensures RecAt(versions[w].tree, [], k).None?
    decreases w - x
  {
    hide RecAt, WellFormed;
    if x < w {
      DeadStaysDead(versions, x, w - 1, k);
      assert Evolves(versions[w - 1].tree, versions[w].tree, w);
    }
  }

  /** The commit of version x takes the record out of reach. */
  ghost predicate DiesAt(versions: seq<Snapshot>, x: nat, r: RecordKey)
  {
    0 < x < |versions| && Retired(versions[x - 1].tree, versions[x].tree, [], x, r)
  }

  /** A record dies at most once. */
  lemma {:induction false} DiesOnce(versions: seq<Snapshot>, x: nat, y: nat, r: RecordKey)
    requires History(versions) && DiesAt(versions, x, r) && DiesAt(versions, y, r)
    ensures x == y
  {
    hide RecAt, WellFormed, Evolves;
    if x < y {
      DeadStaysDead(versions, x, y - 1, r);
    } else if y < x {
      DeadStaysDead(versions, y, x - 1, r);
    }
  }

  /** A live record carries no mark. */
  lemma {:induction false} LiveIsUnmarked(s: Ledger, x: nat, r: RecordKey, w: nat)
    requires Inv(s) && StaleKey(x, r) in s.disk && x <= w < |s.versions|
    ensures RecAt(s.versions[w].tree, [], r).None?
  {
    hide RecAt, Accounted, Readable, WellFormed, Evolves;
    assert MarkIsTrue(s, x, r);
    DeadStaysDead(s.versions, x, w, r);
  }

  // ------------------------------------------------------------ preservation

  lemma {:induction false} InitialInv(s: Ledger)
    requires Initial(s)
    ensures Inv(s)
  {
    hide RecAt;
    forall k ensures RecAt(Empty, [], k) == None {
      EmptyRecAt([], k);
    }
    assert WellFormed(s.versions[0], 0);
    assert Readable(s, 0);
    assert Remnant(s, 0);
  }

  lemma {:induction false} CommitHistory(s: Ledger, s': Ledger, snap: Snapshot)
    requires Inv(s) && Commit(s, s', snap)
    ensures History(s'.versions) && s'.horizon <= Version(s')
  {
    hide RecAt, Accounted, Readable, WellFormed, Evolves, CommitDisk, MarksTrue;
    forall w | 0 <= w < |s'.versions|
      ensures WellFormed(s'.versions[w], w) && (0 < w ==> Evolves(s'.versions[w - 1].tree, s'.versions[w].tree, w))
    {
      if w < |s.versions| {
        assert s'.versions[w] == s.versions[w];
      }
    }
  }

  /** Records born before the commit stay where they are. */
  lemma {:induction false} CommitKeepsRecord(s: Ledger, s': Ledger, snap: Snapshot, k: RecordKey)
    requires Commit(s, s', snap) && IsData(k) && Born(k) < |s.versions|
    ensures Lookup(s'.disk, k) == Lookup(s.disk, k)
  {
    hide RecAt, WellFormed, Evolves;
  }

  lemma {:induction false} RecordsAreData(snap: Snapshot, w: nat, k: RecordKey)
    requires WellFormed(snap, w) && RecAt(snap.tree, [], k).Some?
    ensures IsData(k) && Born(k) <= w
  {
    hide Canonical;
    RecAtWithin(snap.tree, [], snap.leaves, k);
  }

  lemma {:induction false} CommitReadableOld(s: Ledger, s': Ledger, snap: Snapshot, w: nat)
    requires Inv(s) && Commit(s, s', snap) && s.horizon <= w < |s.versions|
    ensures Readable(s', w)
  {
    hide RecAt, WellFormed, Evolves, Accounted, TreeHash, MarksTrue, CommitDisk;
    assert Readable(s, w) && s'.versions[w] == s.versions[w];
    assert WellFormed(s.versions[w], w);
    forall k | RecAt(s.versions[w].tree, [], k).Some?
      ensures Lookup(s'.disk, k) == RecAt(s.versions[w].tree, [], k)
    {
      RecordsAreData(s.versions[w], w, k);
      CommitKeepsRecord(s, s', snap, k);
    }
    CommitRoot(s, s', snap, w);
  }

  lemma {:induction false} CommitRoot(s: Ledger, s': Ledger, snap: Snapshot, w: nat)
    requires Commit(s, s', snap)
    ensures Lookup(s'.disk, RootKey(w))
         == if w == |s.versions| then Some(RootRec(TreeHash(snap.tree))) else Lookup(s.disk, RootKey(w))
  {
    hide RecAt, WellFormed, Evolves, TreeHash;
  }

  lemma {:induction false} CommitReadableNew(s: Ledger, s': Ledger, snap: Snapshot)
    requires Inv(s) && Commit(s, s', snap)
    ensures Readable(s', |s.versions|)
  {
    hide RecAt, WellFormed, Accounted, TreeHash, MarksTrue, CommitDisk;
    var w := |s.versions|;
    assert Readable(s, w - 1);
    forall k | RecAt(snap.tree, [], k).Some? ensures Lookup(s'.disk, k) == RecAt(snap.tree, [], k) {
      RecordsAreData(snap, w, k);
      if Born(k) == w {
        CommitWrites(s, s', snap, k);
      } else {
        CommitKeepsRecord(s, s', snap, k);
        assert RecAt(s.versions[w - 1].tree, [], k) == RecAt(snap.tree, [], k);
      }
    }
    CommitRoot(s, s', snap, w);
  }

  lemma {:induction false} CommitWrites(s: Ledger, s': Ledger, snap: Snapshot, k: RecordKey)
    requires Commit(s, s', snap) && IsData(k) && Born(k) == |s.versions| && RecAt(snap.tree, [], k).Some?
    ensures Lookup(s'.disk, k) == RecAt(snap.tree, [], k)
  {
    hide RecAt, WellFormed, Evolves, TreeHash;
  }

  lemma {:induction false} CommitMarks(s: Ledger, s': Ledger, snap: Snapshot)
    requires Inv(s) && Commit(s, s', snap)
    ensures MarksTrue(s')
  {
    hide RecAt, WellFormed, Accounted, TreeHash, Evolves, Readable;
    forall x: nat, r | StaleKey(x, r) in s'.disk ensures MarkIsTrue(s', x, r) {
      if StaleKey(x, r) in s.disk {
        assert MarkIsTrue(s, x, r);
        assert s'.versions[x] == s.versions[x] && s'.versions[x - 1] == s.versions[x - 1];
      }
    }
  }

  lemma {:induction false} CommitAccounted(s: Ledger, s': Ledger, snap: Snapshot)
    requires Inv(s) && Commit(s, s', snap)
    ensures Accounted(s')
  {
    hide RecAt, WellFormed, TreeHash, Evolves, MarksTrue, CommitDisk, Readable;
    forall k | IsData(k) && k in s'.disk
      ensures Lookup(s'.disk, k) == RecAt(snap.tree, [], k) || Marked(s'.disk, k)
    {
      CommitAccountsFor(s, s', snap, k);
    }
  }

  lemma {:induction false} CommitAccountsFor(s: Ledger, s': Ledger, snap: Snapshot, k: RecordKey)
    requires Inv(s) && Commit(s, s', snap) && IsData(k) && k in s'.disk
    ensures Lookup(s'.disk, k) == RecAt(snap.tree, [], k) || Marked(s'.disk, k)
  {
    hide RecAt, TreeHash, Readable, Canonical, Committed, MarksTrue;
    var w := |s.versions|;
    var cur := s.versions[w - 1].tree;
    if !(Born(k) == w && RecAt(snap.tree, [], k).Some?) {
      assert Lookup(s'.disk, k) == Lookup(s.disk, k);
      if x: nat :| StaleKey(x, k) in s.disk {
        assert StaleKey(x, k) in s'.disk;
      } else {
        assert Lookup(s.disk, k) == RecAt(cur, [], k);
        assert WellFormed(s.versions[w - 1], w - 1);
        assert RecAt(cur, [], k).Some? && Born(k) <= w - 1;
        if RecAt(snap.tree, [], k).None? {
          assert Retired(cur, snap.tree, [], w, k);
          assert StaleKey(w, k) in s'.disk;
        }
      }
    }
  }

  lemma {:induction false} CommitRemnant(s: Ledger, s': Ledger, snap: Snapshot, w: nat)
    requires Inv(s) && Commit(s, s', snap) && w < |s.versions|
    ensures Remnant(s', w)
  {
    hide RecAt, WellFormed, Evolves, Accounted, TreeHash, MarksTrue, CommitDisk, Readable;
    assert Remnant(s, w) && s'.versions[w] == s.versions[w];
    assert WellFormed(s.versions[w], w);
    forall k | RecAt(s.versions[w].tree, [], k).Some?
      ensures Lookup(s'.disk, k) == RecAt(s.versions[w].tree, [], k) || Lookup(s'.disk, k).None?
    {
      RecordsAreData(s.versions[w], w, k);
      CommitKeepsRecord(s, s', snap, k);
    }
    CommitRoot(s, s', snap, w);
  }

  lemma {:induction false} ReadableRemains(s: Ledger, w: nat)
    requires w < |s.versions| && Readable(s, w)
    ensures Remnant(s, w)
  {
    hide RecAt, TreeHash;
  }

  lemma {:induction false} CommitUnaltered(s: Ledger, s': Ledger, snap: Snapshot)
    requires Inv(s) && Commit(s, s', snap)
    ensures Unaltered(s')
  {
    hide Readable, MarksTrue, Accounted, History, CommitDisk, WellFormed, Evolves, Remnant, TreeHash;
    forall w | 0 <= w < |s'.versions| ensures Remnant(s', w) {
      if w < |s.versions| {
        CommitRemnant(s, s', snap, w);
      } else {
        CommitReadableNew(s, s', snap);
        ReadableRemains(s', w);
      }
    }
    forall w | w >= |s'.versions| ensures Lookup(s'.disk, RootKey(w)).None? {
      CommitRoot(s, s', snap, w);
    }
  }

  lemma {:induction false} CommitKeeps(s: Ledger, s': Ledger, snap: Snapshot)
    requires Inv(s) && Commit(s, s', snap)
    ensures Inv(s')
  {
    hide Readable, MarksTrue, Accounted, History, CommitDisk, WellFormed, Evolves, Unaltered;
    CommitHistory(s, s', snap);
    CommitUnaltered(s, s', snap);
    CommitMarks(s, s', snap);
    CommitAccounted(s, s', snap);
    forall w | s'.horizon <= w < |s'.versions| ensures Readable(s', w) {
      if w < |s.versions| {
        CommitReadableOld(s, s', snap, w);
      } else {
        CommitReadableNew(s, s', snap);
      }
    }
  }

  // ----------------------------------------------------------------- pruning

  /** The pruner deletes blindly, yet never a record some retained version needs. */
  lemma {:induction false} PruneReadable(s: Ledger, s': Ledger, b: nat, all: bool, w: nat)
    requires Inv(s) && Prune(s, s', b, all) && s'.horizon <= w < |s.versions|
    ensures Readable(s', w)
  {
    hide RecAt, Accounted, TreeHash, MarksTrue, WellFormed, Evolves;
    assert Readable(s, w);
    assert WellFormed(s.versions[w], w);
    forall k | RecAt(s.versions[w].tree, [], k).Some?
      ensures Lookup(s'.disk, k) == RecAt(s.versions[w].tree, [], k)
    {
      RecordsAreData(s.versions[w], w, k);
      if Lookup(s'.disk, k) != Lookup(s.disk, k) {
        var x: nat :| x <= Effective(s.pin, b) && StaleKey(x, k) in s.disk;
        LiveIsUnmarked(s, x, k, w);
      }
    }
    assert Lookup(s'.disk, RootKey(w)) == Lookup(s.disk, RootKey(w));
  }

  lemma {:induction false} PruneAccounted(s: Ledger, s': Ledger, b: nat, all: bool)
    requires Inv(s) && Prune(s, s', b, all)
    ensures MarksTrue(s') && Accounted(s')
  {
    hide RecAt, TreeHash, WellFormed, Evolves, Readable, History;
    forall x: nat, r | StaleKey(x, r) in s'.disk ensures MarkIsTrue(s', x, r) {
      assert MarkIsTrue(s, x, r);
    }
    forall k | IsData(k) && k in s'.disk
      ensures Lookup(s'.disk, k) == RecAt(s'.versions[Version(s')].tree, [], k) || Marked(s'.disk, k)
    {
      assert Lookup(s'.disk, k) == Lookup(s.disk, k);
      if x: nat :| StaleKey(x, k) in s.disk {
        assert StaleKey(x, k) in s'.disk;
      }
    }
  }

  lemma {:induction false} PruneUnaltered(s: Ledger, s': Ledger, b: nat, all: bool)
    requires Inv(s) && Prune(s, s', b, all)
    ensures Unaltered(s')
  {
    hide RecAt, Accounted, TreeHash, MarksTrue, WellFormed, Evolves, Readable;
    forall w | 0 <= w < |s'.versions| ensures Remnant(s', w) {
      assert Remnant(s, w) && WellFormed(s.versions[w], w);
      forall k | RecAt(s.versions[w].tree, [], k).Some?
        ensures Lookup(s'.disk, k) == RecAt(s.versions[w].tree, [], k) || Lookup(s'.disk, k).None?
      {
        RecordsAreData(s.versions[w], w, k);
      }
    }
  }

  lemma {:induction false} PruneKeeps(s: Ledger, s': Ledger, b: nat, all: bool)
    requires Inv(s) && Prune(s, s', b, all)
    ensures Inv(s')
  {
    hide Readable, MarksTrue, Accounted, History, Pruned, Unaltered;
    PruneAccounted(s, s', b, all);
    PruneUnaltered(s, s', b, all);
    forall w | s'.horizon <= w < |s'.versions| ensures Readable(s', w) {
      PruneReadable(s, s', b, all, w);
    }
  }

  /** A complete prune to the current version leaves exactly the live records. */
  lemma {:induction false} PruneLeavesLiveTree(s: Ledger, s': Ledger, b: nat, k: RecordKey)
    requires Inv(s) && Prune(s, s', b, true) && IsData(k)
    requires Version(s) <= b && (s.pin.Some? ==> Version(s) <= s.pin.value)
    ensures Lookup(s'.disk, k) == RecAt(s'.versions[Version(s')].tree, [], k)
  {
    hide RecAt, TreeHash, WellFormed, Evolves, History;
    PruneKeeps(s, s', b, true);
    assert Readable(s', Version(s'));
    NoMarksLeft(s', Version(s'), k);
  }

  lemma {:induction false} NoMarksLeft(s: Ledger, b: nat, k: RecordKey)
    requires MarksTrue(s) && |s.versions| <= b + 1
    requires forall x: nat, r {:trigger StaleKey(x, r) in s.disk} :: StaleKey(x, r) in s.disk ==> x > b
    ensures !Marked(s.disk, k)
  {
  }

  lemma {:induction false} PinKeeps(s: Ledger, s': Ledger)
    requires Inv(s) && Pin(s, s')
    ensures Inv(s')
  {
    hide RecAt, TreeHash, WellFormed, Evolves, History;
    forall w | s'.horizon <= w < |s'.versions| ensures Readable(s', w) {
      assert Readable(s, w);
    }
    forall x: nat, r | StaleKey(x, r) in s'.disk ensures MarkIsTrue(s', x, r) {
      assert MarkIsTrue(s, x, r);
    }
    forall w | 0 <= w < |s'.versions| ensures Remnant(s', w) {
      assert Remnant(s, w);
    }
  }

  lemma {:induction false} NextKeeps(s: Ledger, s': Ledger)
    requires Inv(s) && Next(s, s')
    ensures Inv(s')
  {
    hide Inv, Commit, Prune, Pin;
    if s' == s {
    } else if |s'.versions| == |s.versions| + 1 && Commit(s, s', s'.versions[|s.versions|]) {
      CommitKeeps(s, s', s'.versions[|s.versions|]);
    } else if Pin(s, s') {
      PinKeeps(s, s');
    } else {
      var b: nat, all: bool :| Prune(s, s', b, all);
      PruneKeeps(s, s', b, all);
    }
  }

  /** A run: any sequence of commits, prunes (complete or cut short) and pins. */
  ghost predicate Run(states: seq<Ledger>)
  {
    |states| > 0 && Initial(states[0]) && forall i {:trigger states[i]} :: 0 < i < |states| ==>
      Next(states[i - 1], states[i])
  }

  /** Every reachable state keeps the accounting and every retained version. */
  lemma {:induction false} RunInvariant(states: seq<Ledger>, i: nat)
    requires Run(states) && i < |states|
    ensures Inv(states[i])
  {
    hide Inv, Next;
    if i == 0 {
      InitialInv(states[0]);
    } else {
      RunInvariant(states, i - 1);
      assert Next(states[i - 1], states[i]);
      NextKeeps(states[i - 1], states[i]);
    }
  }

  /** Committed versions are never rewritten: a later state extends the history. */
  lemma {:induction false} HistoryOnlyGrows(states: seq<Ledger>, i: nat, j: nat)
    requires Run(states) && i <= j < |states|
    ensures states[i].versions <= states[j].versions
  {
    hide Commit, Prune, Pin, Inv;
    if i < j {
      HistoryOnlyGrows(states, i, j - 1);
      assert Next(states[j - 1], states[j]);
      StepGrows(states[j - 1], states[j]);
    }
  }

  lemma {:induction false} StepGrows(s: Ledger, s': Ledger)
    requires Next(s, s')
    ensures s.versions <= s'.versions
  {
    hide CommitDisk, Pruned, WellFormed, Evolves;
  }

  // ------------------------------------------------------------------- marks

  /** Step i writes the mark of record r for version x. */
  ghost predicate MarkAppears(states: seq<Ledger>, i: nat, x: nat, r: RecordKey)
  {
    0 < i < |states| && StaleKey(x, r) in states[i].disk && StaleKey(x, r) !in states[i - 1].disk
  }

  /** A mark is written by exactly the commit at which its record dies. */
  lemma {:induction false} MarkedWhenItDies(states: seq<Ledger>, i: nat, x: nat, r: RecordKey)
    requires Run(states) && 0 < i < |states|
    ensures MarkAppears(states, i, x, r) <==>
            |states[i].versions| == |states[i - 1].versions| + 1 && x == |states[i - 1].versions| &&
            DiesAt(states[i].versions, x, r)
  {
    hide RecAt, Accounted, Readable, WellFormed, Evolves, Retired, Initial;
    var s, s' := states[i - 1], states[i];
    RunInvariant(states, i - 1);
    assert Next(s, s') && |s.versions| > 0;
    assert StaleKey(x, r) in s.disk ==> MarkIsTrue(s, x, r);
    if |s'.versions| == |s.versions| + 1 {
      var w := |s.versions|;
      assert Commit(s, s', s'.versions[w]);
      assert s'.versions[w - 1] == s.versions[w - 1];
    } else {
      assert StaleKey(x, r) in s'.disk ==> StaleKey(x, r) in s.disk;
    }
  }

  /** Over a whole run a record is marked at most once, even if a prune has consumed
      the mark since. */
  lemma {:induction false} MarkedOnce(states: seq<Ledger>, i: nat, x: nat, j: nat, y: nat, r: RecordKey)
    requires Run(states) && MarkAppears(states, i, x, r) && MarkAppears(states, j, y, r)
    ensures i == j && x == y
    decreases i > j
  {
    hide Inv, Next, Initial, DiesAt, History;
    if i > j {
      MarkedOnce(states, j, y, i, x, r);
    } else {
      MarkedWhenItDies(states, i, x, r);
      MarkedWhenItDies(states, j, y, r);
      HistoryOnlyGrows(states, i, j);
      DeathStands(states[i].versions, states[j].versions, x, r);
      RunHistory(states, j);
      DiesOnce(states[j].versions, x, y, r);
      if i < j {
        HistoryOnlyGrows(states, i, j - 1);
      }
    }
  }

  lemma {:induction false} DeathStands(before: seq<Snapshot>, after: seq<Snapshot>, x: nat, r: RecordKey)
    requires before <= after && DiesAt(before, x, r)
    ensures DiesAt(after, x, r)
  {
    hide Retired;
    assert after[x] == before[x] && after[x - 1] == before[x - 1];
  }

  lemma {:induction false} RunHistory(states: seq<Ledger>, i: nat)
    requires Run(states) && i < |states|
    ensures History(states[i].versions)
  {
    hide History, Readable, MarksTrue, Accounted, Next, Initial;
    RunInvariant(states, i);
  }
}

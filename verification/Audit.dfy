/** The history chain as an audit: what the live head and the live root pin.  */
module Audit {
  import opened Hashing
  import opened SparseMerkle
  import opened StoredTree
  import opened Records
  import opened CopyOnWrite
  import opened Applying
  import opened Runs
  import opened Reading
  import opened Chain
  import opened Batches
  import opened LedgerStore

  // --------------------------------------------------- recomputing the chain

  /** The chain recomputed over the root records on disk, from head at version from. */
  ghost function Relink(disk: Disk, head: Digest, from: nat, last: nat): Result<Digest>
    requires from <= last
    decreases last - from
  {
    if from == last then Ok(head)
    else match RootRecord(disk, from)
         case Err(e) => Err(e)
         case Ok(root) => Relink(disk, HistoryLink(head, root, from + 1), from + 1, last)
  }

  ghost predicate RecordsMatch(disk: Disk, roots: seq<Digest>, from: nat, last: nat)
    requires last <= |roots|
  {
    forall v {:trigger roots[v]} :: from <= v < last ==> RootRecord(disk, v) == Ok(roots[v])
  }

  lemma {:induction false} RelinkStep(disk: Disk, head: Digest, from: nat, last: nat)
    requires from < last
    ensures match RootRecord(disk, from)
            case Err(e) => Relink(disk, head, from, last) == Err(e)
            case Ok(root) =>
              Relink(disk, head, from, last) == Relink(disk, HistoryLink(head, root, from + 1), from + 1, last)
  {
  }

  /** Links are collision free, so the recomputed chain reaches the true head only
      along the true lineage. */
  lemma {:induction false} RelinkPins(disk: Disk, roots: seq<Digest>, head: Digest, from: nat, last: nat)
    requires from <= last <= |roots|
    ensures Relink(disk, head, from, last) == Ok(HeadOf(roots, last))
       <==> head == HeadOf(roots, from) && RecordsMatch(disk, roots, from, last)
    decreases last - from
  {
    hide RootRecord;
    if from < last {
      match RootRecord(disk, from) {
        case Err(_) =>
          assert roots[from] == roots[from];
        case Ok(root) =>
          RelinkPins(disk, roots, HistoryLink(head, root, from + 1), from + 1, last);
          assert HeadOf(roots, from + 1) == HistoryLink(HeadOf(roots, from), roots[from], from + 1);
      }
    }
  }

  /** What an audit from (from, fromHead) reports. */
  ghost function Audited(disk: Disk, history: bool, version: nat, liveHead: Digest, from: nat,
                         fromHead: Digest): Result<bool>
  {
    if !history || from > version then Err(Invalid)
    else match Relink(disk, fromHead, from, version)
         case Err(e) => Err(e)
         case Ok(h) => if h == liveHead then Ok(true) else Err(Corrupted)
  }

  /** Folds the roots on disk onto the anchor; the answer is the specified one. */
  method VerifyHistory(s: Store, fromVersion: nat, fromHead: Digest) returns (r: Result<bool>)
    ensures s.backend.Answers(r, Audited(s.backend.disk, s.history, s.version, s.historyHead, fromVersion, fromHead))
    ensures r.Ok? ==> r.value && s.history && fromVersion <= s.version
    ensures !s.history || s.version < fromVersion ==> r == Err(Invalid)
  {
    hide RootRecord, Relink, HistoryLink;
    if !s.history {
      return Err(Invalid);
    }
    if fromVersion > s.version {
      return Err(Invalid);
    }
    var head := fromHead;
    var v := fromVersion;
    while v < s.version
      invariant fromVersion <= v <= s.version
      invariant Relink(s.backend.disk, fromHead, fromVersion, s.version) == Relink(s.backend.disk, head, v, s.version)
    {
      RelinkStep(s.backend.disk, head, v, s.version);
      var prevRoot := LoadRootRecord(s.backend, v);
      if prevRoot.Err? {
        return Err(prevRoot.error);
      }
      head := HistoryLink(head, prevRoot.value, v + 1);
      v := v + 1;
    }
    RelinkDone(s.backend.disk, head, v);
    if head != s.historyHead {
      return Err(Corrupted);
    }
    return Ok(true);
  }

  lemma {:induction false} RelinkDone(disk: Disk, head: Digest, v: nat)
    ensures Relink(disk, head, v, v) == Ok(head)
  {
  }

  lemma {:induction false} RelinkReaches(disk: Disk, roots: seq<Digest>, head: Digest, from: nat, last: nat)
    requires from <= last <= |roots| && RecordsMatch(disk, roots, from, last)
    ensures Relink(disk, head, from, last).Ok?
    decreases last - from
  {
    hide RootRecord, HistoryLink;
    if from < last {
      assert RootRecord(disk, from) == Ok(roots[from]);
      RelinkReaches(disk, roots, HistoryLink(head, roots[from], from + 1), from + 1, last);
    }
  }

  /** On any storage, the audit passes exactly when the anchor is the true head and
      every stored root it walks is the true root of the lineage roots. */
  lemma {:induction false} AuditIffLineage(disk: Disk, roots: seq<Digest>, version: nat, from: nat, fromHead: Digest)
    requires from <= version <= |roots|
    ensures Audited(disk, true, version, HeadOf(roots, version), from, fromHead) == Ok(true)
       <==> fromHead == HeadOf(roots, from) && RecordsMatch(disk, roots, from, version)
    ensures RecordsMatch(disk, roots, from, version) && fromHead != HeadOf(roots, from) ==>
              Audited(disk, true, version, HeadOf(roots, version), from, fromHead) == Err(Corrupted)
  {
    hide RootRecord, Relink, HeadOf;
    RelinkPins(disk, roots, fromHead, from, version);
    if RecordsMatch(disk, roots, from, version) {
      RelinkReaches(disk, roots, fromHead, from, version);
    }
  }

  /** An audit never passes from a version still to come, nor on a store without the chain. */
  lemma {:induction false} NoAuditFromNowhere(disk: Disk, history: bool, version: nat, liveHead: Digest, from: nat,
                                              fromHead: Digest)
    requires !history || version < from
    ensures Audited(disk, history, version, liveHead, from, fromHead) == Err(Invalid)
  {
  }

  /** Whatever was pruned, an audit from a retained anchor still passes. */
  lemma {:induction false} RetainedAnchorsAudit(s: Ledger, hp: Path, from: nat)
    requires Inv(s) && Chained(s.versions, hp) && s.horizon <= from <= Version(s)
    ensures var roots := RootsOf(s.versions);
            Audited(s.disk, true, Version(s), HeadOf(roots, Version(s)), from, HeadOf(roots, from)) == Ok(true)
  {
    hide HeadOf, WellFormed, Evolves, MarksTrue, Accounted, TreeHash, Chained, Stored;
    var roots := RootsOf(s.versions);
    forall v | from <= v < Version(s) ensures RootRecord(s.disk, v) == Ok(roots[v]) {
      assert Readable(s, v);
    }
    AuditIffLineage(s.disk, roots, Version(s), from, HeadOf(roots, from));
  }

  /** After a complete prune no audit can start below the horizon. */
  lemma {:induction false} PrunedAnchorsFail(s: Ledger, s': Ledger, b: nat, from: nat, liveHead: Digest,
                                             fromHead: Digest)
    requires Prune(s, s', b, true) && from < b && (s.pin.Some? ==> from < s.pin.value)
    ensures Audited(s'.disk, true, Version(s'), liveHead, from, fromHead) == Err(Missing)
  {
    assert Lookup(s'.disk, RootKey(from)) == None;
    RelinkStep(s'.disk, fromHead, from, Version(s'));
  }

  // --------------------------------------------------- what the root pins

  lemma {:induction false} SameRootSameContents(a: Snapshot, b: Snapshot, w: nat, x: nat)
    requires WellFormed(a, w) && WellFormed(b, x) && TreeHash(a.tree) == TreeHash(b.tree)
    ensures Commitments(a.leaves) == Commitments(b.leaves)
  {
    hide Canonical, TreeHash, SparseHash, BornBy;
    CanonicalFacts(a.tree, [], a.leaves);
    CanonicalFacts(b.tree, [], b.leaves);
    RootHash(a.tree, a.leaves);
    RootHash(b.tree, b.leaves);
    var path: FullPath := seq(NIBBLES, _ => 0);
    UnderAligned(a.leaves, [], path);
    UnderAligned(b.leaves, [], path);
    SparseHashInjective(a.leaves, b.leaves, path, 0);
  }

  /** A root is a function of the contents alone, and the contents of the root:
      batches, their order, deletions and versions leave no trace. */
  lemma {:induction false} RootsAgreeIffContents(a: Snapshot, b: Snapshot, w: nat, x: nat)
    requires WellFormed(a, w) && WellFormed(b, x)
    ensures TreeHash(a.tree) == TreeHash(b.tree) <==> Commitments(a.leaves) == Commitments(b.leaves)
  {
    hide Canonical, TreeHash, SparseHash, BornBy;
    RootHash(a.tree, a.leaves);
    RootHash(b.tree, b.leaves);
    if TreeHash(a.tree) == TreeHash(b.tree) {
      SameRootSameContents(a, b, w, x);
    }
    if Commitments(a.leaves) == Commitments(b.leaves) {
      SparseHashOfCommitments(a.leaves, b.leaves, 0);
    }
  }

  /** Heads determine their version and the lineage before it. */
  lemma {:induction false} HeadPinsRoots(r1: seq<Digest>, r2: seq<Digest>, v1: nat, v2: nat)
    requires v1 <= |r1| && v2 <= |r2| && HeadOf(r1, v1) == HeadOf(r2, v2)
    ensures v1 == v2 && r1[..v1] == r2[..v1]
    decreases v1
  {
    if v1 > 0 && v2 > 0 {
      HeadPinsRoots(r1, r2, v1 - 1, v2 - 1);
      assert r1[..v1] == r1[..v1 - 1] + [r1[v1 - 1]] && r2[..v2] == r2[..v2 - 1] + [r2[v2 - 1]];
    }
  }

  /** The stored head of a chained version determines the version. */
  lemma {:induction false} ContentsPinHead(a: seq<Snapshot>, b: seq<Snapshot>, hp: Path, w: nat, x: nat)
    requires w < |a| && x < |b| && HoldsHead(a, hp, w) && HoldsHead(b, hp, x)
    requires Commitments(a[w].leaves) == Commitments(b[x].leaves)
    ensures HeadOf(RootsOf(a), w) == HeadOf(RootsOf(b), x)
  {
    hide RootsOf;
    assert hp in a[w].leaves <==> hp in Commitments(a[w].leaves);
    assert hp in b[x].leaves <==> hp in Commitments(b[x].leaves);
    if w > 0 && x > 0 {
      assert Commitments(a[w].leaves)[hp] == Commitments(b[x].leaves)[hp];
    }
  }

  /** One root determines a lineage: two chained histories that agree on a single
      root agree on its version and on the contents of every version up to it. */
  lemma {:induction false} RootPinsHistory(a: seq<Snapshot>, b: seq<Snapshot>, hp: Path, w: nat, x: nat, v: nat)
    requires History(a) && History(b) && Chained(a, hp) && Chained(b, hp)
    requires w < |a| && x < |b| && TreeHash(a[w].tree) == TreeHash(b[x].tree) && v <= w
    ensures w == x && Commitments(a[v].leaves) == Commitments(b[v].leaves)
  {
    hide WellFormed, Evolves, TreeHash, RootsOf, HeadOf, HoldsHead;
    assert WellFormed(a[w], w) && WellFormed(b[x], x) && HoldsHead(a, hp, w) && HoldsHead(b, hp, x);
    SameRootSameContents(a[w], b[x], w, x);
    ContentsPinHead(a, b, hp, w, x);
    HeadPinsRoots(RootsOf(a), RootsOf(b), w, x);
    if v < w {
      assert RootsOf(a)[v] == RootsOf(a)[..w][v] && RootsOf(b)[v] == RootsOf(b)[..w][v];
      assert WellFormed(a[v], v) && WellFormed(b[v], v);
      SameRootSameContents(a[v], b[v], v, v);
    }
  }

  // -------------------------------------------------------- heads of versions

  /** Version v holds a chain head. */
  ghost predicate HasHead(s: Store, v: nat)
    requires v < |s.versions|
    reads s
  {
    var value := ValueIn(s.versions[v].leaves, s.pathOf(HISTORY_KEY));
    value.Some? && value.value.Head?
  }

  /** Looks up the head leaf of version v; for a retained version of a linked store
      that is the head of its lineage. */
  method HistoryHeadAt(s: Store, v: nat) returns (r: Result<Digest>)
    requires s.Valid()
    ensures !s.history ==> r == Err(Invalid)
    ensures s.history && v > s.version ==> r == Err(Invalid)
    ensures s.history && s.Linked() && s.horizon <= v <= s.version ==>
              s.backend.Answers(r, Ok(HeadOf(RootsOf(s.versions), v)))
    ensures s.Linked() && r.Ok? ==> v <= s.version && r.value == HeadOf(RootsOf(s.versions), v)
    ensures s.history && v <= s.version && r.Err? ==>
              Excused(s.backend, r.error, s.horizon <= v) || (r.error == Corrupted && !HasHead(s, v))
    ensures s.history && s.Linked() && v <= s.version && r.Err? ==> Excused(s.backend, r.error, s.horizon <= v)
  {
    hide Inv, HeadOf, RootsOf, TreeHash, RefOf, Reading.GetAt;
    if !s.history {
      return Err(Invalid);
    }
    if v == 0 {
      NoHeadYet(s.versions);
      return Ok(ZeroHash);
    }
    var got := s.GetAt(v, HISTORY_KEY);
    if got.Err? {
      return Err(got.error);
    }
    if got.value.None? || !got.value.value.Head? {
      if s.Linked() {
        assert HoldsHead(s.versions, s.pathOf(HISTORY_KEY), v);
      }
      return Err(Corrupted);
    }
    if s.Linked() {
      assert HoldsHead(s.versions, s.pathOf(HISTORY_KEY), v);
    }
    return Ok(got.value.value.head);
  }

  lemma {:induction false} NoHeadYet(versions: seq<Snapshot>)
    ensures HeadOf(RootsOf(versions), 0) == ZeroHash
  {
  }
}

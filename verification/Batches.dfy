/** Batches of operations: deduplication, the contents they ask for, and the
    starting point of a commit.  */
module Batches {
  import opened Hashing
  import opened SparseMerkle
  import opened StoredTree
  import opened Records
  import opened CopyOnWrite
  import opened Updates
  import opened Accounting
  import opened Merging
  import opened Applying
  import opened Flushing
  import opened Runs

  datatype Op = Put(key: string, value: Value) | Del(key: string)

  /** System keys live under this prefix; batches may not write there. */
  const RESERVED_PREFIX: string := "\0immutable-ledger:"
  const HISTORY_KEY: string := "\0immutable-ledger:history-head"

  /** Batches may not write the chain head: its key is a system key. */
  lemma {:induction false} HistoryKeyReserved()
    ensures RESERVED_PREFIX <= HISTORY_KEY
  {
    assert forall i :: 0 <= i < |RESERVED_PREFIX| ==> RESERVED_PREFIX[i] == HISTORY_KEY[i];
  }

  function Change(op: Op): Option<Value>
  {
    match op
    case Put(_, v) => Some(v)
    case Del(_) => None
  }

  /** The last operation on each path wins. */
  ghost function Deduped(ops: seq<Op>, pathOf: string -> FullPath): (d: map<Path, Option<Value>>)
    ensures forall p :: p in d ==> |p| == NIBBLES
  {
    if ops == [] then map[]
    else
      var last := ops[|ops| - 1];
      Deduped(ops[..|ops| - 1], pathOf)[pathOf(last.key) := Change(last)]
  }

  lemma {:induction false} DedupedNext(ops: seq<Op>, op: Op, pathOf: string -> FullPath)
    ensures Deduped(ops + [op], pathOf) == Deduped(ops, pathOf)[pathOf(op.key) := Change(op)]
    ensures Deduped([], pathOf) == map[]
  {
    assert (ops + [op])[..|ops|] == ops;
  }

  /** What a batch asks of one path: the last operation that names it. */
  lemma {:induction false} LastWins(ops: seq<Op>, pathOf: string -> FullPath, i: nat)
    requires i < |ops| && forall j :: i < j < |ops| ==> pathOf(ops[j].key) != pathOf(ops[i].key)
    ensures pathOf(ops[i].key) in Deduped(ops, pathOf) && Deduped(ops, pathOf)[pathOf(ops[i].key)] == Change(ops[i])
    decreases |ops|
  {
    var n := |ops| - 1;
    if i < n {
      LastWins(ops[..n], pathOf, i);
    }
  }

  lemma {:induction false} OnlyNamed(ops: seq<Op>, pathOf: string -> FullPath, p: Path)
    ensures p in Deduped(ops, pathOf) <==> exists i :: 0 <= i < |ops| && pathOf(ops[i].key) == p
    decreases |ops|
  {
    if ops != [] {
      var n := |ops| - 1;
      OnlyNamed(ops[..n], pathOf, p);
      assert forall i :: 0 <= i < n ==> ops[..n][i] == ops[i];
    }
  }

  ghost function UpdatesOf(d: map<Path, Option<Value>>): UpdateMap
  {
    map p | p in d :: if d[p].Some? then Some(ValueMac(p, d[p].value)) else None
  }

  ghost function InsertsIn(d: map<Path, Option<Value>>): map<Path, Value>
  {
    map p | p in d && d[p].Some? :: d[p].value
  }

  /** Deduplicates a batch, refusing system keys. */
  method Dedupe(ops: seq<Op>, pathOf: string -> FullPath) returns (r: Result<map<Path, Option<Value>>>)
    ensures r == if exists i :: 0 <= i < |ops| && RESERVED_PREFIX <= ops[i].key then Err(Invalid)
                 else Ok(Deduped(ops, pathOf))
  {
    hide Deduped;
    r := DedupeOutside(RESERVED_PREFIX, ops, pathOf);
  }

  method DedupeOutside(prefix: string, ops: seq<Op>, pathOf: string -> FullPath)
    returns (r: Result<map<Path, Option<Value>>>)
    ensures r == if exists i :: 0 <= i < |ops| && prefix <= ops[i].key then Err(Invalid) else Ok(Deduped(ops, pathOf))
  {
    hide Deduped;
    DedupedNext([], Del(""), pathOf);
    var deduped: map<Path, Option<Value>> := map[];
    for i := 0 to |ops|
      invariant deduped == Deduped(ops[..i], pathOf)
      invariant forall j :: 0 <= j < i ==> !(prefix <= ops[j].key)
    {
      if prefix <= ops[i].key {
        return Err(Invalid);
      }
      DedupedNext(ops[..i], ops[i], pathOf);
      assert ops[..i + 1] == ops[..i] + [ops[i]];
      deduped := deduped[pathOf(ops[i].key) := Change(ops[i])];
    }
    assert ops[..|ops|] == ops;
    return Ok(deduped);
  }

  /** Commitments and stored forms for the inserts, and the sorted update list. */
  method PrepareUpdates(deduped: map<Path, Option<Value>>) returns (updates: seq<Update>, inserts: map<Path, Value>)
    requires forall p :: p in deduped ==> |p| == NIBBLES
    ensures inserts == InsertsIn(deduped)
    ensures GoodUpdates(updates, UpdatesOf(deduped), [], inserts)
  {
    inserts := map p | p in deduped && deduped[p].Some? :: deduped[p].value;
    var u: map<Path, Option<Digest>> :=
      map p | p in deduped :: if deduped[p].Some? then Some(ValueMac(p, deduped[p].value)) else None;
    updates := SortEntries(u);
    assert u == UpdatesOf(deduped);
  }

  // ------------------------------------------------- where a commit starts

  const EMPTY_ACC: Acc := Acc(map[], map[], [])

  /** Values of a version were written at or before it. */
  lemma {:induction false} LeafVersions(t: Tree, m: LeafMap, w: nat, p: Path)
    requires Canonical(t, [], m) && Committed(m) && BornBy(t, [], w) && p in m
    ensures m[p].valueVersion <= w
  {
    hide RecAt, Canonical;
    var k := ValueKey(m[p].vh, m[p].valueVersion);
    ValueAt(t, [], m, m[p].vh, m[p].valueVersion);
    assert RecAt(t, [], k).Some? && Born(k) <= w;
  }

  /** The current version meets the fold's requirements with an empty accumulator. */
  lemma {:induction false} StartReady(s: Ledger, inserts: map<Path, Value>)
    requires Inv(s)
    ensures var snap := s.versions[Version(s)];
            Ready(EMPTY_ACC, s.disk, inserts, |s.versions|, snap.tree, snap.leaves, [])
  {
    hide RecAt, Canonical, Evolves, MarksTrue, Accounted, TreeHash;
    var w, v := Version(s), |s.versions|;
    var snap := s.versions[w];
    assert WellFormed(snap, w) && Readable(s, w);
    forall p | p in snap.leaves ensures snap.leaves[p].valueVersion < v {
      LeafVersions(snap.tree, snap.leaves, w, p);
    }
    forall k | Within(k, []) ensures FreshAt(EMPTY_ACC, v, k) == NewPart(snap.tree, [], k, v) {
      assert RecAt(snap.tree, [], k) == RecAt(snap.tree, [], k);
    }
  }

  /** What computing a batch establishes about the tree to be committed. */
  ghost predicate Computed(s: Ledger, a: Acc, snap: Snapshot)
    requires |s.versions| > 0
  {
    WellFormed(snap, |s.versions|) &&
    Outcome(a, |s.versions|, s.versions[Version(s)].tree, snap.tree) &&
    Evolves(s.versions[Version(s)].tree, snap.tree, |s.versions|)
  }

  /** One pass turns a folded batch into a committable version. */
  lemma {:induction false} OnePassComputed(s: Ledger, a: Acc, inserts: map<Path, Value>, es: seq<Update>, u: UpdateMap,
                                           t': Tree)
    requires Inv(s) && GoodUpdates(es, u, [], inserts)
    requires var snap := s.versions[Version(s)];
             && Folded(EMPTY_ACC, a, |s.versions|, snap.tree, snap.leaves, u, t', [])
             && Override(snap.leaves, u, |s.versions|) != snap.leaves
    ensures var m' := Override(s.versions[Version(s)].leaves, u, |s.versions|);
            Computed(s, a, Snapshot(t', m')) && Ready(a, s.disk, inserts, |s.versions|, t', m', [])
  {
    hide RecAt, Canonical, Holds, Evolves, TreeHash, Override, GoodUpdates, Moves, Inv, BornBy, Committed, OnDisk;
    var v := |s.versions|;
    InvHasVersion(s);
    var snap := s.versions[Version(s)];
    StartReady(s, inserts);
    GoodMeansSealed(snap.leaves, es, u, inserts, v, EMPTY_ACC, s.disk, snap.tree);
    ReadyAgain(EMPTY_ACC, a, s.disk, inserts, inserts, v, snap.tree, snap.leaves, es, u, t');
    FirstPass(a, v, snap.tree, t');
    RootIsFresh(snap.tree, snap.leaves, t', Override(snap.leaves, u, v), v);
  }

  lemma {:induction false} InvHasVersion(s: Ledger)
    requires Inv(s)
    ensures |s.versions| > 0
  {
  }

  lemma {:induction false} GoodMeansSealed(m: LeafMap, es: seq<Update>, u: UpdateMap, inserts: map<Path, Value>, v: nat,
                                           a: Acc, disk: Disk, t: Tree)
    requires GoodUpdates(es, u, [], inserts) && Ready(a, disk, inserts, v, t, m, [])
    ensures Sealed(Override(m, u, v), inserts, v)
  {
    hide Canonical, RecAt, Holds;
    CanonicalFacts(t, [], m);
    OverrideFacts(m, u, v, [], inserts);
  }

  lemma {:induction false} RootIsFresh(t: Tree, m: LeafMap, t': Tree, m': LeafMap, v: nat)
    requires Rewrites(t, m, t', m', [], v) && m' != m
    ensures t'.Empty? || t'.ver == v
  {
  }

  /** The chain pass on top keeps the version committable. */
  lemma {:induction false} TwoPassesComputed(s: Ledger, a1: Acc, a2: Acc, inserts: map<Path, Value>, es: seq<Update>,
                                             u: UpdateMap, t1: Tree, m1: LeafMap, t2: Tree)
    requires |s.versions| > 0 && Computed(s, a1, Snapshot(t1, m1)) && GoodUpdates(es, u, [], inserts)
    requires Ready(a1, s.disk, inserts, |s.versions|, t1, m1, []) && Folded(a1, a2, |s.versions|, t1, m1, u, t2, [])
    ensures Computed(s, a2, Snapshot(t2, Override(m1, u, |s.versions|)))
  {
    hide RecAt, Canonical, Holds, Evolves, TreeHash, Override, GoodUpdates, Moves, BornBy, Committed, OnDisk, Outcome;
    var v := |s.versions|;
    var m2 := Override(m1, u, v);
    GoodMeansSealed(m1, es, u, inserts, v, a1, s.disk, t1);
    ReadyAgain(a1, a2, s.disk, inserts, inserts, v, t1, m1, es, u, t2);
    SecondPass(a1, a2, v, s.versions[v - 1].tree, t1, t2);
    if m2 != m1 {
      RootIsFresh(t1, m1, t2, m2, v);
    }
  }
}

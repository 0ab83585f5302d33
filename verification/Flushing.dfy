/** From a folded batch to the atomic write: both passes of a chained commit, and
    the records that reach the disk.  */
module Flushing {
  import opened Hashing
  import opened SparseMerkle
  import opened StoredTree
  import opened Records
  import opened CopyOnWrite
  import opened Updates
  import opened Accounting
  import opened Building
  import opened Applying
  import opened Runs

  /** What a commit from t to t' is about to flush: exactly the records t' adds,
      and one mark for each record it retires. */
  ghost predicate Outcome(a: Acc, v: nat, t: Tree, t': Tree)
  {
    Holds(a, v, t', []) && Marks(a.stale, t, t', [], v)
  }

  lemma {:induction false} FirstPass(a: Acc, v: nat, t: Tree, t': Tree)
    requires Moves(Acc(map[], map[], []), a, v, t, t', [])
    ensures Outcome(a, v, t, t')
  {
    assert Added(Acc(map[], map[], []), a) == a.stale;
  }

  /** A second pass over the tree the first one built keeps the accounting exact. */
  lemma {:induction false} SecondPass(a1: Acc, a2: Acc, v: nat, t: Tree, t1: Tree, t2: Tree)
    requires Outcome(a1, v, t, t1) && Moves(a1, a2, v, t1, t2, [])
    requires Evolves(t, t1, v) && Evolves(t1, t2, v)
    ensures Outcome(a2, v, t, t2) && Evolves(t, t2, v)
  {
    hide RecAt, Holds, SameOutside;
    var l1, l2 := a1.stale, Added(a1, a2);
    assert a2.stale == l1 + l2;
    forall k ensures Retired(t, t2, [], v, k) <==> k in l1 || k in l2
             ensures !(k in l1 && k in l2)
    {
      assert RecAt(t1, [], k) == RecAt(t1, [], k) && RecAt(t2, [], k) == RecAt(t2, [], k);
    }
    JoinDistinct(l1, l2);
  }

  /** The tree the first pass built meets the fold's requirements again. */
  lemma {:induction false} ReadyAgain(a0: Acc, a1: Acc, disk: Disk, inserts: map<Path, Value>, inserts': map<Path,
                                      Value>, v: nat,
                                      t: Tree, m: LeafMap, es: seq<Update>, u: UpdateMap, t1: Tree)
    requires Ready(a0, disk, inserts, v, t, m, []) && GoodUpdates(es, u, [], inserts)
    requires Folded(a0, a1, v, t, m, u, t1, [])
    requires Sealed(Override(m, u, v), inserts', v)
    ensures Ready(a1, disk, inserts', v, t1, Override(m, u, v), []) && Evolves(t, t1, v)
  {
    hide RecAt, Override, Canonical, Holds;
    var m1 := Override(m, u, v);
    CanonicalFacts(t, [], m);
    OverrideFacts(m, u, v, [], inserts);
    RewritesCanonical(t, m, t1, m1, [], v);
    forall k | RecAt(t1, [], k).Some? && Born(k) != v ensures RecAt(t, [], k) == RecAt(t1, [], k) {
      RewritesEvolves(t, m, t1, m1, [], v, k);
    }
  }

  // ------------------------------------------------------------- the batch

  ghost function NodeWrites(a: Acc): Disk
  {
    map k | k in a.pending :: NodeRec(a.pending[k])
  }

  ghost function ValueWrites(a: Acc, v: nat): Disk
  {
    map k | k in (set vh | vh in a.values :: ValueKey(vh, v)) :: ValueRec(a.values[k.vh])
  }

  ghost function MarkWrites(a: Acc, v: nat): Disk
  {
    map r | r in a.stale :: StaleKey(v, r) := StaleRec
  }

  /** All records a commit writes. */
  ghost function BatchMap(a: Acc, v: nat, root: Digest, history: bool): Disk
  {
    NodeWrites(a) + ValueWrites(a, v) + MarkWrites(a, v) +
    map[RootKey(v) := RootRec(root), CheckpointKey := CheckpointRec(root, v, history)]
  }

  /** ops writes the entries of w, in any order. */
  ghost predicate WritesOf(ops: seq<BatchOp>, w: Disk)
  {
    (forall i {:trigger ops[i]} :: 0 <= i < |ops| ==> ops[i].Write? && Lookup(w, ops[i].key) == Some(ops[i].record)) &&
    (forall k {:trigger k in w} :: k in w ==> exists i :: 0 <= i < |ops| && ops[i].Write? && ops[i].key == k)
  }

  lemma {:induction false} AppliedWrites(disk: Disk, ops: seq<BatchOp>, w: Disk, k: RecordKey)
    requires forall i {:trigger ops[i]} :: 0 <= i < |ops| ==>
              ops[i].Write? && Lookup(w, ops[i].key) == Some(ops[i].record)
    ensures Lookup(Applied(disk, ops), k)
         == if exists i :: 0 <= i < |ops| && ops[i].Write? && ops[i].key == k then Lookup(w, k) else Lookup(disk, k)
    decreases |ops|
  {
    if ops != [] {
      var n := |ops| - 1;
      assert forall i :: 0 <= i < n ==> ops[..n][i] == ops[i];
      AppliedWrites(disk, ops[..n], w, k);
    }
  }

  lemma {:induction false} AppliedIsUpdate(disk: Disk, ops: seq<BatchOp>, w: Disk)
    requires WritesOf(ops, w)
    ensures Applied(disk, ops) == disk + w
  {
    hide Applied;
    forall k ensures Lookup(Applied(disk, ops), k) == Lookup(disk + w, k) {
      AppliedWrites(disk, ops, w, k);
    }
    forall k ensures k in Applied(disk, ops) <==> k in disk + w
             ensures k in Applied(disk, ops) ==> Applied(disk, ops)[k] == (disk + w)[k]
    {
      assert Lookup(Applied(disk, ops), k) == Lookup(disk + w, k);
    }
  }

  /** Appends one write per entry of a map. */
  method AppendWrites(ops: seq<BatchOp>, m: map<RecordKey, Record>, ghost w: Disk) returns (out: seq<BatchOp>)
    requires WritesOf(ops, w) && w.Keys !! m.Keys
    ensures WritesOf(out, w + m)
  {
    out := ops;
    var rest := m.Keys;
    ghost var done: Disk := w;
    while rest != {}
      invariant rest <= m.Keys && done == w + (map k | k in m.Keys - rest :: m[k]) && WritesOf(out, done)
    {
      hide WritesOf;
      var k :| k in rest;
      OneMoreWrite(out, done, k, m[k]);
      out := out + [Write(k, m[k])];
      done := done[k := m[k]];
      rest := rest - {k};
    }
    assert done == w + m;
  }

  lemma {:induction false} OneMoreWrite(ops: seq<BatchOp>, w: Disk, k: RecordKey, r: Record)
    requires WritesOf(ops, w) && k !in w
    ensures WritesOf(ops + [Write(k, r)], w[k := r])
  {
    var out, w' := ops + [Write(k, r)], w[k := r];
    forall q | q in w' ensures exists i :: 0 <= i < |out| && out[i].Write? && out[i].key == q {
      if q == k {
        assert out[|ops|].key == q;
      } else {
        var i :| 0 <= i < |ops| && ops[i].Write? && ops[i].key == q;
        assert out[i].key == q;
      }
    }
  }

  /** The batch a commit hands to the backend. */
  method BuildBatch(acc: CommitAcc, root: Digest, history: bool) returns (ops: seq<BatchOp>)
    ensures WritesOf(ops, BatchMap(acc.State(), acc.newVersion, root, history))
  {
    hide WritesOf;
    var v := acc.newVersion;
    var nodes := map k | k in acc.pending :: NodeRec(acc.pending[k]);
    var values := map k | k in (set vh | vh in acc.values :: ValueKey(vh, v)) :: ValueRec(acc.values[k.vh]);
    var marks := map r | r in acc.stale :: StaleKey(v, r) := StaleRec;
    NoWrites();
    ops := AppendWrites([], nodes, map[]);
    ops := AppendWrites(ops, values, map[] + nodes);
    ops := AppendWrites(ops, marks, map[] + nodes + values);
    ops := AppendWrites(ops, map[RootKey(v) := RootRec(root), CheckpointKey := CheckpointRec(root, v, history)],
                        map[] + nodes + values + marks);
    assert map[] + nodes == nodes;
  }

  lemma {:induction false} NoWrites()
    ensures WritesOf([], map[])
  {
  }

  // ------------------------------------------------------- what reaches disk

  lemma {:induction false} BatchData(a: Acc, v: nat, root: Digest, history: bool, k: RecordKey)
    ensures IsData(k) ==> Lookup(BatchMap(a, v, root, history), k) == FreshAt(a, v, k)
    ensures k.StaleKey? ==> (k in BatchMap(a, v, root, history) <==> k.since == v && k.target in a.stale)
    ensures k.RootKey? ==>
              Lookup(BatchMap(a, v, root, history), k) == if k.rootVersion == v then Some(RootRec(root)) else None
  {
    NodeWritesAt(a, v, k);
    ValueWritesAt(a, v, k);
    MarkWritesAt(a, v, k);
    hide NodeWrites, ValueWrites, MarkWrites;
  }

  lemma {:induction false} NodeWritesAt(a: Acc, v: nat, k: RecordKey)
    ensures Lookup(NodeWrites(a), k) == if k.NodeKey? then FreshAt(a, v, k) else None
  {
  }

  lemma {:induction false} ValueWritesAt(a: Acc, v: nat, k: RecordKey)
    ensures Lookup(ValueWrites(a, v), k) == if k.ValueKey? then FreshAt(a, v, k) else None
  {
  }

  lemma {:induction false} MarkWritesAt(a: Acc, v: nat, k: RecordKey)
    ensures Lookup(MarkWrites(a, v), k) == if k.StaleKey? && k.since == v && k.target in a.stale then Some(StaleRec)
                                           else None
  {
  }

  lemma {:induction false} FlushCommits(disk: Disk, a: Acc, v: nat, t: Tree, t': Tree, root: Digest, history: bool)
    requires Outcome(a, v, t, t') && root == TreeHash(t')
    ensures CommitDisk(disk, disk + BatchMap(a, v, root, history), t, t', v)
  {
    hide RecAt, BatchMap, TreeHash;
    var w := BatchMap(a, v, root, history);
    forall k | IsData(k)
      ensures Lookup(disk + w, k) == if Born(k) == v && RecAt(t', [], k).Some? then RecAt(t', [], k)
                                     else Lookup(disk, k)
    {
      BatchData(a, v, root, history, k);
      assert FreshAt(a, v, k) == NewPart(t', [], k, v);
    }
    forall x: nat, r
      ensures StaleKey(x, r) in disk + w <==> StaleKey(x, r) in disk || (x == v && Retired(t, t', [], v, r))
    {
      BatchData(a, v, root, history, StaleKey(x, r));
    }
    forall x: nat
      ensures Lookup(disk + w, RootKey(x)) == if x == v then Some(RootRec(TreeHash(t'))) else Lookup(disk, RootKey(x))
    {
      BatchData(a, v, root, history, RootKey(x));
    }
  }
}

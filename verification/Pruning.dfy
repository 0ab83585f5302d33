/** The pruner: it removes marked records and old roots without looking at trees.  */
module Pruning {
  import opened Hashing
  import opened SparseMerkle
  import opened Records
  import opened Runs

  /** Records per scan and delete round trip. */
  const PRUNE_CHUNK: nat := 512

  /** The keys an operation list removes. */
  ghost function Removed(ops: seq<BatchOp>): set<RecordKey>
  {
    set i | 0 <= i < |ops| && ops[i].Remove? :: ops[i].key2
  }

  lemma {:induction false} AppliedRemoves(disk: Disk, ops: seq<BatchOp>)
    requires forall i :: 0 <= i < |ops| ==> ops[i].Remove?
    ensures Applied(disk, ops) == disk - Removed(ops)
    decreases |ops|
  {
    if ops != [] {
      var n := |ops| - 1;
      var init := ops[..n];
      assert forall i :: 0 <= i < n ==> init[i] == ops[i];
      AppliedRemoves(disk, init);
      assert Removed(ops) == Removed(init) + {ops[n].key2} by {
        forall k ensures k in Removed(ops) <==> k in Removed(init) || k == ops[n].key2 {
          if k in Removed(init) {
            var i :| 0 <= i < n && init[i].key2 == k;
            assert ops[i].key2 == k;
          }
        }
      }
    }
  }

  /** The deletions of one chunk of stale entries: each entry with its target. */
  method StaleDeletions(keys: seq<RecordKey>) returns (ops: seq<BatchOp>)
    requires forall i {:trigger keys[i]} :: 0 <= i < |keys| ==> keys[i].StaleKey?
    ensures forall i :: 0 <= i < |ops| ==> ops[i].Remove?
    ensures Removed(ops) == (set k: RecordKey | k in keys) + (set k: RecordKey | k in keys :: k.target)
  {
    ops := [];
    for i := 0 to |keys|
      invariant forall j :: 0 <= j < |ops| ==> ops[j].Remove?
      invariant Removed(ops) == (set k | k in keys[..i]) + (set k | k in keys[..i] :: k.target)
    {
      RemovedTwo(ops, keys[i].target, keys[i]);
      ops := ops + [Remove(keys[i].target), Remove(keys[i])];
      assert keys[..i + 1] == keys[..i] + [keys[i]];
    }
    assert keys[..|keys|] == keys;
  }

  lemma {:induction false} RemovedTwo(ops: seq<BatchOp>, a: RecordKey, b: RecordKey)
    ensures Removed(ops + [Remove(a), Remove(b)]) == Removed(ops) + {a, b}
  {
    var out := ops + [Remove(a), Remove(b)];
    forall k ensures k in Removed(out) <==> k in Removed(ops) || k == a || k == b {
      if k in Removed(ops) {
        var i :| 0 <= i < |ops| && ops[i].Remove? && ops[i].key2 == k;
        assert out[i].Remove? && out[i].key2 == k;
      }
      if k == a {
        assert out[|ops|].Remove? && out[|ops|].key2 == k;
      }
      if k == b {
        assert out[|ops| + 1].Remove? && out[|ops| + 1].key2 == k;
      }
    }
  }

  method RootDeletions(keys: seq<RecordKey>) returns (ops: seq<BatchOp>)
    ensures forall i :: 0 <= i < |ops| ==> ops[i].Remove?
    ensures Removed(ops) == set k | k in keys
  {
    ops := [];
    for i := 0 to |keys|
      invariant |ops| == i && forall j :: 0 <= j < i ==> ops[j] == Remove(keys[j])
    {
      ops := ops + [Remove(keys[i])];
    }
    forall k ensures k in Removed(ops) <==> k in keys {
      if k in keys {
        var i :| 0 <= i < |keys| && keys[i] == k;
        assert ops[i].key2 == k;
      }
    }
  }

  // ------------------------------------------------------------------ chunks

  /** Marks point at node and value records only. */
  ghost predicate MarksAreData(disk: Disk)
  {
    forall x: nat, r {:trigger StaleKey(x, r) in disk} :: StaleKey(x, r) in disk ==> IsData(r)
  }

  lemma {:induction false} InvMarksAreData(s: Ledger)
    requires Inv(s)
    ensures MarksAreData(s.disk)
  {
    hide RecAt, WellFormed, Evolves, Readable, Accounted;
    forall x: nat, r | StaleKey(x, r) in s.disk ensures IsData(r) {
      assert MarkIsTrue(s, x, r);
      assert WellFormed(s.versions[x - 1], x - 1);
      RecordsAreData(s.versions[x - 1], x - 1, r);
    }
  }

  lemma {:induction false} PrunedNothing(disk: Disk, b: nat)
    ensures Pruned(disk, disk, b, false)
  {
  }

  /** One more chunk of stale entries extends the prune. */
  lemma {:induction false} StaleChunk(d0: Disk, d1: Disk, d2: Disk, b: nat, keys: seq<RecordKey>)
    requires Pruned(d0, d1, b, false) && MarksAreData(d0)
    requires forall i {:trigger keys[i]} :: 0 <= i < |keys| ==> keys[i] in d1 && keys[i].StaleKey? && keys[i].since <= b
    requires d2 == d1 - ((set k: RecordKey | k in keys) + (set k: RecordKey | k in keys :: k.target))
    ensures Pruned(d0, d2, b, false)
  {
    var gone := (set k: RecordKey | k in keys) + (set k: RecordKey | k in keys :: k.target);
    forall k | k in keys
      ensures k in d1 && k.StaleKey? && k.since <= b && IsData(k.target) && StaleKey(k.since, k.target) in d0
    {
      var i :| 0 <= i < |keys| && keys[i] == k;
      assert StaleKey(k.since, k.target) in d1;
    }
    forall x: nat, r | StaleKey(x, r) in d0 && StaleKey(x, r) !in d2 ensures x <= b && r !in d2 {
      if StaleKey(x, r) in d1 {
        assert StaleKey(x, r) in keys;
        assert StaleKey(x, r).target in gone;
      }
    }
    forall k | IsData(k)
      ensures Lookup(d2, k) == Lookup(d0, k) ||
              (Lookup(d2, k) == None && exists x: nat :: x <= b && StaleKey(x, k) in d0)
    {
      if k in gone {
        var q :| q in keys && q.target == k;
        assert StaleKey(q.since, k) in d0;
      } else {
        assert Lookup(d2, k) == Lookup(d1, k);
      }
    }
    forall x: nat ensures Lookup(d2, RootKey(x)) == Lookup(d1, RootKey(x)) {
    }
  }

  /** One more chunk of old roots extends the prune. */
  lemma {:induction false} RootChunk(d0: Disk, d1: Disk, d2: Disk, b: nat, keys: seq<RecordKey>)
    requires Pruned(d0, d1, b, false)
    requires forall i {:trigger keys[i]} :: 0 <= i < |keys| ==>
              keys[i] in d1 && keys[i].RootKey? && keys[i].rootVersion < b
    requires d2 == d1 - (set k: RecordKey | k in keys)
    ensures Pruned(d0, d2, b, false)
    ensures forall x: nat, r {:trigger StaleKey(x, r) in d2} :: StaleKey(x, r) in d2 <==> StaleKey(x, r) in d1
  {
    forall k | k in keys ensures k.RootKey? && k.rootVersion < b {
      var i :| 0 <= i < |keys| && keys[i] == k;
    }
    forall k: RecordKey | !k.RootKey? ensures Lookup(d2, k) == Lookup(d1, k) {
    }
    forall x: nat
      ensures Lookup(d2, RootKey(x)) == Lookup(d1, RootKey(x)) || (Lookup(d2, RootKey(x)) == None && x < b)
    {
    }
  }

  lemma {:induction false} Shrinks(d1: Disk, d2: Disk, gone: set<RecordKey>, k: RecordKey)
    requires d2 == d1 - gone && k in d1 && k in gone
    ensures |d2| < |d1|
  {
    assert d2.Keys + {k} <= d1.Keys;
    SubsetSize(d2.Keys + {k}, d1.Keys);
  }

  /** Deletes stale entries up to b with their targets, chunk by chunk. */
  method PruneStale(backend: Backend, b: nat) returns (r: Result<bool>)
    requires MarksAreData(backend.disk)
    modifies backend
    ensures Pruned(old(backend.disk), backend.disk, b, false)
    ensures r.Err? ==> !backend.reliable && r.error == ErrorKind.Backend
    ensures r.Ok? ==> forall x: nat, k {:trigger StaleKey(x, k) in backend.disk} :: StaleKey(x, k) in backend.disk ==>
              x > b
  {
    hide Pruned;
    ghost var d0 := backend.disk;
    PrunedNothing(d0, b);
    while true
      invariant Pruned(d0, backend.disk, b, false)
      decreases |backend.disk|
    {
      var scan := backend.Scan(StaleUpTo(b), PRUNE_CHUNK);
      if scan.Err? {
        return Err(scan.error);
      }
      var keys := scan.value;
      if |keys| == 0 {
        return Ok(true);
      }
      ghost var d1 := backend.disk;
      var ops := StaleDeletions(keys);
      AppliedRemoves(d1, ops);
      var ok := backend.WriteBatch(ops);
      if !ok {
        return Err(ErrorKind.Backend);
      }
      StaleChunk(d0, d1, backend.disk, b, keys);
      Shrinks(d1, backend.disk, Removed(ops), keys[0]);
      if |keys| < PRUNE_CHUNK {
        NoneLeft(d1, backend.disk, b, keys, ops);
        return Ok(true);
      }
    }
  }

  lemma {:induction false} NoneLeft(d1: Disk, d2: Disk, b: nat, keys: seq<RecordKey>, ops: seq<BatchOp>)
    requires Scanned(d1, StaleUpTo(b), PRUNE_CHUNK, keys) && |keys| < PRUNE_CHUNK
    requires Removed(ops) ==
             (set k: RecordKey | k in keys) + (set k: RecordKey | k in keys && k.StaleKey? :: k.target)
    requires d2 == d1 - Removed(ops)
    ensures forall x: nat, k {:trigger StaleKey(x, k) in d2} :: StaleKey(x, k) in d2 ==> x > b
  {
    forall x: nat, k | StaleKey(x, k) in d2 ensures x > b {
      assert InRange(StaleKey(x, k), StaleUpTo(b)) <==> x <= b;
      assert StaleKey(x, k) !in keys;
    }
  }

  /** Deletes root records below b, chunk by chunk. */
  method PruneRoots(backend: Backend, b: nat, ghost d0: Disk) returns (r: Result<bool>)
    requires Pruned(d0, backend.disk, b, false)
    requires forall x: nat, k {:trigger StaleKey(x, k) in backend.disk} :: StaleKey(x, k) in backend.disk ==> x > b
    modifies backend
    ensures r.Err? ==> !backend.reliable && r.error == ErrorKind.Backend && Pruned(d0, backend.disk, b, false)
    ensures r.Ok? ==> Pruned(d0, backend.disk, b, true)
  {
    hide Pruned;
    while true
      invariant Pruned(d0, backend.disk, b, false)
      invariant forall x: nat, k {:trigger StaleKey(x, k) in backend.disk} :: StaleKey(x, k) in backend.disk ==> x > b
      decreases |backend.disk|
    {
      var scan := backend.Scan(RootsBelow(b), PRUNE_CHUNK);
      if scan.Err? {
        return Err(scan.error);
      }
      var keys := scan.value;
      if |keys| == 0 {
        NoRootsLeft(d0, backend.disk, b);
        return Ok(true);
      }
      ghost var d1 := backend.disk;
      var ops := RootDeletions(keys);
      AppliedRemoves(d1, ops);
      var ok := backend.WriteBatch(ops);
      if !ok {
        return Err(ErrorKind.Backend);
      }
      RootChunk(d0, d1, backend.disk, b, keys);
      Shrinks(d1, backend.disk, Removed(ops), keys[0]);
      if |keys| < PRUNE_CHUNK {
        NoRootsLeft(d0, backend.disk, b);
        return Ok(true);
      }
    }
  }

  lemma {:induction false} NoRootsLeft(d0: Disk, d: Disk, b: nat)
    requires Pruned(d0, d, b, false)
    requires forall x: nat, k {:trigger StaleKey(x, k) in d} :: StaleKey(x, k) in d ==> x > b
    requires forall k {:trigger k in d} :: k in d ==> !InRange(k, RootsBelow(b))
    ensures Pruned(d0, d, b, true)
  {
    forall x: nat | x < b ensures Lookup(d, RootKey(x)) == None {
      assert !InRange(RootKey(x), RootsBelow(b)) || RootKey(x) !in d;
    }
  }
}

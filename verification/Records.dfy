/** Backend records and which of them a version's tree is made of.  */
module Records {
  import opened Hashing
  import opened SparseMerkle
  import opened StoredTree

  /** Record keys of the single backend keyspace. */
  datatype RecordKey =
    | NodeKey(version: nat, prefix: Path)
    | ValueKey(vh: Digest, valueVersion: nat)
    | StaleKey(since: nat, target: RecordKey)
    | RootKey(rootVersion: nat)
    | CheckpointKey

  datatype Record =
    | NodeRec(node: NodeRecord)
    | ValueRec(value: Value)
    | StaleRec
    | RootRec(root: Digest)
    | CheckpointRec(ckptRoot: Digest, ckptVersion: nat, history: bool)

  type Disk = map<RecordKey, Record>
  /** A key of a node record. */
  type NodeRef = k: RecordKey | k.NodeKey? witness NodeKey(0, [])

  predicate IsData(k: RecordKey)
  {
    k.NodeKey? || k.ValueKey?
  }

  /** The commit that wrote a node or value record. */
  function Born(k: RecordKey): nat
  {
    match k
    case NodeKey(v, _) => v
    case ValueKey(_, v) => v
    case _ => 0
  }

  /** The tree position a record belongs to. */
  function Place(k: RecordKey): Path
  {
    match k
    case NodeKey(_, prefix) => prefix
    case ValueKey(vh, _) => if vh.ValueMac? then vh.macPath else []
    case _ => []
  }

  predicate Within(k: RecordKey, pre: Path)
  {
    IsData(k) && pre <= Place(k)
  }

  /** The record stored under k for the tree t at position pre, if t has one. */
  ghost function RecAt(t: Tree, pre: Path, k: RecordKey): Option<Record>
    decreases t
  {
    if t.Empty? then None
    else if k == NodeKey(t.ver, pre) then Some(NodeRec(NodeOf(t)))
    else if t.Tip? then
      if t.info.vh.ValueMac? && k == ValueKey(t.info.vh, t.info.valueVersion)
      then Some(ValueRec(t.info.vh.plaintext)) else None
    else if |t.kids| == SLOTS && Within(k, pre) && |pre| < |Place(k)| then
      RecAt(t.kids[Place(k)[|pre|]], pre + [Place(k)[|pre|]], k)
    else None
  }

  ghost function NodeOf(t: Tree): NodeRecord
    requires !t.Empty?
  {
    if t.Tip? then LeafNode(t.path, t.info) else InternalNode(Refs(t.kids))
  }

  /** Every record of t is on disk with its content. */
  ghost predicate Stored(disk: Disk, t: Tree, pre: Path)
  {
    forall k {:trigger RecAt(t, pre, k)} :: RecAt(t, pre, k).Some? ==> Lookup(disk, k) == RecAt(t, pre, k)
  }

  /** Every record of t is on disk with its content, or gone. */
  ghost predicate Remains(disk: Disk, t: Tree, pre: Path)
  {
    forall k {:trigger RecAt(t, pre, k)} :: RecAt(t, pre, k).Some? ==>
      Lookup(disk, k) == RecAt(t, pre, k) || Lookup(disk, k).None?
  }

  /** Every leaf commits to a value at its own path. */
  ghost predicate Committed(m: LeafMap)
  {
    forall p :: p in m ==> m[p].vh.ValueMac? && m[p].vh.macPath == p
  }

  /** A tree's records lie at or below its position. */
  lemma {:induction false} RecAtWithin(t: Tree, pre: Path, m: LeafMap, k: RecordKey)
    requires Canonical(t, pre, m) && Committed(m) && RecAt(t, pre, k).Some?
    ensures Within(k, pre)
  {
    if t.Tip? {
      assert t.path in m;
    }
  }

  /** The child subtree's records are the parent's. */
  lemma {:induction false} KidStored(disk: Disk, t: Tree, pre: Path, m: LeafMap, i: Nibble)
    requires Canonical(t, pre, m) && Committed(m) && t.Fork? && Stored(disk, t, pre)
    ensures |t.kids| == SLOTS && Stored(disk, t.kids[i], pre + [i])
  {
    KidCanonical(t, pre, m, i);
    forall k | RecAt(t.kids[i], pre + [i], k).Some?
      ensures Lookup(disk, k) == RecAt(t.kids[i], pre + [i], k)
    {
      KidRecAt(t, pre, m, i, k);
      assert RecAt(t, pre, k).Some?;
    }
  }

  lemma {:induction false} KidRemains(disk: Disk, t: Tree, pre: Path, m: LeafMap, i: Nibble)
    requires Canonical(t, pre, m) && Committed(m) && t.Fork? && Remains(disk, t, pre)
    ensures |t.kids| == SLOTS && Remains(disk, t.kids[i], pre + [i])
  {
    KidCanonical(t, pre, m, i);
    forall k | RecAt(t.kids[i], pre + [i], k).Some?
      ensures Lookup(disk, k) == RecAt(t.kids[i], pre + [i], k) || Lookup(disk, k).None?
    {
      KidRecAt(t, pre, m, i, k);
      assert RecAt(t, pre, k).Some?;
    }
  }

  lemma {:induction false} KidRecAt(t: Tree, pre: Path, m: LeafMap, i: Nibble, k: RecordKey)
    requires Canonical(t, pre, m) && Committed(m) && t.Fork?
    requires Within(k, pre + [i])  || (|t.kids| == SLOTS && RecAt(t.kids[i], pre + [i], k).Some?)
    ensures |t.kids| == SLOTS && RecAt(t, pre, k) == RecAt(t.kids[i], pre + [i], k)
  {
    KidCanonical(t, pre, m, i);
    if !Within(k, pre + [i]) {
      RecAtWithin(t.kids[i], pre + [i], Sub(m, |pre|, i), k);
    }
    assert Place(k)[|pre|] == (pre + [i])[|pre|] == i;
    assert pre <= pre + [i] <= Place(k);
  }

  // ------------------------------------------------------------ the backend

  datatype BatchOp = Write(key: RecordKey, record: Record) | Remove(key2: RecordKey)

  /** A disk after a batch of writes and deletes, applied in order. */
  function Applied(disk: Disk, ops: seq<BatchOp>): Disk
    decreases |ops|
  {
    if ops == [] then disk
    else
      var before := Applied(disk, ops[..|ops| - 1]);
      match ops[|ops| - 1]
      case Write(k, r) => before[k := r]
      case Remove(k) => before - {k}
  }

  /** The key ranges the pruner scans. */
  datatype ScanRange = StaleUpTo(since: nat) | RootsBelow(version: nat)

  predicate InRange(k: RecordKey, range: ScanRange)
  {
    match range
    case StaleUpTo(b) => k.StaleKey? && k.since <= b
    case RootsBelow(b) => k.RootKey? && k.rootVersion < b
  }

  /** A scan result: keys of the range, each once; a short one is complete. */
  ghost predicate Scanned(disk: Disk, range: ScanRange, limit: nat, keys: seq<RecordKey>)
  {
    |keys| <= limit &&
    (forall i {:trigger keys[i]} :: 0 <= i < |keys| ==> keys[i] in disk && InRange(keys[i], range)) &&
    (forall i, j :: 0 <= i < j < |keys| ==> keys[i] != keys[j]) &&
    (|keys| < limit ==> forall k {:trigger k in disk} :: k in disk && InRange(k, range) ==> k in keys)
  }

  /** Storage: point get and atomic write batch.  Unless reliable, a call may
      fail with an I/O error, and then has no effect. */
  class Backend {
    const reliable: bool
    var disk: Disk

    constructor (reliable: bool)
      ensures this.reliable == reliable && disk == map[]
    {
      this.reliable := reliable;
      disk := map[];
    }

    /** r carries the expected result or this backend's I/O error. */
    ghost predicate Answers<T>(r: Result<T>, expected: Result<T>)
    {
      r == expected || (!reliable && r == Err(ErrorKind.Backend))
    }

    method Get(key: RecordKey) returns (r: Result<Option<Record>>)
      ensures Answers(r, Ok(Lookup(disk, key)))
    {
      var fails: bool := *;
      r := if !reliable && fails then Err(ErrorKind.Backend) else Ok(Lookup(disk, key));
    }

    /** At most limit keys of a range. */
    method Scan(range: ScanRange, limit: nat) returns (r: Result<seq<RecordKey>>)
      ensures r.Ok? ==> Scanned(disk, range, limit, r.value)
      ensures r.Err? ==> !reliable && r.error == ErrorKind.Backend
    {
      var fails: bool := *;
      if !reliable && fails {
        return Err(ErrorKind.Backend);
      }
      var rest := set k | k in disk && InRange(k, range);
      var keys: seq<RecordKey> := [];
      while rest != {} && |keys| < limit
        invariant |keys| <= limit
        invariant forall k :: k in rest ==> k in disk && InRange(k, range)
        invariant forall k :: k in disk && InRange(k, range) ==> k in rest || k in keys
        invariant forall i :: 0 <= i < |keys| ==> keys[i] in disk && InRange(keys[i], range) && keys[i] !in rest
        invariant forall i, j :: 0 <= i < j < |keys| ==> keys[i] != keys[j]
      {
        var k :| k in rest;
        rest := rest - {k};
        keys := keys + [k];
      }
      return Ok(keys);
    }

    method WriteBatch(ops: seq<BatchOp>) returns (ok: bool)
      modifies this
      ensures reliable ==> ok
      ensures disk == if ok then Applied(old(disk), ops) else old(disk)
    {
      var fails: bool := *;
      ok := reliable || !fails;
      if ok {
        disk := Applied(disk, ops);
      }
    }
  }

  /** Counts the occupied slots of a range, stopping at two, and finds the first. */
  method CountPresent(children: seq<Option<Child>>, start: nat, width: nat) returns (present: nat, only: nat)
    requires start + width <= |children|
    ensures present == 0 <==> Vacant(children, start, width)
    ensures present >= 1 ==> start <= only < start + width && children[only].Some?
    ensures present == 1 ==> Lone(children, start, width, only)
    ensures present >= 2 ==> exists j :: start <= j < start + width && j != only && children[j].Some?
  {
    only, present := start, 0;
    var i := start;
    while i < start + width && present < 2
      invariant start <= i <= start + width && present <= 2
      invariant present == 0 ==> forall j :: start <= j < i ==> children[j].None?
      invariant present >= 1 ==> start <= only < i && children[only].Some?
      invariant present == 1 ==> forall j :: start <= j < i && j != only ==> children[j].None?
      invariant present == 2 ==> exists j :: start <= j < i && j != only && children[j].Some?
    {
      if children[i].Some? {
        if present == 0 {
          only := i;
        }
        present := present + 1;
      }
      i := i + 1;
    }
  }

  /** The 16-slot node hash: an empty range, a lone risen child, or two halves. */
  method FoldSlots(children: seq<Option<Child>>, start: nat, width: nat) returns (h: Digest)
    requires start + width <= |children|
    ensures h == SubtreeHash(children, start, width)
    decreases width
  {
    var present, only := CountPresent(children, start, width);
    if present == 0 {
      return Placeholder;
    }
    if present == 1 && (width == 1 || children[only].value.isLeaf) {
      assert Rises(children, start, width, only);
      return children[only].value.hash;
    }
    NotRising(children, start, width, only, present);
    var left := FoldSlots(children, start, width / 2);
    var right := FoldSlots(children, start + width / 2, width / 2);
    return NodeHash(left, right);
  }

  lemma {:induction false} NotRising(children: seq<Option<Child>>, start: nat, width: nat, only: nat, present: nat)
    requires start + width <= |children| && start <= only < start + width && children[only].Some?
    requires present == 1 ==> Lone(children, start, width, only) && width != 1 && !children[only].value.isLeaf
    requires present != 1 ==> exists j :: start <= j < start + width && j != only && children[j].Some?
    ensures !Vacant(children, start, width) && width >= 2
    ensures forall i: nat :: !Rises(children, start, width, i)
  {
  }

  /** Whether a stored node passes the strict decoder. */
  predicate Decodes(n: NodeRecord)
  {
    n.InternalNode? ==> |n.children| == SLOTS && exists i :: 0 <= i < SLOTS && n.children[i].Some?
  }

  /** Loading a node: present, decodable and hashing to what its parent says. */
  ghost function Load(disk: Disk, nk: RecordKey, expected: Digest): Result<NodeRecord>
  {
    match Lookup(disk, nk)
    case None => Err(Missing)
    case Some(rec) =>
      if rec.NodeRec? && Decodes(rec.node) && RecordHash(rec.node) == expected then Ok(rec.node)
      else Err(Corrupted)
  }

  method LoadNode(backend: Backend, nk: RecordKey, expected: Digest) returns (r: Result<NodeRecord>)
    ensures backend.Answers(r, Load(backend.disk, nk, expected))
  {
    var got := backend.Get(nk);
    if got.Err? {
      return Err(ErrorKind.Backend);
    }
    if got.value.None? {
      return Err(Missing);
    }
    var rec := got.value.value;
    if !rec.NodeRec? || !Decodes(rec.node) {
      return Err(Corrupted);
    }
    var h;
    if rec.node.LeafNode? {
      h := LeafHash(rec.node.path, rec.node.info.vh);
    } else {
      h := FoldSlots(rec.node.children, 0, SLOTS);
    }
    r := if h == expected then Ok(rec.node) else Err(Corrupted);
  }

  /** A store-written node loads as itself. */
  lemma {:induction false} LoadStored(disk: Disk, t: Tree, pre: Path, m: LeafMap)
    requires Canonical(t, pre, m) && !t.Empty? && Lookup(disk, NodeKey(t.ver, pre)) == Some(NodeRec(NodeOf(t)))
    ensures Load(disk, NodeKey(t.ver, pre), TreeHash(t)) == Ok(NodeOf(t))
  {
    if t.Fork? {
      SomeSlotTaken(t, pre, m);
    }
  }

  lemma {:induction false} SomeSlotTaken(t: Tree, pre: Path, m: LeafMap)
    requires Canonical(t, pre, m) && t.Fork?
    ensures |t.kids| == SLOTS && exists i :: 0 <= i < SLOTS && Refs(t.kids)[i].Some?
  {
    var p :| p in m;
    var i: Nibble := p[|pre|];
    KidCanonical(t, pre, m, i);
    assert p in Sub(m, |pre|, i);
    assert Refs(t.kids)[i].Some?;
  }

  /** What the shape of a canonical tree says about its map. */
  lemma {:induction false} CanonicalFacts(t: Tree, pre: Path, m: LeafMap)
    requires Canonical(t, pre, m)
    ensures Under(m, pre)
    ensures t.Empty? <==> |m| == 0
    ensures t.Tip? <==> |m| == 1
    ensures t.Tip? ==> m == map[t.path := t.info] && t.path in m
    ensures t.Fork? ==> |m| >= 2 && |pre| < NIBBLES && |t.kids| == SLOTS
    ensures RefOf(t).None? <==> t.Empty?
    ensures !t.Empty? ==> RefOf(t) == Some(Child(t.ver, TreeHash(t), t.Tip?))
  {
    if t.Tip? {
      assert |m| == 1;
    }
  }

  lemma {:induction false} KidFacts(disk: Disk, t: Tree, pre: Path, m: LeafMap, i: Nibble)
    requires Canonical(t, pre, m) && Committed(m) && t.Fork? && Stored(disk, t, pre)
    ensures |t.kids| == SLOTS && Canonical(t.kids[i], pre + [i], Sub(m, |pre|, i))
    ensures Committed(Sub(m, |pre|, i)) && Stored(disk, t.kids[i], pre + [i])
    ensures Refs(t.kids)[i] == RefOf(t.kids[i])
  {
    KidCanonical(t, pre, m, i);
    KidStored(disk, t, pre, m, i);
  }

  /** Loads the node a child reference of a store-written tree points at. */
  method LoadChild(backend: Backend, c: Child, prefix: Path, ghost t: Tree,
                   ghost m: LeafMap) returns (r: Result<NodeRecord>)
    requires Canonical(t, prefix, m) && Stored(backend.disk, t, prefix) && RefOf(t) == Some(c)
    ensures !t.Empty? && backend.Answers(r, Ok(NodeOf(t)))
    ensures t.Tip? ==> m == map[t.path := t.info]
  {
    assert RecAt(t, prefix, NodeKey(t.ver, prefix)) == Some(NodeRec(NodeOf(t)));
    LoadStored(backend.disk, t, prefix, m);
    r := LoadNode(backend, NodeKey(c.version, prefix), c.hash);
    if r.Ok? && r.value.LeafNode? != c.isLeaf {
      r := Err(Corrupted);
    }
  }
}

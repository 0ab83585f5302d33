/** What a commit changed: the structural diff of two versions.  */
module Diff {
  import opened Hashing
  import opened SparseMerkle
  import opened StoredTree
  import opened Records
  import opened CopyOnWrite
  import opened Updates
  import opened Building
  import opened Merging
  import opened Applying
  import opened Runs
  import opened Reading
  import opened Batches
  import opened LedgerStore

  /** The leaves collected from the two sides. */
  class Collected {
    var olds: map<Path, Info>
    var news: map<Path, Info>

    constructor ()
      ensures olds == map[] && news == map[]
    {
      olds, news := map[], map[];
    }
  }

  /** At p, each side was collected in full, or p was skipped on both sides
      because both commit to the same value there. */
  ghost predicate Decided(ma: LeafMap, mb: LeafMap, da: LeafMap, db: LeafMap, p: Path)
  {
    (p in da ==> p in ma && da[p] == ma[p]) &&
    (p in db ==> p in mb && db[p] == mb[p]) &&
    (p in ma && p !in da ==> p in mb && ma[p].vh == mb[p].vh && p !in db) &&
    (p in mb && p !in db ==> p in ma && ma[p].vh == mb[p].vh && p !in da)
  }

  ghost predicate Diffed(ma: LeafMap, mb: LeafMap, da: LeafMap, db: LeafMap)
  {
    forall p {:trigger Decided(ma, mb, da, db, p)} :: Decided(ma, mb, da, db, p)
  }

  /** Equal hashes mean equal contents, so a skipped region holds no difference. */
  lemma {:induction false} SkipIsSound(disk: Disk, ta: Tree, tb: Tree, pre: Path, ma: LeafMap, mb: LeafMap)
    requires Held(disk, ta, pre, ma) && Held(disk, tb, pre, mb) && TreeHash(ta) == TreeHash(tb)
    ensures Diffed(ma, mb, map[], map[])
  {
    hide Canonical, TreeHash, SparseHash, Stored;
    HeldFacts(disk, ta, pre, ma);
    HeldFacts(disk, tb, pre, mb);
    TreeHashIsSparseHash(ta, pre, ma);
    TreeHashIsSparseHash(tb, pre, mb);
    var path: FullPath := pre + seq(NIBBLES - |pre|, _ => 0);
    UnderAligned(ma, pre, path);
    UnderAligned(mb, pre, path);
    SparseHashInjective(ma, mb, path, 4 * |pre|);
    forall p ensures Decided(ma, mb, map[], map[], p) {
      assert p in ma <==> p in Commitments(ma);
      assert p in mb <==> p in Commitments(mb);
      assert p in ma ==> Commitments(ma)[p] == Commitments(mb)[p];
    }
  }

  ghost function TipMap(t: Tree): LeafMap
  {
    if t.Tip? then map[t.path := t.info] else map[]
  }

  /** One side's collection so far: its tip, and only leaves of children below lim. */
  ghost predicate Gathered(t: Tree, m: LeafMap, got: LeafMap, d: nat, lim: nat)
  {
    (forall p :: p in got ==> p in m && got[p] == m[p] && (p in TipMap(t) || (d < |p| && p[d] < lim))) &&
    (forall p :: p in TipMap(t) ==> p in got)
  }

  /** The children below lim are decided; the tip of a leaf side is collected. */
  ghost predicate DecidedBelow(ta: Tree, tb: Tree, ma: LeafMap, mb: LeafMap, da: LeafMap, db: LeafMap, d: nat, lim: nat)
  {
    (forall p {:trigger Decided(ma, mb, da, db, p)} :: |p| == NIBBLES && d < NIBBLES && p[d] < lim ==>
      Decided(ma, mb, da, db, p)) &&
    Gathered(ta, ma, da, d, lim) && Gathered(tb, mb, db, d, lim)
  }

  lemma {:induction false} StartDecided(disk: Disk, ta: Tree, tb: Tree, pre: Path, ma: LeafMap, mb: LeafMap)
    requires Held(disk, ta, pre, ma) && Held(disk, tb, pre, mb)
    ensures DecidedBelow(ta, tb, ma, mb, TipMap(ta), TipMap(tb), |pre|, 0)
    ensures !ta.Fork? && !tb.Fork? ==> Diffed(ma, mb, TipMap(ta), TipMap(tb))
  {
    hide Canonical, TreeHash, Stored, Held;
    HeldFacts(disk, ta, pre, ma);
    HeldFacts(disk, tb, pre, mb);
  }

  /** One more child decided. */
  lemma {:induction false} NextDecided(disk: Disk, ta: Tree, tb: Tree, pre: Path, ma: LeafMap, mb: LeafMap,
                                       da: LeafMap, db: LeafMap, ka: LeafMap, kb: LeafMap, n: Nibble)
    requires Held(disk, ta, pre, ma) && Held(disk, tb, pre, mb) && |pre| < NIBBLES
    requires DecidedBelow(ta, tb, ma, mb, da, db, |pre|, n)
    requires Diffed(KidMap(ta, ma, |pre|, n), KidMap(tb, mb, |pre|, n), ka, kb)
    ensures DecidedBelow(ta, tb, ma, mb, da + ka, db + kb, |pre|, n + 1)
  {
    hide Canonical, TreeHash, Stored, Held, Decided, KidMap, TipMap, Gathered;
    TipOrFork(disk, ta, pre, ma);
    TipOrFork(disk, tb, pre, mb);
    var d := |pre|;
    forall p | |p| == NIBBLES && p[d] < n + 1 ensures Decided(ma, mb, da + ka, db + kb, p) {
      assert Decided(KidMap(ta, ma, d, n), KidMap(tb, mb, d, n), ka, kb, p);
      KidDecides(ta, tb, ma, mb, da, db, ka, kb, d, n, p);
    }
    KidsContents(ta, tb, ma, mb, ka, kb, d, n);
    GatherNext(ta, ma, da, ka, d, n);
    GatherNext(tb, mb, db, kb, d, n);
  }

  lemma {:induction false} KidsContents(ta: Tree, tb: Tree, ma: LeafMap, mb: LeafMap, ka: LeafMap, kb: LeafMap, d: nat,
                                        n: Nibble)
    requires Diffed(KidMap(ta, ma, d, n), KidMap(tb, mb, d, n), ka, kb)
    ensures forall p :: p in ka ==> p in ma && ka[p] == ma[p] && d < |p| && p[d] == n
    ensures forall p :: p in kb ==> p in mb && kb[p] == mb[p] && d < |p| && p[d] == n
  {
    hide Decided, KidMap;
    forall p ensures p in ka ==> p in ma && ka[p] == ma[p] && d < |p| && p[d] == n
             ensures p in kb ==> p in mb && kb[p] == mb[p] && d < |p| && p[d] == n
    {
      assert Decided(KidMap(ta, ma, d, n), KidMap(tb, mb, d, n), ka, kb, p);
      KidContents(ta, tb, ma, mb, ka, kb, d, n, p);
    }
  }

  lemma {:induction false} GatherNext(t: Tree, m: LeafMap, got: LeafMap, more: LeafMap, d: nat, n: Nibble)
    requires Gathered(t, m, got, d, n)
    requires forall p :: p in more ==> p in m && more[p] == m[p] && d < |p| && p[d] == n
    ensures Gathered(t, m, got + more, d, n + 1)
  {
  }

  lemma {:induction false} TipOrFork(disk: Disk, t: Tree, pre: Path, m: LeafMap)
    requires Held(disk, t, pre, m)
    ensures !t.Fork? ==> m == TipMap(t)
  {
    hide Canonical, TreeHash, Stored, Held;
    HeldFacts(disk, t, pre, m);
  }

  lemma {:induction false} KidContents(ta: Tree, tb: Tree, ma: LeafMap, mb: LeafMap, ka: LeafMap, kb: LeafMap, d: nat,
                                       n: Nibble, p: Path)
    requires Decided(KidMap(ta, ma, d, n), KidMap(tb, mb, d, n), ka, kb, p)
    ensures p in ka ==> p in ma && ka[p] == ma[p] && d < |p| && p[d] == n
    ensures p in kb ==> p in mb && kb[p] == mb[p] && d < |p| && p[d] == n
  {
  }

  lemma {:induction false} Reassociate(a: LeafMap, b: LeafMap, c: LeafMap)
    ensures a + b + c == a + (b + c)
  {
  }

  lemma {:induction false} KidDecides(ta: Tree, tb: Tree, ma: LeafMap, mb: LeafMap, da: LeafMap, db: LeafMap,
                                      ka: LeafMap, kb: LeafMap,
                                      d: nat, n: Nibble, p: Path)
    requires DecidedBelow(ta, tb, ma, mb, da, db, d, n) && d < NIBBLES && |p| == NIBBLES && p[d] <= n
    requires Decided(KidMap(ta, ma, d, n), KidMap(tb, mb, d, n), ka, kb, p)
    requires !ta.Fork? ==> ma == TipMap(ta)
    requires !tb.Fork? ==> mb == TipMap(tb)
    ensures Decided(ma, mb, da + ka, db + kb, p)
  {
    if p[d] < n {
      assert Decided(ma, mb, da, db, p);
    }
  }

  lemma {:induction false} AllDecided(disk: Disk, ta: Tree, tb: Tree, pre: Path, ma: LeafMap, mb: LeafMap, da: LeafMap,
                                      db: LeafMap)
    requires Held(disk, ta, pre, ma) && Held(disk, tb, pre, mb) && |pre| < NIBBLES
    requires DecidedBelow(ta, tb, ma, mb, da, db, |pre|, SLOTS)
    ensures Diffed(ma, mb, da, db)
  {
    hide Canonical, TreeHash, Stored, Held;
    HeldFacts(disk, ta, pre, ma);
    HeldFacts(disk, tb, pre, mb);
    forall p ensures Decided(ma, mb, da, db, p) {
      if |p| == NIBBLES {
        var n: Nibble := p[|pre|];
        assert n < SLOTS;
      }
    }
  }

  /** No record of either tree is gone. */
  ghost predicate BothStored(disk: Disk, ta: Tree, tb: Tree, pre: Path)
  {
    Stored(disk, ta, pre) && Stored(disk, tb, pre)
  }

  /** The reference in a node's slot, or none for an absent or leaf node. */
  function SlotOf(n: Option<NodeRecord>, i: Nibble): Option<Child>
  {
    if n.Some? && n.value.InternalNode? && |n.value.children| == SLOTS then n.value.children[i] else None
  }

  lemma {:induction false} SlotIsKid(disk: Disk, t: Tree, pre: Path, m: LeafMap, i: Nibble)
    requires Held(disk, t, pre, m) && |pre| < NIBBLES
    ensures SlotOf(if t.Empty? then None else Some(NodeOf(t)), i) == RefOf(KidOf(t, i))
    ensures Held(disk, KidOf(t, i), pre + [i], KidMap(t, m, |pre|, i))
    ensures Stored(disk, t, pre) ==> Stored(disk, KidOf(t, i), pre + [i])
  {
    hide Canonical, TreeHash, Stored, Held;
    HeldFacts(disk, t, pre, m);
    HeldKid(disk, t, pre, m, i);
  }

  /** Decides every path of two subtrees: collected from each side that has it, or
      passed over because both sides commit to the same value. */
  method DiffChildren(backend: Backend, a: Option<Child>, b: Option<Child>, prefix: PrefixStack, out: Collected,
                      ghost ta: Tree, ghost tb: Tree, ghost ma: LeafMap, ghost mb: LeafMap)
    returns (r: Result<bool>, ghost da: LeafMap, ghost db: LeafMap)
    requires Held(backend.disk, ta, prefix.nibbles, ma) && Held(backend.disk, tb, prefix.nibbles, mb)
    requires a == RefOf(ta) && b == RefOf(tb)
    modifies prefix, out
    ensures r.Err? ==> Excused(backend, r.error, BothStored(backend.disk, ta, tb, old(prefix.nibbles)))
    ensures r.Ok? ==> prefix.nibbles == old(prefix.nibbles) && Diffed(ma, mb, da, db)
    ensures r.Ok? ==> out.olds == old(out.olds) + da && out.news == old(out.news) + db
    decreases NIBBLES - |prefix.nibbles|, 1
  {
    hide Held, Diffed, Decided, TreeHash, RefOf, KidOf, KidMap, DecidedBelow, SlotOf, NodeOf, TipMap, Stored;
    da, db := map[], map[];
    ghost var pre := prefix.nibbles;
    HeldFacts(backend.disk, ta, pre, ma);
    HeldFacts(backend.disk, tb, pre, mb);
    if a.None? && b.None? {
      SkipIsSound(backend.disk, ta, tb, pre, ma, mb);
      return Ok(true), da, db;
    }
    if a.Some? && b.Some? && a.value.hash == b.value.hash {
      SkipIsSound(backend.disk, ta, tb, pre, ma, mb);
      return Ok(true), da, db;
    }
    var na := LoadHeld(backend, a, prefix.nibbles, ta, ma);
    if na.Err? {
      return Err(na.error), da, db;
    }
    var nb := LoadHeld(backend, b, prefix.nibbles, tb, mb);
    if nb.Err? {
      return Err(nb.error), da, db;
    }
    NodeKinds(ta);
    NodeKinds(tb);
    if na.value.Some? && na.value.value.LeafNode? {
      out.olds := out.olds[na.value.value.path := na.value.value.info];
    }
    if nb.value.Some? && nb.value.value.LeafNode? {
      out.news := out.news[nb.value.value.path := nb.value.value.info];
    }
    da, db := TipMap(ta), TipMap(tb);
    StartDecided(backend.disk, ta, tb, pre, ma, mb);
    if !(na.value.Some? && na.value.value.InternalNode?) && !(nb.value.Some? && nb.value.value.InternalNode?) {
      return Ok(true), da, db;
    }
    r, da, db := DiffSlots(backend, na.value, nb.value, prefix, out, ta, tb, ma, mb, old(out.olds), old(out.news));
  }

  /** The children of two nodes, slot by slot. */
  method DiffSlots(backend: Backend, na: Option<NodeRecord>, nb: Option<NodeRecord>, prefix: PrefixStack,
                   out: Collected,
                   ghost ta: Tree, ghost tb: Tree, ghost ma: LeafMap, ghost mb: LeafMap, ghost olds: LeafMap,
                   ghost news: LeafMap)
    returns (r: Result<bool>, ghost da: LeafMap, ghost db: LeafMap)
    requires Held(backend.disk, ta, prefix.nibbles, ma) && Held(backend.disk, tb, prefix.nibbles, mb)
    requires out.olds == olds + TipMap(ta) && out.news == news + TipMap(tb)
    requires na == (if ta.Empty? then None else Some(NodeOf(ta))) && nb ==
             (if tb.Empty? then None else Some(NodeOf(tb)))
    requires |prefix.nibbles| < NIBBLES
    modifies prefix, out
    ensures r.Err? ==> Excused(backend, r.error, BothStored(backend.disk, ta, tb, old(prefix.nibbles)))
    ensures r.Ok? ==> prefix.nibbles == old(prefix.nibbles) && Diffed(ma, mb, da, db)
    ensures r.Ok? ==> out.olds == olds + da && out.news == news + db
    decreases NIBBLES - |prefix.nibbles|, 0
  {
    hide Held, Diffed, Decided, TreeHash, RefOf, KidOf, KidMap, DecidedBelow, SlotOf, NodeOf, TipMap, Stored;
    ghost var pre := prefix.nibbles;
    da, db := TipMap(ta), TipMap(tb);
    StartDecided(backend.disk, ta, tb, pre, ma, mb);
    var nib := 0;
    while nib < SLOTS
      invariant nib <= SLOTS && prefix.nibbles == pre
      invariant DecidedBelow(ta, tb, ma, mb, da, db, |pre|, nib)
      invariant out.olds == olds + da && out.news == news + db
    {
      var i: Nibble := nib;
      SlotIsKid(backend.disk, ta, pre, ma, i);
      SlotIsKid(backend.disk, tb, pre, mb, i);
      ghost var ka, kb;
      prefix.Push(i);
      r, ka, kb := DiffChildren(backend, SlotOf(na, i), SlotOf(nb, i), prefix, out,
                                KidOf(ta, i), KidOf(tb, i), KidMap(ta, ma, |pre|, i), KidMap(tb, mb, |pre|, i));
      if r.Err? {
        return;
      }
      prefix.Pop();
      NextDecided(backend.disk, ta, tb, pre, ma, mb, da, db, ka, kb, i);
      Reassociate(olds, da, ka);
      Reassociate(news, db, kb);
      da, db := da + ka, db + kb;
      nib := nib + 1;
    }
    AllDecided(backend.disk, ta, tb, pre, ma, mb, da, db);
    return Ok(true), da, db;
  }

  lemma {:induction false} NodeKinds(t: Tree)
    ensures t.Tip? ==> NodeOf(t) == LeafNode(t.path, t.info)
    ensures t.Fork? ==> NodeOf(t).InternalNode?
    ensures TipMap(t) == if t.Tip? then map[t.path := t.info] else map[]
  {
  }

  // ---------------------------------------------------- from leaves to changes

  /** The commitment at p differs between two contents. */
  ghost predicate Differs(m: LeafMap, m': LeafMap, p: Path)
  {
    (p in m) != (p in m') || (p in m && m[p].vh != m'[p].vh)
  }

  /** What changed from m to m', the reserved head leaf aside: the new value per
      path, or none for a deletion. */
  ghost function DiffOf(m: LeafMap, m': LeafMap, hp: Path): map<Path, Option<Value>>
  {
    map p | p in m.Keys + m'.Keys && p != hp && Differs(m, m', p) :: ValueIn(m', p)
  }

  /** The puts among the collected leaves. */
  ghost function PutsOf(olds: LeafMap, news: LeafMap, keys: set<Path>, hp: Path): map<Path, Option<Value>>
  {
    map p | p in keys && p in news && p != hp && !(p in olds && olds[p].vh == news[p].vh) :: ValueIn(news, p)
  }

  /** The deletions among the collected leaves. */
  ghost function DeletesOf(olds: LeafMap, news: LeafMap, keys: set<Path>, hp: Path): map<Path, Option<Value>>
  {
    map p | p in keys && p in olds && p != hp && p !in news :: None
  }

  /** The collected leaves hold exactly the difference. */
  lemma {:induction false} CollectedIsDiff(m: LeafMap, m': LeafMap, olds: LeafMap, news: LeafMap, hp: Path)
    requires Diffed(m, m', olds, news) && Committed(m) && Committed(m')
    ensures PutsOf(olds, news, news.Keys, hp) + DeletesOf(olds, news, olds.Keys, hp) == DiffOf(m, m', hp)
  {
    var found := PutsOf(olds, news, news.Keys, hp) + DeletesOf(olds, news, olds.Keys, hp);
    forall p ensures p in found <==> p in DiffOf(m, m', hp)
             ensures p in found ==> found[p] == DiffOf(m, m', hp)[p]
    {
      assert Decided(m, m', olds, news, p);
    }
  }

  /** The values of the collected new leaves are readable; only in a tree that is not
      whole may some be gone. */
  ghost predicate Valued(disk: Disk, news: LeafMap, whole: bool)
  {
    forall p :: p in news ==>
      |p| == NIBBLES &&
      (ReadValue(disk, p, news[p]) == Ok(ValueIn(news, p)) || (ReadValue(disk, p, news[p]) == Err(Missing) && !whole))
  }

  lemma {:induction false} CollectedValued(disk: Disk, t: Tree, m: LeafMap, m': LeafMap, olds: LeafMap, news: LeafMap)
    requires Held(disk, t, [], m') && Diffed(m, m', olds, news)
    ensures Valued(disk, news, Stored(disk, t, []))
  {
    hide Canonical, RecAt;
    CanonicalFacts(t, [], m');
    forall p | p in news
      ensures |p| == NIBBLES &&
              (ReadValue(disk, p, news[p]) == Ok(ValueIn(news, p)) ||
               (ReadValue(disk, p, news[p]) == Err(Missing) && !Stored(disk, t, [])))
    {
      assert Decided(m, m', olds, news, p);
      ValueAt(t, [], m', m'[p].vh, m'[p].valueVersion);
      assert RecAt(t, [], ValueKey(m'[p].vh, m'[p].valueVersion)).Some?;
    }
  }

  lemma {:induction false} PutsNext(olds: LeafMap, news: LeafMap, keys: set<Path>, hp: Path, p: Path)
    requires p in news
    ensures PutsOf(olds, news, {}, hp) == map[]
    ensures PutsOf(olds, news, keys + {p}, hp)
         == if p != hp && !(p in olds && olds[p].vh == news[p].vh)
            then PutsOf(olds, news, keys, hp)[p := ValueIn(news, p)]
            else PutsOf(olds, news, keys, hp)
  {
    hide ValueIn;
  }

  lemma {:induction false} DeletesNext(olds: LeafMap, news: LeafMap, keys: set<Path>, hp: Path, p: Path)
    requires p in olds
    ensures DeletesOf(olds, news, {}, hp) == map[]
    ensures DeletesOf(olds, news, keys + {p}, hp)
         == if p != hp && p !in news then DeletesOf(olds, news, keys, hp)[p := None]
            else DeletesOf(olds, news, keys, hp)
  {
  }

  /** Reads the values of new and rewritten leaves; relocated ones are left out. */
  method CollectPuts(backend: Backend, olds: map<Path, Info>, news: map<Path, Info>, hp: Path, ghost whole: bool)
    returns (r: Result<map<Path, Option<Value>>>)
    requires Valued(backend.disk, news, whole)
    ensures r.Ok? ==> r.value == PutsOf(olds, news, news.Keys, hp)
    ensures r.Err? ==> Excused(backend, r.error, whole)
  {
    var found: map<Path, Option<Value>> := map[];
    var rest := news.Keys;
    ghost var done: set<Path> := {};
    assert PutsOf(olds, news, {}, hp) == map[];
    while rest != {}
      invariant done + rest == news.Keys && found == PutsOf(olds, news, done, hp)
    {
      hide ReadValue, ValueIn, PutsOf;
      var p :| p in rest;
      PutsNext(olds, news, done, hp, p);
      rest, done := rest - {p}, done + {p};
      if p != hp && !(p in olds && olds[p].vh == news[p].vh) {
        var value := ReadValueRecord(backend, p, news[p]);
        if value.Err? {
          return Err(value.error);
        }
        found := found[p := value.value];
      }
    }
    assert done == news.Keys;
    return Ok(found);
  }

  method CollectDeletes(olds: map<Path, Info>, news: map<Path, Info>, hp: Path, puts: map<Path, Option<Value>>)
    returns (found: map<Path, Option<Value>>)
    ensures found == puts + DeletesOf(olds, news, olds.Keys, hp)
  {
    found := puts;
    var rest := olds.Keys;
    ghost var done: set<Path> := {};
    assert DeletesOf(olds, news, {}, hp) == map[];
    while rest != {}
      invariant done + rest == olds.Keys && found == puts + DeletesOf(olds, news, done, hp)
    {
      hide DeletesOf;
      var p :| p in rest;
      DeletesNext(olds, news, done, hp, p);
      rest, done := rest - {p}, done + {p};
      if p != hp && p !in news {
        found := found[p := None];
      }
    }
    assert done == olds.Keys;
  }

  lemma {:induction false} VersionHeld(s: Ledger, w: nat)
    requires Inv(s)
    ensures w >= |s.versions| ==> RootRecord(s.disk, w) == Err(Missing)
    ensures w < |s.versions| ==>
              Held(s.disk, s.versions[w].tree, [], s.versions[w].leaves) &&
              (RootRecord(s.disk, w) == Ok(TreeHash(s.versions[w].tree)) ||
               (RootRecord(s.disk, w) == Err(Missing) && w < s.horizon)) &&
              (RootChild(s.disk, TreeHash(s.versions[w].tree), w) == Ok(RefOf(s.versions[w].tree)) ||
               (RootChild(s.disk, TreeHash(s.versions[w].tree), w) == Err(Missing) && w < s.horizon))
    ensures s.horizon <= w < |s.versions| ==> Stored(s.disk, s.versions[w].tree, [])
  {
    hide Canonical, TreeHash, RecAt, Load, Evolves, MarksTrue, Accounted, Stored;
    if w < |s.versions| {
      assert Remnant(s, w) && WellFormed(s.versions[w], w);
      var snap := s.versions[w];
      CanonicalFacts(snap.tree, [], snap.leaves);
      RootHash(snap.tree, snap.leaves);
      if s.horizon <= w {
        assert Readable(s, w);
      }
      if !snap.tree.Empty? {
        OwnRemains(s.disk, snap.tree, [], snap.leaves);
      }
    }
  }

  /** The sorted difference of two held trees. */
  method ChangesBetween(backend: Backend, a: Option<Child>, b: Option<Child>, hp: Path,
                        ghost ta: Tree, ghost tb: Tree, ghost ma: LeafMap, ghost mb: LeafMap)
    returns (r: Result<seq<Entry<Option<Value>>>>)
    requires Held(backend.disk, ta, [], ma) && Held(backend.disk, tb, [], mb) && a == RefOf(ta) && b == RefOf(tb)
    ensures r.Err? ==> Excused(backend, r.error, BothStored(backend.disk, ta, tb, []))
    ensures r.Ok? ==> Lists(r.value, DiffOf(ma, mb, hp))
  {
    hide Canonical, Stored, Remains, TreeHash, RefOf, Lists, Diffed, PutsOf, DeletesOf, DiffOf, Valued;
    var out := new Collected();
    var prefix := new PrefixStack();
    var walked, da, db := DiffChildren(backend, a, b, prefix, out, ta, tb, ma, mb);
    if walked.Err? {
      return Err(walked.error);
    }
    assert out.olds == da && out.news == db;
    CollectedValued(backend.disk, tb, ma, mb, da, db);
    CollectedIsDiff(ma, mb, da, db, hp);
    var puts := CollectPuts(backend, out.olds, out.news, hp, Stored(backend.disk, tb, []));
    if puts.Err? {
      return Err(puts.error);
    }
    var found := CollectDeletes(out.olds, out.news, hp, puts.value);
    DiffPaths(backend.disk, ta, tb, ma, mb, hp);
    var changes := SortEntries(found);
    return Ok(changes);
  }

  lemma {:induction false} DiffPaths(disk: Disk, ta: Tree, tb: Tree, ma: LeafMap, mb: LeafMap, hp: Path)
    requires Held(disk, ta, [], ma) && Held(disk, tb, [], mb)
    ensures forall p :: p in DiffOf(ma, mb, hp) ==> |p| == NIBBLES
  {
    hide Canonical, Remains;
    CanonicalFacts(ta, [], ma);
    CanonicalFacts(tb, [], mb);
  }

  /** The changes the commit of version v made, in path order. */
  method ChangesAt(s: Store, v: nat) returns (r: Result<seq<Entry<Option<Value>>>>)
    requires s.Valid()
    ensures v == 0 || v > s.version ==> r == Err(Invalid)
    ensures 0 < v <= s.version && r.Ok? ==>
              Lists(r.value, DiffOf(s.versions[v - 1].leaves, s.versions[v].leaves, s.pathOf(HISTORY_KEY)))
    ensures 0 < v <= s.version && r.Err? ==> Excused(s.backend, r.error, s.horizon < v)
    ensures 0 < v <= s.version && RootRecord(s.backend.disk, v - 1).Err? ==> s.backend.Answers(r, Err(Missing))
  {
    hide Inv, TreeHash, RefOf, RootRecord, RootChild, Lists, Held, DiffOf, Stored;
    if v == 0 || v > s.version {
      return Err(Invalid);
    }
    VersionHeld(s.State(), v - 1);
    var oldRoot := LoadRootRecord(s.backend, v - 1);
    if oldRoot.Err? {
      return Err(oldRoot.error);
    }
    VersionHeld(s.State(), v);
    var newRoot := LoadRootRecord(s.backend, v);
    if newRoot.Err? {
      return Err(newRoot.error);
    }
    var a := LoadRootChild(s.backend, oldRoot.value, v - 1);
    if a.Err? {
      return Err(a.error);
    }
    var b := LoadRootChild(s.backend, newRoot.value, v);
    if b.Err? {
      return Err(b.error);
    }
    r := ChangesBetween(s.backend, a.value, b.value, s.pathOf(HISTORY_KEY),
                        s.versions[v - 1].tree, s.versions[v].tree, s.versions[v - 1].leaves, s.versions[v].leaves);
  }

  /** A path is listed if and only if its commitment changed, the head leaf aside; what is
      listed is the new value, or none for a path that is gone. */
  lemma {:induction false} ChangesMinimal(m: LeafMap, m': LeafMap, hp: Path, p: Path)
    requires Committed(m')
    ensures p in DiffOf(m, m', hp) <==> p != hp && Lookup(Commitments(m), p) != Lookup(Commitments(m'), p)
    ensures p in DiffOf(m, m', hp) ==> (DiffOf(m, m', hp)[p].None? <==> p !in m')
    ensures p in DiffOf(m, m', hp) && p in m' ==> m'[p].vh == ValueMac(p, DiffOf(m, m', hp)[p].value)
  {
  }

  /** The extracted changes replay: applied to the old contents they give the new
      ones, the head leaf aside. */
  lemma {:induction false} ChangesReplay(m: LeafMap, m': LeafMap, hp: Path, v: nat, p: Path)
    requires Committed(m) && Committed(m') && p != hp
    ensures var out := Override(m, UpdatesOf(DiffOf(m, m', hp)), v);
            (p in out <==> p in m') && (p in m' ==> out[p].vh == m'[p].vh)
  {
    assert p in m' ==> m'[p].vh == ValueMac(p, m'[p].vh.plaintext);
  }
}

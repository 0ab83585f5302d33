/** Sorted update lists, how they group by nibble, and the contents they produce. */
module Updates {
  import opened Hashing
  import opened SparseMerkle
  import opened StoredTree
  import opened Records
  import opened CopyOnWrite

  /** One element of a path-sorted list. */
  datatype Entry<+T> = Entry(path: FullPath, item: T)

  /** A deduplicated change: a commitment to insert, or none to delete. */
  type Update = Entry<Option<Digest>>
  /** A leaf to place in a fresh subtree. */
  type Pair = Entry<Info>

  type UpdateMap = map<Path, Option<Digest>>

  ghost predicate Ascending<T>(es: seq<Entry<T>>)
  {
    forall i, j :: 0 <= i < j < |es| ==> PathLess(es[i].path, es[j].path)
  }

  /** es lists m: strictly ascending paths, every entry once. */
  ghost predicate Lists<T(!new)>(es: seq<Entry<T>>, m: map<Path, T>)
  {
    Ascending(es) &&
    (forall i :: 0 <= i < |es| ==> es[i].path in m && m[es[i].path] == es[i].item) &&
    (forall p :: p in m ==> exists i :: 0 <= i < |es| && es[i].path == p)
  }

  /** All entries lie below pre. */
  ghost predicate AllUnder<T>(es: seq<Entry<T>>, pre: Path)
  {
    |pre| <= NIBBLES && forall i :: 0 <= i < |es| ==> pre <= es[i].path
  }

  // -------------------------------------------------------------- path order

  lemma {:induction false} PathOrder(a: Path, b: Path)
    requires |a| == |b|
    ensures a != b <==> PathLess(a, b) || PathLess(b, a)
    ensures !(PathLess(a, b) && PathLess(b, a))
    decreases |a|
  {
    if |a| > 0 && a[0] == b[0] {
      assert a == [a[0]] + a[1..] && b == [b[0]] + b[1..];
      PathOrder(a[1..], b[1..]);
    }
  }

  lemma {:induction false} PathLessTrans(a: Path, b: Path, c: Path)
    requires PathLess(a, b) && PathLess(b, c)
    ensures PathLess(a, c)
    decreases |a|
  {
    if a[0] == b[0] && b[0] == c[0] {
      PathLessTrans(a[1..], b[1..], c[1..]);
    }
  }

  /** Below a common prefix the next nibble never decreases. */
  lemma {:induction false} NextNibble(a: Path, b: Path, pre: Path)
    requires PathLess(a, b) && pre <= a && pre <= b && |pre| < |a| && |pre| < |b|
    ensures a[|pre|] <= b[|pre|]
    decreases |pre|
  {
    if pre != [] {
      assert pre[0] == a[0] == b[0];
      NextNibble(a[1..], b[1..], pre[1..]);
    }
  }

  // ------------------------------------------------------------ nibble groups

  /** The end of the run of entries sharing entry i's nibble at depth d. */
  method GroupEnd<T>(es: seq<Entry<T>>, i: nat, d: nat) returns (j: nat)
    requires i < |es| && d < NIBBLES
    ensures i < j <= |es|
    ensures forall x :: i <= x < j ==> es[x].path[d] == es[i].path[d]
    ensures j < |es| ==> es[j].path[d] != es[i].path[d]
  {
    j := i + 1;
    while j < |es| && es[j].path[d] == es[i].path[d]
      invariant i < j <= |es|
      invariant forall x :: i <= x < j ==> es[x].path[d] == es[i].path[d]
    {
      j := j + 1;
    }
  }

  /** Entry x starts a nibble group: all earlier entries have smaller nibbles. */
  ghost predicate GroupStart<T>(es: seq<Entry<T>>, i: nat, d: nat)
    requires d < NIBBLES
  {
    i <= |es| && (i < |es| ==> forall x :: 0 <= x < i ==> es[x].path[d] < es[i].path[d])
  }

  lemma {:induction false} GroupIsSub<T(!new)>(es: seq<Entry<T>>, m: map<Path, T>, pre: Path, i: nat, j: nat)
    requires Lists(es, m) && AllUnder(es, pre) && |pre| < NIBBLES
    requires i < j <= |es| && GroupStart(es, i, |pre|)
    requires forall x :: i <= x < j ==> es[x].path[|pre|] == es[i].path[|pre|]
    requires j < |es| ==> es[j].path[|pre|] != es[i].path[|pre|]
    ensures Lists(es[i..j], Sub(m, |pre|, es[i].path[|pre|]))
    ensures AllUnder(es[i..j], pre + [es[i].path[|pre|]])
    ensures GroupStart(es, j, |pre|)
    ensures j < |es| ==> es[i].path[|pre|] < es[j].path[|pre|]
  {
    var d, n := |pre|, es[i].path[|pre|];
    var g := es[i..j];
    forall x | j <= x < |es| ensures n < es[x].path[d] {
      NextNibble(es[i].path, es[j].path, pre);
      if j < x {
        NextNibble(es[j].path, es[x].path, pre);
      }
    }
    forall p | p in Sub(m, d, n) ensures exists x :: 0 <= x < |g| && g[x].path == p {
      var y :| 0 <= y < |es| && es[y].path == p;
      assert i <= y < j;
      assert g[y - i].path == p;
    }
    forall x | 0 <= x < |g| ensures pre + [n] <= g[x].path {
      assert g[x] == es[i + x];
      ExtendsPrefix(pre, g[x].path);
    }
    forall x | 0 <= x < j && j < |es| ensures es[x].path[d] < es[j].path[d] {
      if x < i {
        assert es[x].path[d] < es[i].path[d];
      }
    }
  }

  lemma {:induction false} ExtendsPrefix(pre: Path, p: Path)
    requires pre <= p && |pre| < |p|
    ensures pre + [p[|pre|]] <= p
  {
    assert p[..|pre| + 1] == pre + [p[|pre|]];
  }

  /** Nibbles strictly between two consecutive groups have no entries. */
  lemma {:induction false} NoEntries<T(!new)>(es: seq<Entry<T>>, m: map<Path, T>, pre: Path, i: nat, n: Nibble)
    requires Lists(es, m) && AllUnder(es, pre) && |pre| < NIBBLES && GroupStart(es, i, |pre|)
    requires forall x :: 0 <= x < i ==> es[x].path[|pre|] != n
    requires i < |es| ==> n < es[i].path[|pre|]
    ensures Sub(m, |pre|, n) == map[]
  {
    forall p | p in m ensures p[|pre|] != n {
      var y :| 0 <= y < |es| && es[y].path == p;
      if i < y {
        NextNibble(es[i].path, es[y].path, pre);
      }
    }
  }

  // ---------------------------------------------------------------- contents

  /** Contents m after the updates u of version v; a rewrite with the identical
      commitment keeps the old value record. */
  ghost function Override(m: LeafMap, u: UpdateMap, v: nat): LeafMap
  {
    map p | p in m.Keys + u.Keys && (p in u ==> u[p].Some?) ::
      if p !in u || (p in m && m[p].vh == u[p].value) then m[p] else Info(u[p].value, v)
  }

  lemma {:induction false} SubOverride(m: LeafMap, u: UpdateMap, v: nat, d: nat, n: Nibble)
    ensures Sub(Override(m, u, v), d, n) == Override(Sub(m, d, n), Sub(u, d, n), v)
  {
  }

  lemma {:induction false} OverrideNothing(m: LeafMap, v: nat)
    ensures Override(m, map[], v) == m
  {
  }

  /** Inserts carry the commitment of the value prepared for them. */
  ghost predicate Prepared(u: UpdateMap, inserts: map<Path, Value>)
  {
    forall p :: p in u && u[p].Some? ==> p in inserts && u[p].value == ValueMac(p, inserts[p])
  }

  /** Leaves whose value is written at v have that value prepared. */
  ghost predicate Sealed(m: LeafMap, inserts: map<Path, Value>, v: nat)
  {
    forall p :: p in m && m[p].valueVersion == v ==> p in inserts && m[p].vh == ValueMac(p, inserts[p])
  }

  ghost predicate UpdatesUnder(u: UpdateMap, pre: Path)
  {
    |pre| <= NIBBLES && forall p :: p in u ==> |p| == NIBBLES && pre <= p
  }

  lemma {:induction false} OverrideFacts(m: LeafMap, u: UpdateMap, v: nat, pre: Path, inserts: map<Path, Value>)
    requires Under(m, pre) && Committed(m) && UpdatesUnder(u, pre) && Prepared(u, inserts) && Sealed(m, inserts, v)
    ensures var m' := Override(m, u, v);
            Under(m', pre) && Committed(m') && Keeps(m, m', v) && Sealed(m', inserts, v)
  {
  }

  /** Same commitments before and after means nothing changed at all. */
  lemma {:induction false} OverrideChanges(m: LeafMap, u: UpdateMap, v: nat)
    requires Commitments(Override(m, u, v)) == Commitments(m)
    ensures Override(m, u, v) == m
  {
    var m' := Override(m, u, v);
    SameKeys(m', m);
    forall p | p in m ensures m'[p] == m[p] {
      assert Commitments(m')[p] == Commitments(m)[p];
    }
  }

}

/** Folding a sorted update list into an empty or one-leaf subtree's contents. */
module Merging {
  import opened Hashing
  import opened SparseMerkle
  import opened Updates

  /** The first i updates of the list as a map. */
  ghost function Upto(u: UpdateMap, es: seq<Update>, i: nat): UpdateMap
  {
    map p | p in u && exists x :: 0 <= x < i && x < |es| && es[x].path == p :: u[p]
  }

  lemma {:induction false} UptoAll(u: UpdateMap, es: seq<Update>)
    requires Lists(es, u)
    ensures Upto(u, es, |es|) == u && Upto(u, es, 0) == map[]
  {
  }

  lemma {:induction false} UptoNext(u: UpdateMap, es: seq<Update>, i: nat)
    requires Lists(es, u) && i < |es|
    ensures Upto(u, es, i + 1) == Upto(u, es, i)[es[i].path := es[i].item]
    ensures es[i].path !in Upto(u, es, i)
  {
    forall x | 0 <= x < i ensures es[x].path != es[i].path {
      PathOrder(es[x].path, es[i].path);
    }
  }

  lemma {:induction false} OverrideNext(m: LeafMap, u: UpdateMap, v: nat, p: Path, item: Option<Digest>)
    requires p !in u
    ensures Override(m, u[p := item], v)
         == if item.None? then Override(m, u, v) - {p}
            else Override(m, u, v)[p := if p in m && m[p].vh == item.value then m[p] else Info(item.value, v)]
  {
  }

  /** The leaves that updates give to a subtree without any. */
  method InsertsOf(es: seq<Update>, v: nat, ghost u: UpdateMap) returns (pairs: seq<Pair>)
    requires Lists(es, u)
    ensures Lists(pairs, Override(map[], u, v))
  {
    hide Override, Upto;
    pairs := [];
    UptoAll(u, es);
    OverrideNothing(map[], v);
    for i := 0 to |es|
      invariant Lists(pairs, Override(map[], Upto(u, es, i), v))
      invariant forall x :: 0 <= x < |pairs| && i < |es| ==> PathLess(pairs[x].path, es[i].path)
    {
      UptoNext(u, es, i);
      OverrideNext(map[], Upto(u, es, i), v, es[i].path, es[i].item);
      ghost var before := Override(map[], Upto(u, es, i), v);
      NotListed(pairs, before, es[i].path);
      if es[i].item.Some? {
        AppendLists(pairs, before, es[i].path, Info(es[i].item.value, v));
        pairs := pairs + [Entry(es[i].path, Info(es[i].item.value, v))];
      } else {
        assert before - {es[i].path} == before;
      }
      NextAbove(es, i, pairs);
    }
  }

  lemma {:induction false} NextAbove(es: seq<Update>, i: nat, pairs: seq<Pair>)
    requires Ascending(es) && i < |es|
    requires forall x :: 0 <= x < |pairs| ==> pairs[x].path == es[i].path || PathLess(pairs[x].path, es[i].path)
    ensures forall x :: 0 <= x < |pairs| && i + 1 < |es| ==> PathLess(pairs[x].path, es[i + 1].path)
  {
    forall x | 0 <= x < |pairs| && i + 1 < |es| ensures PathLess(pairs[x].path, es[i + 1].path) {
      if pairs[x].path != es[i].path {
        PathLessTrans(pairs[x].path, es[i].path, es[i + 1].path);
      }
    }
  }

  lemma {:induction false} NotListed(pairs: seq<Pair>, m: LeafMap, p: FullPath)
    requires Lists(pairs, m) && forall x :: 0 <= x < |pairs| ==> PathLess(pairs[x].path, p)
    ensures p !in m
  {
    PathOrder(p, p);
  }

  lemma {:induction false} AppendLists(pairs: seq<Pair>, m: LeafMap, p: FullPath, info: Info)
    requires Lists(pairs, m) && p !in m && forall x :: 0 <= x < |pairs| ==> PathLess(pairs[x].path, p)
    ensures Lists(pairs + [Entry(p, info)], m[p := info])
  {
    var es, m' := pairs + [Entry(p, info)], m[p := info];
    forall q | q in m' ensures exists x :: 0 <= x < |es| && es[x].path == q {
      if q == p {
        assert es[|pairs|].path == q;
      } else {
        var x :| 0 <= x < |pairs| && pairs[x].path == q;
        assert es[x].path == q;
      }
    }
  }

  /** The leaves of a one-leaf subtree once the updates are applied. */
  method MergeLeaf(leaf: Pair, es: seq<Update>, v: nat, ghost u: UpdateMap) returns (merged: map<Path, Info>)
    requires Lists(es, u)
    ensures merged == Override(map[leaf.path := leaf.item], u, v)
  {
    hide Override, Upto;
    merged := map[leaf.path := leaf.item];
    ghost var m: LeafMap := merged;
    UptoAll(u, es);
    OverrideNothing(m, v);
    for i := 0 to |es|
      invariant merged == Override(m, Upto(u, es, i), v)
    {
      UptoNext(u, es, i);
      OverrideNext(m, Upto(u, es, i), v, es[i].path, es[i].item);
      if es[i].item.Some? {
        var vv := v;
        if es[i].path == leaf.path && es[i].item.value == leaf.item.vh {
          vv := leaf.item.valueVersion;
        }
        merged := merged[es[i].path := Info(es[i].item.value, vv)];
      } else {
        merged := merged - {es[i].path};
      }
    }
  }

  /** Lists a map in ascending path order. */
  method SortEntries<T(!new)>(m: map<Path, T>) returns (es: seq<Entry<T>>)
    requires forall p :: p in m ==> |p| == NIBBLES
    ensures Lists(es, m)
  {
    es := [];
    var rest := m.Keys;
    ghost var done: map<Path, T> := map[];
    while rest != {}
      invariant rest <= m.Keys && done.Keys == m.Keys - rest && (forall p :: p in done ==> done[p] == m[p])
      invariant Lists(es, done)
    {
      hide Lists;
      var p :| p in rest;
      es := InsertEntry(es, p, m[p], done);
      done, rest := done[p := m[p]], rest - {p};
    }
    assert done == m;
  }

  method InsertEntry<T(!new)>(es: seq<Entry<T>>, p: FullPath, item: T, ghost m: map<Path,
                       T>) returns (out: seq<Entry<T>>)
    requires Lists(es, m) && p !in m
    ensures Lists(out, m[p := item])
  {
    var k := 0;
    while k < |es| && PathLess(es[k].path, p)
      invariant 0 <= k <= |es|
      invariant forall x :: 0 <= x < k ==> PathLess(es[x].path, p)
    {
      k := k + 1;
    }
    out := es[..k] + [Entry(p, item)] + es[k..];
    InsertedLists(es, m, p, item, k);
  }

  lemma {:induction false} InsertedLists<T(!new)>(es: seq<Entry<T>>, m: map<Path, T>, p: FullPath, item: T, k: nat)
    requires Lists(es, m) && p !in m && k <= |es|
    requires forall x :: 0 <= x < k ==> PathLess(es[x].path, p)
    requires k < |es| ==> !PathLess(es[k].path, p)
    ensures Lists(es[..k] + [Entry(p, item)] + es[k..], m[p := item])
  {
    forall x | k <= x < |es| ensures PathLess(p, es[x].path) {
      PathOrder(p, es[k].path);
      if k < x {
        PathLessTrans(p, es[k].path, es[x].path);
      }
    }
    hide PathLess;
    InsertedAscending(es, p, item, k);
    InsertedMembers(es, m, p, item, k);
  }

  lemma {:induction false} InsertedMembers<T(!new)>(es: seq<Entry<T>>, m: map<Path, T>, p: FullPath, item: T, k: nat)
    requires Lists(es, m) && p !in m && k <= |es|
    ensures var out, m' := es[..k] + [Entry(p, item)] + es[k..], m[p := item];
            && (forall i :: 0 <= i < |out| ==> out[i].path in m' && m'[out[i].path] == out[i].item)
            && (forall q :: q in m' ==> exists i :: 0 <= i < |out| && out[i].path == q)
  {
    hide PathLess;
    var out, m' := es[..k] + [Entry(p, item)] + es[k..], m[p := item];
    forall q | q in m' ensures exists x :: 0 <= x < |out| && out[x].path == q {
      if q == p {
        assert out[k].path == q;
      } else {
        var x :| 0 <= x < |es| && es[x].path == q;
        assert out[if x < k then x else x + 1].path == q;
      }
    }
  }

  lemma {:induction false} InsertedAscending<T>(es: seq<Entry<T>>, p: FullPath, item: T, k: nat)
    requires Ascending(es) && k <= |es|
    requires forall x :: 0 <= x < k ==> PathLess(es[x].path, p)
    requires forall x :: k <= x < |es| ==> PathLess(p, es[x].path)
    ensures Ascending(es[..k] + [Entry(p, item)] + es[k..])
  {
  }
}

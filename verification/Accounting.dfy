/** What the accumulator of a commit holds while a batch is folded in: the fresh
    records of the tree built so far, and the records it has superseded.  */
module Accounting {
  import opened Hashing
  import opened SparseMerkle
  import opened StoredTree
  import opened Records
  import opened CopyOnWrite

  /** The accumulator's fields as a value. */
  datatype Acc = Acc(pending: map<NodeRef, NodeRecord>, values: map<Digest, Value>, stale: seq<RecordKey>)

  /** The record the flush would write under k. */
  function FreshAt(a: Acc, v: nat, k: RecordKey): Option<Record>
  {
    match k
    case NodeKey(_, _) => if k in a.pending then Some(NodeRec(a.pending[k])) else None
    case ValueKey(vh, ver) => if ver == v && vh in a.values then Some(ValueRec(a.values[vh])) else None
    case _ => None
  }

  /** The part of t written at version v. */
  ghost function NewPart(t: Tree, pre: Path, k: RecordKey, v: nat): Option<Record>
  {
    if Born(k) == v then RecAt(t, pre, k) else None
  }

  /** Below pre the accumulator holds exactly the records of t written at v. */
  ghost predicate Holds(a: Acc, v: nat, t: Tree, pre: Path)
  {
    forall k {:trigger FreshAt(a, v, k)} :: Within(k, pre) ==> FreshAt(a, v, k) == NewPart(t, pre, k, v)
  }

  /** Outside pre nothing was touched. */
  ghost predicate SameOutside(a: Acc, a': Acc, v: nat, pre: Path)
  {
    forall k {:trigger FreshAt(a', v, k)} :: !Within(k, pre) ==> FreshAt(a', v, k) == FreshAt(a, v, k)
  }

  /** A persisted record of t that t' no longer has. */
  ghost predicate Retired(t: Tree, t': Tree, pre: Path, v: nat, k: RecordKey)
  {
    RecAt(t, pre, k).Some? && Born(k) < v && RecAt(t', pre, k).None?
  }

  ghost predicate NoDuplicates<T>(s: seq<T>)
  {
    forall i, j :: 0 <= i < j < |s| ==> s[i] != s[j]
  }

  /** The list marks each record retired between t and t' once, and nothing else. */
  ghost predicate Marks(list: seq<RecordKey>, t: Tree, t': Tree, pre: Path, v: nat)
  {
    NoDuplicates(list) && forall k {:trigger k in list} :: k in list <==> Retired(t, t', pre, v, k)
  }

  /** Stale marks appended between two accumulator states. */
  ghost function Added(a: Acc, a': Acc): seq<RecordKey>
    requires |a.stale| <= |a'.stale|
  {
    a'.stale[|a.stale|..]
  }

  /** The accumulator went from holding t to holding t' at pre. */
  ghost predicate Moves(a: Acc, a': Acc, v: nat, t: Tree, t': Tree, pre: Path)
  {
    Holds(a', v, t', pre) && SameOutside(a, a', v, pre) &&
    a.stale <= a'.stale && Marks(Added(a, a'), t, t', pre, v)
  }

  lemma {:induction false} MovesNowhere(a: Acc, v: nat, t: Tree, pre: Path)
    requires Holds(a, v, t, pre)
    ensures Moves(a, a, v, t, t, pre)
  {
  }

  // --------------------------------------------------- moving child by child

  /** k belongs strictly below pre. */
  predicate Deeper(k: RecordKey, pre: Path)
  {
    Within(k, pre) && |pre| < |Place(k)|
  }

  ghost function SlotOf(k: RecordKey, pre: Path): Nibble
    requires Deeper(k, pre)
  {
    Place(k)[|pre|]
  }

  lemma {:induction false} DeeperWithin(k: RecordKey, pre: Path, i: Nibble)
    ensures Within(k, pre + [i]) <==> Deeper(k, pre) && SlotOf(k, pre) == i
  {
    if Within(k, pre + [i]) {
      assert (pre + [i])[|pre|] == i;
      assert pre <= pre + [i] <= Place(k);
    }
    if Deeper(k, pre) && SlotOf(k, pre) == i {
      assert Place(k)[..|pre| + 1] == pre + [i];
    }
  }

  /** The stale list gained exactly what the children retired. */
  ghost predicate KidMarks(list: seq<RecordKey>, kids: seq<Tree>, kids': seq<Tree>, pre: Path, v: nat)
    requires |kids| == SLOTS && |kids'| == SLOTS
  {
    NoDuplicates(list) &&
    forall k {:trigger k in list} :: k in list <==>
      Deeper(k, pre) && Retired(kids[SlotOf(k, pre)], kids'[SlotOf(k, pre)], pre + [SlotOf(k, pre)], v, k)
  }

  /** Strictly below pre the accumulator holds the fresh records of the children. */
  ghost predicate KidsHold(a: Acc, v: nat, kids: seq<Tree>, pre: Path)
    requires |kids| == SLOTS
  {
    forall k {:trigger FreshAt(a, v, k)} :: Deeper(k, pre) ==>
      FreshAt(a, v, k) == NewPart(kids[SlotOf(k, pre)], pre + [SlotOf(k, pre)], k, v)
  }

  ghost predicate SameAtOrOutside(a: Acc, a': Acc, v: nat, pre: Path)
  {
    forall k {:trigger FreshAt(a', v, k)} :: !Deeper(k, pre) ==> FreshAt(a', v, k) == FreshAt(a, v, k)
  }

  ghost predicate KidsMove(a: Acc, a': Acc, v: nat, kids: seq<Tree>, kids': seq<Tree>, pre: Path)
    requires |kids| == SLOTS && |kids'| == SLOTS
  {
    KidsHold(a', v, kids', pre) && SameAtOrOutside(a, a', v, pre) &&
    a.stale <= a'.stale && KidMarks(Added(a, a'), kids, kids', pre, v)
  }

  lemma {:induction false} ForkRecAt(t: Tree, pre: Path, k: RecordKey)
    requires t.Fork? && |t.kids| == SLOTS
    ensures RecAt(t, pre, k) == if k == NodeKey(t.ver, pre) then Some(NodeRec(InternalNode(Refs(t.kids))))
                                else if Deeper(k, pre) then RecAt(t.kids[SlotOf(k, pre)], pre + [SlotOf(k, pre)], k)
                                else None
  {
  }

  lemma {:induction false} KidsMoveStart(a: Acc, v: nat, t: Tree, pre: Path)
    requires t.Fork? && |t.kids| == SLOTS && Holds(a, v, t, pre)
    ensures KidsMove(a, a, v, t.kids, t.kids, pre)
  {
    hide RecAt;
    forall k | Deeper(k, pre)
      ensures FreshAt(a, v, k) == NewPart(t.kids[SlotOf(k, pre)], pre + [SlotOf(k, pre)], k, v)
    {
      ForkRecAt(t, pre, k);
    }
  }

  /** Before its turn a child's own part is what the accumulator holds for it. */
  lemma {:induction false} KidHolds(a: Acc, v: nat, kids: seq<Tree>, pre: Path, i: Nibble)
    requires |kids| == SLOTS && KidsHold(a, v, kids, pre)
    ensures Holds(a, v, kids[i], pre + [i])
  {
    hide RecAt;
    forall k | Within(k, pre + [i]) ensures FreshAt(a, v, k) == NewPart(kids[i], pre + [i], k, v) {
      DeeperWithin(k, pre, i);
    }
  }

  lemma {:induction false} KidStep(a: Acc, a1: Acc, a2: Acc, v: nat, kids: seq<Tree>, kids1: seq<Tree>, pre: Path,
                                   i: Nibble, t': Tree, m: LeafMap)
    requires |kids| == SLOTS && |kids1| == SLOTS
    requires KidsMove(a, a1, v, kids, kids1, pre) && kids1[i] == kids[i]
    requires Moves(a1, a2, v, kids[i], t', pre + [i])
    requires Canonical(kids[i], pre + [i], m) && Committed(m)
    ensures KidsMove(a, a2, v, kids, kids1[i := t'], pre)
  {
    hide RecAt, Canonical, Committed;
    var kids2 := kids1[i := t'];
    forall k | Deeper(k, pre)
      ensures FreshAt(a2, v, k) == NewPart(kids2[SlotOf(k, pre)], pre + [SlotOf(k, pre)], k, v)
    {
      DeeperWithin(k, pre, i);
      assert FreshAt(a1, v, k) == NewPart(kids1[SlotOf(k, pre)], pre + [SlotOf(k, pre)], k, v);
    }
    forall k | !Deeper(k, pre) ensures FreshAt(a2, v, k) == FreshAt(a, v, k) {
      DeeperWithin(k, pre, i);
      assert FreshAt(a1, v, k) == FreshAt(a, v, k);
    }
    KidStepMarks(Added(a, a1), Added(a1, a2), v, kids, kids1, pre, i, t', m);
    assert Added(a, a2) == Added(a, a1) + Added(a1, a2);
  }

  lemma {:induction false} KidStepMarks(l1: seq<RecordKey>, l2: seq<RecordKey>, v: nat, kids: seq<Tree>,
                                        kids1: seq<Tree>, pre: Path, i: Nibble, t': Tree, m: LeafMap)
    requires |kids| == SLOTS && |kids1| == SLOTS && kids1[i] == kids[i]
    requires KidMarks(l1, kids, kids1, pre, v) && Marks(l2, kids[i], t', pre + [i], v)
    requires Canonical(kids[i], pre + [i], m) && Committed(m)
    ensures KidMarks(l1 + l2, kids, kids1[i := t'], pre, v)
  {
    hide RecAt, Canonical, Committed;
    var kids2 := kids1[i := t'];
    forall k ensures k in l1 + l2 <==>
                     Deeper(k, pre) &&
                     Retired(kids[SlotOf(k, pre)], kids2[SlotOf(k, pre)], pre + [SlotOf(k, pre)], v, k)
             ensures !(k in l1 && k in l2)
    {
      DeeperWithin(k, pre, i);
      if k in l2 {
        RecAtWithin(kids[i], pre + [i], m, k);
      }
    }
    JoinDistinct(l1, l2);
  }

  lemma {:induction false} JoinDistinct<T>(s1: seq<T>, s2: seq<T>)
    requires NoDuplicates(s1) && NoDuplicates(s2) && forall x :: !(x in s1 && x in s2)
    ensures NoDuplicates(s1 + s2)
  {
    var s := s1 + s2;
    forall i, j | 0 <= i < j < |s| ensures s[i] != s[j] {
      if i < |s1| <= j {
        assert s[i] == s1[i] && s[j] == s2[j - |s1|];
        assert s1[i] in s1 && s2[j - |s1|] in s2;
      }
    }
  }

  // ------------------------------------------------------------- operations

  /** Retires a node: a record of this commit is dropped, a persisted one marked. */
  function DropNode(a: Acc, v: nat, k: NodeRef): Acc
  {
    if Born(k) == v then a.(pending := a.pending - {k}) else a.(stale := a.stale + [k])
  }

  /** Retires a value record in the same way. */
  function DropValue(a: Acc, v: nat, info: Info): Acc
  {
    if info.valueVersion == v then a.(values := a.values - {info.vh})
    else a.(stale := a.stale + [ValueKey(info.vh, info.valueVersion)])
  }

  function PutNode(a: Acc, k: NodeRef, n: NodeRecord): Acc
  {
    a.(pending := a.pending[k := n])
  }

  /** Places a leaf; a value written by this commit is emitted unless it already is. */
  function PutLeafAt(a: Acc, v: nat, pre: Path, path: Path, info: Info, value: Value): Acc
  {
    var b := if info.valueVersion == v && info.vh !in a.values then a.(values := a.values[info.vh := value]) else a;
    PutNode(b, NodeKey(v, pre), LeafNode(path, info))
  }

  // ------------------------------------------------- closing an internal node

  /** The children moved and the node itself is rewritten. */
  lemma {:induction false} FinishFork(a: Acc, a1: Acc, v: nat, t: Tree, kids': seq<Tree>, pre: Path)
    requires t.Fork? && |t.kids| == SLOTS && |kids'| == SLOTS && t.ver <= v && Holds(a, v, t, pre)
    requires KidsMove(a, a1, v, t.kids, kids', pre)
    ensures var a2 := DropNode(a1, v, NodeKey(t.ver, pre));
            Moves(a, PutNode(a2, NodeKey(v, pre), InternalNode(Refs(kids'))), v, t, Fork(v, kids'), pre)
  {
    hide RecAt;
    var own, t' := NodeKey(t.ver, pre), Fork(v, kids');
    var a' := PutNode(DropNode(a1, v, own), NodeKey(v, pre), InternalNode(Refs(kids')));
    forall k ensures Within(k, pre) ==> FreshAt(a', v, k) == NewPart(t', pre, k, v)
             ensures !Within(k, pre) ==> FreshAt(a', v, k) == FreshAt(a, v, k)
    {
      FinishFresh(a, a1, v, t, kids', pre, k);
      ForkRecAt(t', pre, k);
    }
    FinishMarks(Added(a, a1), v, t, kids', t', pre);
    assert Added(a, a') == Added(a, a1) + (if t.ver < v then [own] else []);
  }

  lemma {:induction false} FinishFresh(a: Acc, a1: Acc, v: nat, t: Tree, kids': seq<Tree>, pre: Path, k: RecordKey)
    requires t.Fork? && |t.kids| == SLOTS && |kids'| == SLOTS && t.ver <= v && Holds(a, v, t, pre)
    requires KidsMove(a, a1, v, t.kids, kids', pre)
    ensures k != NodeKey(v, pre) ==>
              FreshAt(a1, v, k) == if Deeper(k, pre) then NewPart(kids'[SlotOf(k, pre)], pre + [SlotOf(k, pre)], k, v)
                                   else if Within(k, pre) then None
                                   else FreshAt(a, v, k)
  {
    hide RecAt;
    ForkRecAt(t, pre, k);
    assert FreshAt(a, v, k) == FreshAt(a, v, k);
  }

  lemma {:induction false} FinishMarks(list: seq<RecordKey>, v: nat, t: Tree, kids': seq<Tree>, t': Tree, pre: Path)
    requires t.Fork? && |t.kids| == SLOTS && |kids'| == SLOTS && t.ver <= v
    requires KidMarks(list, t.kids, kids', pre, v)
    requires (t' == Empty && forall i: Nibble :: kids'[i] == Empty) || t' == Fork(v, kids')
    ensures Marks(list + (if t.ver < v then [NodeKey(t.ver, pre)] else []), t, t', pre, v)
  {
    hide RecAt;
    var own := NodeKey(t.ver, pre);
    forall k ensures Retired(t, t', pre, v, k) <==> k in list || (t.ver < v && k == own)
             ensures !(k == own && k in list)
    {
      ForkRecAt(t, pre, k);
      if t'.Fork? {
        ForkRecAt(t', pre, k);
      } else {
        EmptyRecAt(pre, k);
        if Deeper(k, pre) {
          EmptyRecAt(pre + [SlotOf(k, pre)], k);
        }
      }
    }
    JoinDistinct(list, if t.ver < v then [own] else []);
  }

  lemma {:induction false} EmptyRecAt(pre: Path, k: RecordKey)
    ensures RecAt(Empty, pre, k) == None
  {
  }

  /** The children all emptied: the node goes away with them. */
  lemma {:induction false} FinishEmpty(a: Acc, a1: Acc, v: nat, t: Tree, kids': seq<Tree>, pre: Path)
    requires t.Fork? && |t.kids| == SLOTS && |kids'| == SLOTS && t.ver <= v && Holds(a, v, t, pre)
    requires KidsMove(a, a1, v, t.kids, kids', pre)
    requires forall i: Nibble :: kids'[i] == Empty
    ensures Moves(a, DropNode(a1, v, NodeKey(t.ver, pre)), v, t, Empty, pre)
  {
    hide RecAt;
    var own := NodeKey(t.ver, pre);
    var a' := DropNode(a1, v, own);
    forall k ensures Within(k, pre) ==> FreshAt(a', v, k) == NewPart(Empty, pre, k, v)
             ensures !Within(k, pre) ==> FreshAt(a', v, k) == FreshAt(a, v, k)
    {
      FinishFresh(a, a1, v, t, kids', pre, k);
      EmptyRecAt(pre, k);
      if Deeper(k, pre) {
        EmptyRecAt(pre + [SlotOf(k, pre)], k);
      }
      if k == NodeKey(v, pre) && t.ver < v {
        ForkRecAt(t, pre, k);
        assert FreshAt(a1, v, k) == FreshAt(a, v, k);
      }
    }
    FinishMarks(Added(a, a1), v, t, kids', Empty, pre);
    assert Added(a, a') == Added(a, a1) + (if t.ver < v then [own] else []);
  }

  lemma {:induction false} TipRecAt(ver: nat, p: Path, info: Info, pre: Path, k: RecordKey)
    requires info.vh.ValueMac?
    ensures RecAt(Tip(ver, p, info), pre, k)
         == if k == NodeKey(ver, pre) then Some(NodeRec(LeafNode(p, info)))
            else if k == ValueKey(info.vh, info.valueVersion) then Some(ValueRec(info.vh.plaintext))
            else None
  {
  }

  /** Only a leaf child is left: it rises to this position. */
  ghost predicate LoneTip(kids: seq<Tree>, i: Nibble, pre: Path)
    requires |kids| == SLOTS
  {
    kids[i].Tip? && (forall j: Nibble :: j != i ==> kids[j] == Empty) &&
    kids[i].info.vh.ValueMac? && kids[i].info.vh.macPath == kids[i].path && pre + [i] <= kids[i].path
  }

  ghost function Risen(a1: Acc, v: nat, t: Tree, tip: Tree, pre: Path, i: Nibble, value: Value): Acc
    requires t.Fork? && tip.Tip?
  {
    var a2 := DropNode(DropNode(a1, v, NodeKey(t.ver, pre)), v, NodeKey(tip.ver, pre + [i]));
    PutLeafAt(a2, v, pre, tip.path, tip.info, value)
  }

  lemma {:induction false} FinishCollapse(a: Acc, a1: Acc, v: nat, t: Tree, kids': seq<Tree>, pre: Path, i: Nibble,
                                          value: Value)
    requires t.Fork? && |t.kids| == SLOTS && |kids'| == SLOTS && t.ver <= v && Holds(a, v, t, pre)
    requires KidsMove(a, a1, v, t.kids, kids', pre)
    requires LoneTip(kids', i, pre) && kids'[i].ver <= v && (kids'[i].ver < v ==> kids'[i] == t.kids[i])
    ensures Moves(a, Risen(a1, v, t, kids'[i], pre, i, value), v, t, Tip(v, kids'[i].path, kids'[i].info), pre)
  {
    hide RecAt;
    var tip := kids'[i];
    var t' := Tip(v, tip.path, tip.info);
    var a' := Risen(a1, v, t, tip, pre, i, value);
    RisenValues(a1, v, kids', pre, i);
    forall k ensures Within(k, pre) ==> FreshAt(a', v, k) == NewPart(t', pre, k, v)
             ensures !Within(k, pre) ==> FreshAt(a', v, k) == FreshAt(a, v, k)
    {
      FinishFresh(a, a1, v, t, kids', pre, k);
      RisenFresh(a1, v, t, kids', pre, i, value, k);
    }
    RisenMarks(Added(a, a1), v, t, kids', pre, i);
    assert Added(a, a') == Added(a, a1) + (if t.ver < v then [NodeKey(t.ver, pre)] else [])
                           + (if tip.ver < v then [NodeKey(tip.ver, pre + [i])] else []);
  }

  lemma {:induction false} RisenValues(a1: Acc, v: nat, kids': seq<Tree>, pre: Path, i: Nibble)
    requires |kids'| == SLOTS && KidsHold(a1, v, kids', pre) && LoneTip(kids', i, pre)
    ensures kids'[i].info.valueVersion == v ==> kids'[i].info.vh in a1.values
  {
    var k := ValueKey(kids'[i].info.vh, v);
    DeeperWithin(k, pre, i);
    assert FreshAt(a1, v, k) == NewPart(kids'[i], pre + [i], k, v);
  }

  lemma {:induction false} RisenFresh(a1: Acc, v: nat, t: Tree, kids': seq<Tree>, pre: Path, i: Nibble, value: Value,
                                      k: RecordKey)
    requires t.Fork? && |kids'| == SLOTS && t.ver <= v && LoneTip(kids', i, pre) && kids'[i].ver <= v
    requires kids'[i].info.valueVersion == v ==> kids'[i].info.vh in a1.values
    requires k != NodeKey(v, pre) && Deeper(k, pre) ==>
               FreshAt(a1, v, k) == NewPart(kids'[SlotOf(k, pre)], pre + [SlotOf(k, pre)], k, v)
    requires k != NodeKey(v, pre) && !Deeper(k, pre) && Within(k, pre) ==> FreshAt(a1, v, k) == None
    ensures Within(k, pre) ==>
              FreshAt(Risen(a1, v, t, kids'[i], pre, i, value), v, k)
              == NewPart(Tip(v, kids'[i].path, kids'[i].info), pre, k, v)
    ensures !Within(k, pre) ==> FreshAt(Risen(a1, v, t, kids'[i], pre, i, value), v, k) == FreshAt(a1, v, k)
  {
    hide RecAt;
    var tip := kids'[i];
    TipRecAt(v, tip.path, tip.info, pre, k);
    DeeperWithin(k, pre, i);
    DeeperWithin(NodeKey(tip.ver, pre + [i]), pre, i);
    DeeperWithin(ValueKey(tip.info.vh, v), pre, i);
    if Deeper(k, pre) {
      if SlotOf(k, pre) == i {
        TipRecAt(tip.ver, tip.path, tip.info, pre + [i], k);
      } else {
        EmptyRecAt(pre + [SlotOf(k, pre)], k);
      }
    }
  }

  lemma {:induction false} RisenMarks(list: seq<RecordKey>, v: nat, t: Tree, kids': seq<Tree>, pre: Path, i: Nibble)
    requires t.Fork? && |t.kids| == SLOTS && |kids'| == SLOTS && t.ver <= v && LoneTip(kids', i, pre)
    requires kids'[i].ver <= v && (kids'[i].ver < v ==> kids'[i] == t.kids[i])
    requires KidMarks(list, t.kids, kids', pre, v)
    ensures Marks(list + (if t.ver < v then [NodeKey(t.ver, pre)] else [])
                       + (if kids'[i].ver < v then [NodeKey(kids'[i].ver, pre + [i])] else []),
                  t, Tip(v, kids'[i].path, kids'[i].info), pre, v)
  {
    hide RecAt;
    var tip := kids'[i];
    var own, below := NodeKey(t.ver, pre), NodeKey(tip.ver, pre + [i]);
    var l1 := if t.ver < v then [own] else [];
    var l2 := if tip.ver < v then [below] else [];
    forall k ensures Retired(t, Tip(v, tip.path, tip.info), pre, v, k)
                     <==> k in list || (t.ver < v && k == own) || (tip.ver < v && k == below)
             ensures !(k == own && k in list) && !(k in l2 && k in list) && own != below
    {
      RisenRetired(list, v, t, kids', pre, i, k);
    }
    JoinDistinct(list, l1);
    JoinDistinct(list + l1, l2);
  }

  lemma {:induction false} RisenRetired(list: seq<RecordKey>, v: nat, t: Tree, kids': seq<Tree>, pre: Path, i: Nibble,
                                        k: RecordKey)
    requires t.Fork? && |t.kids| == SLOTS && |kids'| == SLOTS && t.ver <= v && LoneTip(kids', i, pre)
    requires kids'[i].ver <= v && (kids'[i].ver < v ==> kids'[i] == t.kids[i])
    requires KidMarks(list, t.kids, kids', pre, v)
    ensures var tip := kids'[i]; var own, below := NodeKey(t.ver, pre), NodeKey(tip.ver, pre + [i]);
            && (Retired(t, Tip(v, tip.path, tip.info), pre, v, k)
                <==> k in list || (t.ver < v && k == own) || (tip.ver < v && k == below))
            && !(k == own && k in list) && !(tip.ver < v && k == below && k in list) && own != below
  {
    hide RecAt;
    var tip := kids'[i];
    ForkRecAt(t, pre, k);
    TipRecAt(v, tip.path, tip.info, pre, k);
    DeeperWithin(k, pre, i);
    DeeperWithin(NodeKey(tip.ver, pre + [i]), pre, i);
    DeeperWithin(ValueKey(tip.info.vh, tip.info.valueVersion), pre, i);
    if Deeper(k, pre) {
      if SlotOf(k, pre) == i {
        TipRecAt(tip.ver, tip.path, tip.info, pre + [i], k);
      } else {
        EmptyRecAt(pre + [SlotOf(k, pre)], k);
      }
    }
  }

  // ----------------------------------------------- building a fresh subtree

  /** Below pre the accumulator holds at most values that m is about to use. */
  ghost predicate Clear(a: Acc, v: nat, pre: Path, m: LeafMap)
  {
    forall k {:trigger FreshAt(a, v, k)} :: Within(k, pre) && FreshAt(a, v, k).Some? ==>
      k.ValueKey? && k.vh.ValueMac? && k.vh.macPath in m && m[k.vh.macPath] == Info(k.vh, v) &&
      FreshAt(a, v, k) == Some(ValueRec(k.vh.plaintext))
  }

  /** The accumulator now holds the fresh subtree t'; no persisted record is touched. */
  ghost predicate Builds(a: Acc, a': Acc, v: nat, t': Tree, pre: Path)
  {
    Holds(a', v, t', pre) && SameOutside(a, a', v, pre) && a'.stale == a.stale
  }

  lemma {:induction false} BuildNothing(a: Acc, v: nat, pre: Path)
    requires Clear(a, v, pre, map[])
    ensures Builds(a, a, v, Empty, pre)
  {
  }

  lemma {:induction false} BuildLeaf(a: Acc, v: nat, pre: Path, p: Path, info: Info, value: Value)
    requires Clear(a, v, pre, map[p := info]) && pre <= p && info.vh.ValueMac? && info.vh.macPath == p
    requires info.valueVersion == v ==> info.vh.plaintext == value
    ensures Builds(a, PutLeafAt(a, v, pre, p, info, value), v, Tip(v, p, info), pre)
  {
    hide RecAt;
    var a' := PutLeafAt(a, v, pre, p, info, value);
    forall k ensures Within(k, pre) ==> FreshAt(a', v, k) == NewPart(Tip(v, p, info), pre, k, v)
             ensures !Within(k, pre) ==> FreshAt(a', v, k) == FreshAt(a, v, k)
    {
      TipRecAt(v, p, info, pre, k);
      assert FreshAt(a, v, k) == FreshAt(a, v, k);
    }
  }

  /** Children below lim are built; the rest is as it was. */
  ghost predicate Building(a: Acc, a1: Acc, v: nat, kids: seq<Tree>, pre: Path, lim: nat)
    requires |kids| == SLOTS
  {
    a1.stale == a.stale &&
    forall k {:trigger FreshAt(a1, v, k)} ::
      FreshAt(a1, v, k) == if Deeper(k, pre) && SlotOf(k, pre) < lim
                           then NewPart(kids[SlotOf(k, pre)], pre + [SlotOf(k, pre)], k, v)
                           else FreshAt(a, v, k)
  }

  /** A child about to be built starts clear. */
  lemma {:induction false} BuildKidClear(a: Acc, a1: Acc, v: nat, kids: seq<Tree>, pre: Path, m: LeafMap, i: Nibble)
    requires |kids| == SLOTS && Building(a, a1, v, kids, pre, i) && Clear(a, v, pre, m)
    ensures Clear(a1, v, pre + [i], Sub(m, |pre|, i))
  {
    forall k | Within(k, pre + [i]) && FreshAt(a1, v, k).Some?
      ensures k.ValueKey? && k.vh.ValueMac? && k.vh.macPath in Sub(m, |pre|, i)
      ensures Sub(m, |pre|, i)[k.vh.macPath] == Info(k.vh, v)
      ensures FreshAt(a1, v, k) == Some(ValueRec(k.vh.plaintext))
    {
      DeeperWithin(k, pre, i);
      assert FreshAt(a1, v, k) == FreshAt(a, v, k);
    }
  }

  /** Skips slots that have no leaves. */
  lemma {:induction false} BuildSkip(a: Acc, a1: Acc, v: nat, kids: seq<Tree>, pre: Path, m: LeafMap, lim: nat,
                                     lim': nat)
    requires |kids| == SLOTS && Building(a, a1, v, kids, pre, lim) && Clear(a, v, pre, m)
    requires lim <= lim' && forall i: Nibble :: lim <= i < lim' ==> Sub(m, |pre|, i) == map[] && kids[i] == Empty
    ensures Building(a, a1, v, kids, pre, lim')
  {
    hide RecAt;
    forall k | Deeper(k, pre) && lim <= SlotOf(k, pre) < lim'
      ensures FreshAt(a1, v, k) == NewPart(kids[SlotOf(k, pre)], pre + [SlotOf(k, pre)], k, v)
    {
      EmptyRecAt(pre + [SlotOf(k, pre)], k);
      assert FreshAt(a1, v, k) == FreshAt(a, v, k);
      if FreshAt(a, v, k).Some? {
        assert k.vh.macPath in Sub(m, |pre|, SlotOf(k, pre));
      }
    }
  }

  lemma {:induction false} BuildKid(a: Acc, a1: Acc, a2: Acc, v: nat, kids: seq<Tree>, pre: Path, i: Nibble, t': Tree)
    requires |kids| == SLOTS && Building(a, a1, v, kids, pre, i)
    requires Builds(a1, a2, v, t', pre + [i])
    ensures Building(a, a2, v, kids[i := t'], pre, i + 1)
  {
    hide RecAt;
    forall k ensures FreshAt(a2, v, k) == if Deeper(k, pre) && SlotOf(k, pre) < i + 1
                                          then NewPart(kids[i := t'][SlotOf(k, pre)], pre + [SlotOf(k, pre)], k, v)
                                          else FreshAt(a, v, k)
    {
      DeeperWithin(k, pre, i);
      assert FreshAt(a1, v, k) == FreshAt(a1, v, k);
    }
  }

  lemma {:induction false} BuildFork(a: Acc, a1: Acc, v: nat, kids: seq<Tree>, pre: Path, m: LeafMap)
    requires |kids| == SLOTS && Building(a, a1, v, kids, pre, SLOTS) && Clear(a, v, pre, m) && Under(m, pre)
    requires |pre| < NIBBLES
    ensures Builds(a, PutNode(a1, NodeKey(v, pre), InternalNode(Refs(kids))), v, Fork(v, kids), pre)
  {
    hide RecAt;
    var a' := PutNode(a1, NodeKey(v, pre), InternalNode(Refs(kids)));
    forall k ensures Within(k, pre) ==> FreshAt(a', v, k) == NewPart(Fork(v, kids), pre, k, v)
             ensures !Within(k, pre) ==> FreshAt(a', v, k) == FreshAt(a, v, k)
    {
      ForkRecAt(Fork(v, kids), pre, k);
      assert FreshAt(a1, v, k) == FreshAt(a1, v, k);
      assert FreshAt(a, v, k) == FreshAt(a, v, k);
    }
  }

  // -------------------------------------------------- replacing a resident leaf

  /** The accumulator once a resident leaf is superseded by contents m'. */
  ghost function Superseded(a: Acc, v: nat, t: Tree, pre: Path, m': LeafMap): Acc
    requires t.Tip?
  {
    var a1 := DropNode(a, v, NodeKey(t.ver, pre));
    if t.path !in m' || m'[t.path].vh != t.info.vh then DropValue(a1, v, t.info) else a1
  }

  lemma {:induction false} SupersededClear(a: Acc, v: nat, t: Tree, pre: Path, m': LeafMap)
    requires t.Tip? && t.info.vh.ValueMac? && t.info.vh.macPath == t.path && t.ver <= v && Holds(a, v, t, pre)
    requires t.path in m' && m'[t.path].vh == t.info.vh ==> m'[t.path] == t.info
    ensures Clear(Superseded(a, v, t, pre, m'), v, pre, m')
  {
    hide RecAt;
    var a2 := Superseded(a, v, t, pre, m');
    forall k | Within(k, pre) && FreshAt(a2, v, k).Some?
      ensures k.ValueKey? && k.vh.ValueMac? && k.vh.macPath in m' && m'[k.vh.macPath] == Info(k.vh, v)
      ensures FreshAt(a2, v, k) == Some(ValueRec(k.vh.plaintext))
    {
      TipRecAt(t.ver, t.path, t.info, pre, k);
      assert FreshAt(a, v, k) == NewPart(t, pre, k, v);
    }
  }

  lemma {:induction false} SupersededMoves(a: Acc, a': Acc, v: nat, t: Tree, pre: Path, m': LeafMap, t': Tree)
    requires t.Tip? && t.info.vh.ValueMac? && t.info.vh.macPath == t.path && t.ver <= v && t.info.valueVersion <= v
    requires t.path in m' && m'[t.path].vh == t.info.vh ==> m'[t.path] == t.info
    requires pre <= t.path && (t'.Empty? || t'.ver == v)
    requires Canonical(t', pre, m') && Committed(m')
    requires Builds(Superseded(a, v, t, pre, m'), a', v, t', pre)
    ensures Moves(a, a', v, t, t', pre)
  {
    hide RecAt, Canonical, Committed;
    var a2 := Superseded(a, v, t, pre, m');
    forall k | !Within(k, pre) ensures FreshAt(a', v, k) == FreshAt(a, v, k) {
      assert FreshAt(a', v, k) == FreshAt(a2, v, k);
    }
    SupersededMarks(v, t, pre, m', t');
    assert Added(a, a') == SupersededKeys(v, t, pre, m');
  }

  ghost function SupersededKeys(v: nat, t: Tree, pre: Path, m': LeafMap): seq<RecordKey>
    requires t.Tip?
  {
    (if t.ver < v then [NodeKey(t.ver, pre)] else []) +
    (if (t.path !in m' || m'[t.path].vh != t.info.vh) && t.info.valueVersion < v
     then [ValueKey(t.info.vh, t.info.valueVersion)] else [])
  }

  lemma {:induction false} SupersededMarks(v: nat, t: Tree, pre: Path, m': LeafMap, t': Tree)
    requires t.Tip? && t.info.vh.ValueMac? && t.info.vh.macPath == t.path
    requires t.path in m' && m'[t.path].vh == t.info.vh ==> m'[t.path] == t.info
    requires t'.Empty? || t'.ver == v
    requires Canonical(t', pre, m') && Committed(m')
    ensures Marks(SupersededKeys(v, t, pre, m'), t, t', pre, v)
  {
    hide RecAt, Canonical, Committed;
    var list := SupersededKeys(v, t, pre, m');
    ValueAt(t', pre, m', t.info.vh, t.info.valueVersion);
    forall k ensures k in list <==> Retired(t, t', pre, v, k) {
      TipRecAt(t.ver, t.path, t.info, pre, k);
      if k == NodeKey(t.ver, pre) && t.ver < v {
        NoNodeAt(t', pre, t.ver);
      }
    }
  }

  lemma {:induction false} NoNodeAt(t: Tree, pre: Path, ver: nat)
    requires t.Empty? || t.ver != ver
    ensures RecAt(t, pre, NodeKey(ver, pre)) == None
  {
  }
}

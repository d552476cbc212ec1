/// `forEach`, the in-order traversal that `rebalanceRoot` feeds to the
/// tree builder: `SimpleBinaryNode.forEach` visits left subtree, value and
/// right subtree; `CompactCompositeInnerNode.forEach(procedure, position)`
/// looks at the slots of its two child positions and either hands over to a
/// nested node or recurses into the table.
module Traversal {
  import opened Wrappers
  import opened Positions
  import opened Nodes

  /// The traversal of a node; it visits exactly the stored elements in order.
  function ForEach(n: Node): (r: seq<int>)
    requires WellFormed(n)
    ensures r == Elements(n)
    decreases n, if n.Compact? then |n.table| + 1 else 0
  {
    match n
    case Simple(v, l, r) =>
      (if l.Some? then ForEach(l.value) else []) + [v] + (if r.Some? then ForEach(r.value) else [])
    case Compact(t) =>
      // A table has more than one slot, so its root slot is not in the
      // last row and cannot hold a nested node.
      assert !InLastRow(t, 0);
      TableForEach(t, 0)
  }

  /// The table walk from a position holding a value, which is what the walk
  /// as written asserts of the slot it visits.
  function TableForEach(t: seq<Slot>, p: nat): (r: seq<int>)
    requires WellFormed(Compact(t)) && p < |t| && t[p].Val?
    ensures r == TableElems(t, p)
    decreases Compact(t), |t| - p, 0
  {
    var l, r := LeftPosition(p), RightPosition(p);
    (if l < |t| then ChildForEach(t, l) else [])
    + [t[p].v]
    + (if r < |t| then ChildForEach(t, r) else [])
  }

  /// One child slot of the walk: a nested node visits itself, a value
  /// recurses into the table, an empty slot visits nothing.
  function ChildForEach(t: seq<Slot>, c: nat): (r: seq<int>)
    requires WellFormed(Compact(t)) && 0 < c < |t|
    ensures r == TableElems(t, c)
    decreases Compact(t), |t| - c, 1
  {
    match t[c]
    case Empty => []
    case Sub(m) => ForEach(m)
    case Val(_) => TableForEach(t, c)
  }

  /// What the procedure receives from the table walk as written: the
  /// visited slot's entry is passed on unchecked, so a nested node object
  /// or a null can reach the procedure in place of an element.
  datatype Visit = Element(v: int) | NodeObject(n: Node) | NullEntry

  function AsElements(s: seq<int>): (r: seq<Visit>)
    ensures |r| == |s| && forall i :: 0 <= i < |s| ==> r[i] == Element(s[i])
  {
    if s == [] then [] else [Element(s[0])] + AsElements(s[1..])
  }

  /// `CompactCompositeInnerNode.forEach(procedure, position)` as written.
  function TableForEachAsWritten(t: seq<Slot>, p: nat): (r: seq<Visit>)
    requires p < |t| && |t| % 2 == 1
    requires forall q: nat :: q < |t| && t[q].Sub? ==> InLastRow(t, q) && WellFormed(t[q].node)
    ensures t[p].Val? && LeftPosition(p) >= |t| ==> r == [Element(t[p].v)]
    ensures t[p].Sub? ==> r == [NodeObject(t[p].node)]
    decreases |t| - p
  {
    var l, r := LeftPosition(p), RightPosition(p);
    assert t[p].Sub? ==> InLastRow(t, p) && l >= |t|;
    var left :=
      if l < |t| then
        match t[l]
        case Sub(m) => AsElements(ForEach(m))
        case Val(_) => TableForEachAsWritten(t, l)
        case Empty => []
      else [];
    var right :=
      if r < |t| then
        match t[r]
        case Sub(m) => AsElements(ForEach(m))
        case Val(_) => TableForEachAsWritten(t, r)
        case Empty => []
      else [];
    var own := match t[p] case Val(v) => Element(v) case Sub(m) => NodeObject(m) case Empty => NullEntry;
    left + [own] + right
  }

  lemma {:induction false} AsElementsConcat(a: seq<int>, b: seq<int>)
    ensures AsElements(a + b) == AsElements(a) + AsElements(b)
  {
    var x, y := AsElements(a + b), AsElements(a) + AsElements(b);
    assert |x| == |y|;
    forall i | 0 <= i < |x| ensures x[i] == y[i] {
      if i < |a| { assert (a + b)[i] == a[i]; } else { assert (a + b)[i] == b[i - |a|]; }
    }
  }

  /// On a well-formed table the walk as written and the corrected walk agree
  /// from every position holding a value: each visit is an element.
  lemma {:induction false} TableWalksAgree(t: seq<Slot>, p: nat)
    requires WellFormed(Compact(t)) && p < |t| && t[p].Val?
    ensures TableForEachAsWritten(t, p) == AsElements(TableForEach(t, p))
    decreases |t| - p
  {
    var l, r := LeftPosition(p), RightPosition(p);
    if l < |t| && t[l].Val? { TableWalksAgree(t, l); }
    if r < |t| && t[r].Val? { TableWalksAgree(t, r); }
    var a := if l < |t| then ChildForEach(t, l) else [];
    var b := if r < |t| then ChildForEach(t, r) else [];
    AsElementsConcat(a + [t[p].v], b);
    AsElementsConcat(a, [t[p].v]);
  }

  /// The walk `compact()` and `rebalanceRoot()` run over a well-formed
  /// table node hands the procedure exactly its elements, in order.
  lemma WalkAsWrittenOnWellFormed(n: Node)
    requires n.Compact? && WellFormed(n)
    ensures TableForEachAsWritten(n.table, 0) == AsElements(Elements(n))
  {
    assert !InLastRow(n.table, 0);
    TableWalksAgree(n.table, 0);
  }
}

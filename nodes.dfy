module Wrappers {
  datatype Option<T> = None | Some(value: T)

  datatype Result<T, E> = Ok(value: T) | Err(error: E)
}

/// The two node representations of the scapegoat tree.
///
/// A `Simple` node is a SimpleBinaryNode: a value and two optional children.
/// A `Compact` node is a CompactCompositeInnerNode at position 0 of its table:
/// a complete binary tree stored in an array whose slots are empty, hold a
/// value, or (only in the last row) hold a nested node.
module Nodes {
  import opened Wrappers
  import opened Positions

  datatype Node =
    | Simple(value: int, left: Option<Node>, right: Option<Node>)
    | Compact(table: seq<Slot>)

  datatype Slot = Empty | Val(v: int) | Sub(node: Node)

  /// The in-order sequence of the elements stored below `n`.
  ghost function Elements(n: Node): seq<int>
    decreases n, if n.Compact? then |n.table| + 1 else 0
  {
    match n
    case Simple(v, l, r) =>
      (if l.Some? then Elements(l.value) else []) + [v] + (if r.Some? then Elements(r.value) else [])
    case Compact(t) => TableElems(t, 0)
  }

  /// The in-order sequence of the elements stored at position `p` of a table.
  ghost function TableElems(t: seq<Slot>, p: nat): seq<int>
    decreases Compact(t), |t| - p
  {
    if p >= |t| then []
    else
      match t[p]
      case Empty => []
      case Sub(m) => Elements(m)
      case Val(v) => TableElems(t, LeftPosition(p)) + [v] + TableElems(t, RightPosition(p))
  }

  ghost function OptElements(o: Option<Node>): seq<int>
  {
    if o.Some? then Elements(o.value) else []
  }

  predicate InLastRow(t: seq<Slot>, p: nat)
  {
    RightPosition(p) >= |t|
  }

  /// The layout of a table: odd length (so that a position has either both
  /// child positions inside the table or neither) of more than one slot, as
  /// the table node's constructor asserts, an occupied root slot,
  /// nothing below an empty slot, and nested nodes only in the last row.
  ghost predicate TableShape(t: seq<Slot>)
  {
    && |t| % 2 == 1 && |t| > 1
    && !t[0].Empty?
    && (forall p: nat :: p < |t| && t[p].Empty? && LeftPosition(p) < |t| ==>
          t[LeftPosition(p)].Empty? && t[RightPosition(p)].Empty?)
    && (forall p: nat :: p < |t| && t[p].Sub? ==> InLastRow(t, p))
  }

  ghost predicate WellFormed(n: Node)
    decreases n
  {
    match n
    case Simple(_, l, r) =>
      (l.Some? ==> WellFormed(l.value)) && (r.Some? ==> WellFormed(r.value))
    case Compact(t) =>
      TableShape(t) && forall p: nat :: p < |t| && t[p].Sub? ==> WellFormed(t[p].node)
  }

  predicate StrictlySorted(s: seq<int>)
  {
    forall i, j :: 0 <= i < j < |s| ==> s[i] < s[j]
  }

  /// A strictly sorted sequence split around one element.
  lemma SortedAround(a: seq<int>, v: int, b: seq<int>)
    requires StrictlySorted(a + [v] + b)
    ensures StrictlySorted(a) && StrictlySorted(b)
    ensures forall x :: x in a ==> x < v
    ensures forall y :: y in b ==> v < y
  {
    var s := a + [v] + b;
    assert forall i :: 0 <= i < |a| ==> s[i] == a[i];
    assert forall j :: 0 <= j < |b| ==> s[|a| + 1 + j] == b[j];
    assert s[|a|] == v;
  }

  /// Joining sorted parts around a separating element keeps the whole sorted.
  lemma SortedJoin(a: seq<int>, v: int, b: seq<int>)
    requires StrictlySorted(a) && StrictlySorted(b)
    requires forall x :: x in a ==> x < v
    requires forall y :: y in b ==> v < y
    ensures StrictlySorted(a + [v] + b)
  {
    var s := a + [v] + b;
    forall i, j | 0 <= i < j < |s| ensures s[i] < s[j] {
      if j < |a| {
      } else if i < |a| {
        assert s[i] in a;
        if j > |a| { assert s[j] == b[j - |a| - 1]; assert s[j] in b; }
      } else if i == |a| {
        assert s[j] == b[j - |a| - 1]; assert s[j] in b;
      } else {
        assert s[i] == b[i - |a| - 1] && s[j] == b[j - |a| - 1];
      }
    }
  }

  /// The elements at position `q` depend only on the slots below `q`.
  lemma {:induction false} TableElemsLocal(t: seq<Slot>, u: seq<Slot>, q: nat)
    requires |t| == |u|
    requires forall x: nat :: x < |t| && IsDescendant(x, q) ==> t[x] == u[x]
    ensures TableElems(t, q) == TableElems(u, q)
    decreases |t| - q
  {
    if q < |t| {
      assert IsDescendant(q, q);
      if t[q].Val? {
        var l, r := LeftPosition(q), RightPosition(q);
        forall x: nat | x < |t| && IsDescendant(x, l) ensures t[x] == u[x] {
          DescendantOfChild(x, q, l);
        }
        forall x: nat | x < |t| && IsDescendant(x, r) ensures t[x] == u[x] {
          DescendantOfChild(x, q, r);
        }
        TableElemsLocal(t, u, l);
        TableElemsLocal(t, u, r);
      }
    }
  }

  /// `Node.size()`: SimpleBinaryNode counts recursively, the compact node
  /// through `sizePosition`.
  function NodeSize(n: Node): nat
    decreases n, if n.Compact? then |n.table| + 1 else 0
  {
    match n
    case Simple(_, l, r) =>
      (if l.Some? then NodeSize(l.value) else 0) + (if r.Some? then NodeSize(r.value) else 0) + 1
    case Compact(t) => SizePosition(t, 0)
  }

  function SizePosition(t: seq<Slot>, p: nat): nat
    decreases Compact(t), |t| - p
  {
    if p >= |t| then 0
    else
      match t[p]
      case Empty => 0
      case Sub(m) => NodeSize(m)
      case Val(_) => 1 + SizePosition(t, LeftPosition(p)) + SizePosition(t, RightPosition(p))
  }

  /// The recursive size is the number of stored elements.
  lemma {:induction false} NodeSizeCounts(n: Node)
    ensures NodeSize(n) == |Elements(n)|
    decreases n, if n.Compact? then |n.table| + 1 else 0
  {
    match n
    case Simple(_, l, r) =>
      if l.Some? { NodeSizeCounts(l.value); }
      if r.Some? { NodeSizeCounts(r.value); }
    case Compact(t) => SizePositionCounts(t, 0);
  }

  lemma {:induction false} SizePositionCounts(t: seq<Slot>, p: nat)
    ensures SizePosition(t, p) == |TableElems(t, p)|
    decreases Compact(t), |t| - p
  {
    if p < |t| {
      match t[p]
      case Empty =>
      case Sub(m) => NodeSizeCounts(m);
      case Val(_) =>
        SizePositionCounts(t, LeftPosition(p));
        SizePositionCounts(t, RightPosition(p));
    }
  }

  /// `Node.contains`: a binary search through simple nodes and table positions.
  function Contains(n: Node, x: int): bool
    decreases n, if n.Compact? then |n.table| + 1 else 0
  {
    match n
    case Simple(v, l, r) =>
      if x < v then l.Some? && Contains(l.value, x)
      else if x > v then r.Some? && Contains(r.value, x)
      else true
    case Compact(t) => |t| > 0 && TableContains(t, 0, x)
  }

  /// `CompactCompositeInnerNode.contains(value, position)`.
  function TableContains(t: seq<Slot>, p: nat, x: int): bool
    requires p < |t|
    decreases Compact(t), |t| - p
  {
    match t[p]
    case Empty => false
    case Sub(m) => Contains(m, x)
    case Val(v) =>
      if x < v then LeftPosition(p) < |t| && TableContains(t, LeftPosition(p), x)
      else if x > v then RightPosition(p) < |t| && TableContains(t, RightPosition(p), x)
      else true
  }

  /// On a sorted tree the search finds exactly the stored elements.
  lemma {:induction false} ContainsIsMembership(n: Node, x: int)
    requires StrictlySorted(Elements(n))
    ensures Contains(n, x) <==> x in Elements(n)
    decreases n, if n.Compact? then |n.table| + 1 else 0
  {
    match n
    case Simple(v, l, r) =>
      var a, b := OptElements(l), OptElements(r);
      SortedAround(a, v, b);
      if l.Some? { ContainsIsMembership(l.value, x); }
      if r.Some? { ContainsIsMembership(r.value, x); }
    case Compact(t) =>
      if |t| > 0 { TableContainsIsMembership(t, 0, x); }
  }

  lemma {:induction false} TableContainsIsMembership(t: seq<Slot>, p: nat, x: int)
    requires p < |t|
    requires StrictlySorted(TableElems(t, p))
    ensures TableContains(t, p, x) <==> x in TableElems(t, p)
    decreases Compact(t), |t| - p
  {
    match t[p]
    case Empty =>
    case Sub(m) => ContainsIsMembership(m, x);
    case Val(v) =>
      var l, r := LeftPosition(p), RightPosition(p);
      SortedAround(TableElems(t, l), v, TableElems(t, r));
      if l < |t| { TableContainsIsMembership(t, l, x); }
      if r < |t| { TableContainsIsMembership(t, r, x); }
  }
}

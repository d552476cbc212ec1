/// Rebuilding a subtree from its sorted values: `constructTree` (both
/// overloads) and `populateLeftWithoutRebalance` /
/// `populateRightWithoutRebalance`.
module Rebalancing {
  import opened Wrappers
  import opened Positions
  import opened Nodes
  import opened Handles
  import opened NodeOps
  import opened Builder

  /// `MIN_SIZE_THRESHOLD`: rebuilt subtrees smaller than `(2 << 3) - 1` stay linked.
  const MIN_SIZE_THRESHOLD: nat := 3

  function CompactThreshold(): nat
  {
    2 * Pow2Of(MIN_SIZE_THRESHOLD) - 1
  }

  function Pow2Of(k: nat): nat
  {
    if k == 0 then 1 else 2 * Pow2Of(k - 1)
  }

  /// Every simple node splits its elements into two halves whose sizes
  /// differ by at most one.
  ghost predicate SizeBalanced(n: Node)
  {
    match n
    case Simple(_, l, r) =>
      var a, b := |OptElements(l)|, |OptElements(r)|;
      a - b <= 1 && b - a <= 1
      && (l.Some? ==> SizeBalanced(l.value)) && (r.Some? ==> SizeBalanced(r.value))
    case Compact(_) => true
  }

  /// `constructTree(values, start, end)`: a linked tree with the left-biased
  /// median of the segment at its root.
  function ConstructTree(values: seq<int>, start: nat, end: nat): (r: Option<Node>)
    requires start <= end <= |values|
    ensures r.None? <==> start == end
    ensures r.Some? ==> r.value.Simple? && WellFormed(r.value) && SizeBalanced(r.value)
    ensures r.Some? ==> Elements(r.value) == values[start..end]
    decreases end - start
  {
    if end == start then None
    else if end - start == 1 then Some(Simple(values[start], None, None))
    else
      var mid := CalculateMidPoint(start, end - start);
      MidPointSplitsSegment(start, end - start);
      var left := ConstructTree(values, start, mid);
      var right := ConstructTree(values, mid + 1, end);
      JoinSegments(values, start, mid, end, left, right);
      Some(Simple(values[mid], left, right))
  }

  /// Two trees built from the halves around the midpoint, joined under it.
  lemma JoinSegments(values: seq<int>, start: nat, mid: nat, end: nat, left: Option<Node>, right: Option<Node>)
    requires start <= mid < end <= |values|
    requires mid - start - (end - 1 - mid) <= 1 && end - 1 - mid - (mid - start) <= 1
    requires left.Some? ==> WellFormed(left.value) && SizeBalanced(left.value)
    requires right.Some? ==> WellFormed(right.value) && SizeBalanced(right.value)
    requires OptElements(left) == values[start..mid] && OptElements(right) == values[mid + 1..end]
    ensures var n := Simple(values[mid], left, right);
      WellFormed(n) && SizeBalanced(n) && Elements(n) == values[start..end]
  {
    SplitSegment(values, start, mid, end);
    var n := Simple(values[mid], left, right);
    assert Elements(n) == OptElements(left) + [values[mid]] + OptElements(right);
    assert |OptElements(left)| == mid - start && |OptElements(right)| == end - 1 - mid;
  }

  /// `constructTree(values, size)`: small segments become linked trees, larger
  /// ones a compact node filled by the balanced tree builder.
  method ConstructTreeSized(values: seq<int>) returns (r: Option<Node>)
    ensures r.None? <==> |values| == 0
    ensures r.Some? ==> WellFormed(r.value) && Elements(r.value) == values
    ensures r.Some? && |values| < CompactThreshold() ==> r.value.Simple?
    ensures |values| >= CompactThreshold() ==> r.Some? && r.value.Compact?
  {
    if |values| < CompactThreshold() {
      r := ConstructTree(values, 0, |values|);
      assert values[0..|values|] == values;
    } else {
      var table := BuildTable(values);
      BuiltTableShape(table, |values|);
      r := Some(Compact(table));
    }
  }

  /// `node2` is `node` with its `d` subtree replaced by one holding `e`: the
  /// same kind of reference at the same place, the same value, the other
  /// subtree untouched, and the slot of a view inside the table unchanged.
  ghost predicate Repopulates(node: Handle, node2: Handle, d: Dir, e: seq<int>)
    requires HValid(node)
  {
    && Compatible(node, node2) && GetValue(node2) == GetValue(node)
    && ChildElems(node2, d) == e
    && HasChild(node2, Other(d)) == HasChild(node, Other(d))
    && ChildElems(node2, Other(d)) == ChildElems(node, Other(d))
    && (node.View? && !InLastRow(node.table, node.pos) ==> node2.table[node.pos] == node.table[node.pos])
  }

  /// `populateLeftWithoutRebalance` (d == Left) / `populateRightWithoutRebalance`
  /// (d == Right): makes the `d` subtree of `node` hold exactly
  /// `values[start..end]`, reusing the table slots below a compact node.
  ///
  /// An empty segment is handled by `eraseLeftChild`, which does nothing on a
  /// simple node or a nested node; the caller guarantees that such a node has
  /// no child on that side.
  method Populate(node: Handle, d: Dir, values: seq<int>, start: nat, end: nat) returns (node2: Handle)
    requires HValid(node) && start <= end <= |values|
    requires start == end && HasChild(node, d) ==> node.View? && !node.table[node.pos].Sub?
    ensures Repopulates(node, node2, d, values[start..end])
    decreases end - start, 1
  {
    if end == start {
      node2 := EraseChild(node, d);
      ErasedPopulates(node, d);
    } else if end - start == 1 {
      node2 := ReplaceChildTree(node, d, values[start]);
      SingleSegment(values, start, end);
    } else {
      var mid := CalculateMidPoint(start, end - start);
      MidPointSplitsSegment(start, end - start);
      if node.View? && IsChildInLastRow(node, d) {
        node2 := PopulateSubTree(node, d, values, start, mid, end);
      } else {
        node2 := PopulateSplit(node, d, values, start, mid, end);
      }
    }
  }

  lemma SplitSegment(values: seq<int>, start: nat, mid: nat, end: nat)
    requires start <= mid < end <= |values|
    ensures values[start..end] == values[start..mid] + [values[mid]] + values[mid + 1..end]
  {
  }

  lemma SingleSegment(values: seq<int>, start: nat, end: nat)
    requires start + 1 == end <= |values|
    ensures values[start..end] == [values[start]]
  {
  }

  /// The empty-segment branch of `Populate`: `eraseLeftChild` /
  /// `eraseRightChild` leave no child on that side.
  lemma ErasedPopulates(node: Handle, d: Dir)
    requires HValid(node)
    requires HasChild(node, d) ==> node.View? && !node.table[node.pos].Sub?
    ensures Repopulates(node, EraseChild(node, d), d, [])
  {
  }

  /// The recursive branch of `Populate`: the child on side `d` receives the
  /// midpoint value, then its left and right subtrees are populated in turn.
  method PopulateSplit(node: Handle, d: Dir, values: seq<int>, start: nat, mid: nat, end: nat)
      returns (node2: Handle)
    requires HValid(node) && start <= mid < end <= |values|
    ensures Repopulates(node, node2, d, values[start..end])
    decreases end - start, 0
  {
    SplitSegment(values, start, mid, end);
    var r := SetChildValue(node, d, values[mid]);
    var c1 := Populate(r.child, Left, values, start, mid);
    RightStillErasable(r.child, c1);
    var c2 := Populate(c1, Right, values, mid + 1, end);
    node2 := Reattach(r.parent, d, c2);
    Repopulated(node, d, values[mid], r, c1, c2, values[start..mid], values[mid + 1..end]);
  }

  /// The last-row branch of `Populate`: the child slot receives a simple node
  /// over the midpoint whose subtrees are built from the two halves.
  method PopulateSubTree(node: Handle, d: Dir, values: seq<int>, start: nat, mid: nat, end: nat)
      returns (node2: Handle)
    requires HValid(node) && node.View? && IsChildInLastRow(node, d)
    requires start <= mid < end <= |values|
    ensures Repopulates(node, node2, d, values[start..end])
  {
    SplitSegment(values, start, mid, end);
    var left := ConstructTreeSized(values[start..mid]);
    var right := ConstructTreeSized(values[mid + 1..end]);
    var sub := Simple(values[mid], left, right);
    assert WellFormed(sub);
    node2 := SetChildSubTree(node, d, sub);
  }

  /// The recursive branch of `Populate`: the new child holds the midpoint
  /// value and its two subtrees hold the two halves.
  lemma Repopulated(node: Handle, d: Dir, v: int, r: Updated, c1: Handle, c2: Handle, a: seq<int>, b: seq<int>)
    requires HValid(node)
    requires Compatible(node, r.parent) && GetValue(r.parent) == GetValue(node)
    requires HasChild(r.parent, d) && GetChild(r.parent, d) == r.child && GetValue(r.child) == v
    requires HasChild(r.parent, Other(d)) == HasChild(node, Other(d))
    requires ChildElems(r.parent, Other(d)) == ChildElems(node, Other(d))
    requires node.View? && !InLastRow(node.table, node.pos) ==> r.parent.table[node.pos] == node.table[node.pos]
    requires HValid(r.child) && Repopulates(r.child, c1, Left, a)
    requires HValid(c1) && Repopulates(c1, c2, Right, b)
    ensures Repopulates(node, Reattach(r.parent, d, c2), d, a + [v] + b)
  {
    CompatibleTrans(r.child, c1, c2);
    ReattachSpec(r.parent, d, c2);
    Split(c2);
    CompatibleTrans(node, r.parent, Reattach(r.parent, d, c2));
  }

  /// After the left half is in place, the new child either has no right
  /// subtree or is a plain table slot whose right subtree can be erased.
  lemma RightStillErasable(child: Handle, c1: Handle)
    requires HValid(child) && HValid(c1)
    requires child.Linked? ==> !HasChild(child, Left) && !HasChild(child, Right)
    requires child.View? ==> !child.table[child.pos].Sub?
    requires Repopulates(child, c1, Left, ChildElems(c1, Left))
    ensures HasChild(c1, Right) ==> c1.View? && !c1.table[c1.pos].Sub?
  {
  }
}

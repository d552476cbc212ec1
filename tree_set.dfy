/// The set object: `root`, `nodeCount` and the rebalancing thresholds, with
/// `add`, `remove`, `clear`, `compact` and the queries.
///
/// The tree is a value (`Option<Node>`) that the methods replace; the Java
/// nodes change in place, which for a set reached only through its root is
/// the same as putting back a changed copy along the walk (see `Rebuild`).
module TreeSets {
  import opened Wrappers
  import opened Nodes
  import opened Handles
  import opened NodeOps
  import opened Queries
  import opened Rebalancing
  import opened Thresholds
  import opened Search
  import opened Scapegoats
  import opened Builder
  import opened Traversal
  import Satisfy

  /// A tree with depth up to this is not checked for balance.
  const INIT_MAX_DEPTH: int := 4

  datatype Failure = IllegalArgument | NoSuchElement

  /// The ratios the constructor accepts (it throws otherwise).
  predicate RatiosAccepted(balanceRatio: real, fullRebalanceRatioRemove: real)
  {
    && 0.5 < balanceRatio < 1.0
    && 0.0 <= fullRebalanceRatioRemove < 1.0
  }

  /// A well-formed tree holding exactly one element holds its root's value.
  lemma SingleElement(n: Node)
    requires WellFormed(n) && |Elements(n)| == 1
    ensures Elements(n) == [GetValue(HandleOf(n))]
  {
    HandleOfValid(n);
    Split(HandleOf(n));
  }

  /// The first element of a sorted sequence is its least.
  lemma SortedFirstLeast(s: seq<int>)
    requires StrictlySorted(s) && |s| > 0
    ensures forall x :: x in s ==> s[0] <= x
  {
  }

  /// The last element of a sorted sequence is its greatest.
  lemma SortedLastGreatest(s: seq<int>)
    requires StrictlySorted(s) && |s| > 0
    ensures forall x :: x in s ==> x <= s[|s| - 1]
  {
  }

  /// The tree a full rebuild packs at least two sorted values into: one
  /// table filled by `BalancedTreeBuilder`.
  method PackSorted(values: seq<int>) returns (n: Node)
    requires |values| >= 2
    ensures n.Compact? && WellFormed(n) && Elements(n) == values
  {
    var table := BuildTable(values);
    BuiltTableShape(table, |values|);
    n := Compact(table);
  }

  /// The root `buildFromSortedList` builds: none for no values, a simple
  /// node for one, a table for more.
  method BuildRoot(values: seq<int>) returns (root: Option<Node>)
    ensures root.Some? ==> WellFormed(root.value)
    ensures OptElements(root) == values && (root.None? <==> |values| == 0)
  {
    if |values| == 0 {
      root := None;
    } else if |values| == 1 {
      root := Some(Simple(values[0], None, None));
      assert Elements(root.value) == [] + [values[0]] + [];
    } else {
      var n := PackSorted(values);
      root := Some(n);
    }
  }

  /// The least element: left children are followed from the root.
  method First(n: Node) returns (first: int)
    requires WellFormed(n) && StrictlySorted(Elements(n))
    ensures first in Elements(n) && forall x :: x in Elements(n) ==> first <= x
  {
    var h := HandleOf(n);
    HandleOfValid(n);
    ghost var after: seq<int> := [];
    while HasChild(h, Left)
      invariant HValid(h) && Elements(n) == HElements(h) + after
      decreases |HElements(h)|
    {
      after := StepDownside(h, Left, after);
      h := GetChild(h, Left);
    }
    LeftmostLeast(h, after, Elements(n));
    first := GetValue(h);
  }

  /// The greatest element: right children are followed from the root.
  method Last(n: Node) returns (last: int)
    requires WellFormed(n) && StrictlySorted(Elements(n))
    ensures last in Elements(n) && forall x :: x in Elements(n) ==> x <= last
  {
    var h := HandleOf(n);
    HandleOfValid(n);
    ghost var before: seq<int> := [];
    while HasChild(h, Right)
      invariant HValid(h) && Elements(n) == before + HElements(h)
      decreases |HElements(h)|
    {
      before := StepDownside(h, Right, before);
      h := GetChild(h, Right);
    }
    RightmostGreatest(h, before, Elements(n));
    last := GetValue(h);
  }

  /// One step down towards the least (`Left`) or the greatest (`Right`)
  /// element: what the child does not hold joins the elements passed by.
  lemma StepDownside(h: Handle, d: Dir, passed: seq<int>) returns (passed2: seq<int>)
    requires HValid(h) && HasChild(h, d)
    ensures HValid(GetChild(h, d)) && |HElements(GetChild(h, d))| < |HElements(h)|
    ensures d == Left ==> HElements(h) + passed == HElements(GetChild(h, d)) + passed2
    ensures d == Right ==> passed + HElements(h) == passed2 + HElements(GetChild(h, d))
  {
    Split(h);
    var c := GetChild(h, d);
    if d == Left {
      var rest := [GetValue(h)] + ChildElems(h, Right);
      assert HElements(h) == HElements(c) + rest;
      passed2 := rest + passed;
    } else {
      var rest := ChildElems(h, Left) + [GetValue(h)];
      assert HElements(h) == rest + HElements(c);
      passed2 := passed + rest;
    }
  }

  /// A handle with no left child at the start of a sorted sequence holds
  /// its least element.
  lemma LeftmostLeast(h: Handle, after: seq<int>, s: seq<int>)
    requires HValid(h) && !HasChild(h, Left) && s == HElements(h) + after && StrictlySorted(s)
    ensures GetValue(h) in s && forall x :: x in s ==> GetValue(h) <= x
  {
    Split(h);
    assert s == [GetValue(h)] + (ChildElems(h, Right) + after);
    SortedFirstLeast(s);
  }

  /// A handle with no right child at the end of a sorted sequence holds
  /// its greatest element.
  lemma RightmostGreatest(h: Handle, before: seq<int>, s: seq<int>)
    requires HValid(h) && !HasChild(h, Right) && s == before + HElements(h) && StrictlySorted(s)
    ensures GetValue(h) in s && forall x :: x in s ==> x <= GetValue(h)
  {
    Split(h);
    assert s == (before + ChildElems(h, Left)) + [GetValue(h)];
    SortedLastGreatest(s);
  }

  /// The tree part of `add(value)` on a non-empty tree: the search walk,
  /// counting the depth, ends either at `v` or at a missing child, which
  /// becomes a leaf holding `v`. The walk to that leaf is returned for the
  /// balance check that follows.
  method InsertValue(root: Node, v: int)
    returns (added: bool, root2: Node, currentDepth: int, ghost leafWalk: seq<Frame>, ghost leaf: Handle)
    requires WellFormed(root) && StrictlySorted(Elements(root))
    ensures added <==> v !in Elements(root)
    ensures !added ==> root2 == root
    ensures added ==> WellFormed(root2) && StrictlySorted(Elements(root2))
    ensures added ==> |Elements(root2)| == |Elements(root)| + 1
    ensures added ==> forall x :: x in Elements(root2) <==> x in Elements(root) || x == v
    ensures added ==> Bracketed(leafWalk, leaf, v) && Top(leafWalk, leaf) == HandleOf(root2)
    ensures added ==> GetValue(leaf) == v && HElements(leaf) == [v] && currentDepth == |leafWalk| + 1
  {
    var found, ctx, h := Search.Search(root, v);
    if found {
      return false, root, 0, [], HandleOf(root);
    }
    var d := Side(v, GetValue(h));
    var r := SetChildValue(h, d, v);
    Inserted(root, ctx, h, v, r);
    NewLeafWalk(root, ctx, h, v, r);
    leafWalk := RebuildPath(ctx, r.parent) + [Frame(r.parent, d)];
    leaf := r.child;
    root2 := NodeOf(Rebuild(ctx, r.parent));
    currentDepth := |ctx| + 2;
    added := true;
  }

  /// The tree part of `remove(value)`: the search walk, then the found
  /// node gives up its value.
  method RemoveValue(root: Node, v: int) returns (removed: bool, root2: Option<Node>)
    requires WellFormed(root) && StrictlySorted(Elements(root))
    ensures removed <==> v in Elements(root)
    ensures !removed ==> root2 == Some(root)
    ensures removed ==> root2.Some? ==> WellFormed(root2.value)
    ensures removed ==> StrictlySorted(OptElements(root2)) && |OptElements(root2)| == |Elements(root)| - 1
    ensures removed ==> forall x :: x in OptElements(root2) <==> x in Elements(root) && x != v
  {
    var found, ctx, h := Search.Search(root, v);
    if !found {
      return false, Some(root);
    }
    root2 := RemoveFound(root, ctx, h);
    removed := true;
  }

  class ScapegoatTreeSet {
    const balanceRatio: real
    const fullRebalanceRatioAdd: real
    const fullRebalanceRatioRemove: real

    var root: Option<Node>
    var nodeCount: int
    var maxNodeCount: int
    var maxDepth: int
    var minSize: int
    var fullRebalanceSizeAdd: int

    /// The elements of the set in the order the tree holds them.
    ghost function Contents(): seq<int>
      reads this
    {
      OptElements(root)
    }

    /// The tree is well formed and a search tree, `nodeCount` counts it,
    /// the ratios are the accepted ones and `minSize` belongs to `maxDepth`.
    ghost predicate Valid()
      reads this
    {
      && (root.Some? ==> WellFormed(root.value))
      && StrictlySorted(Contents())
      && nodeCount == |Contents()|
      && RatiosAccepted(balanceRatio, fullRebalanceRatioRemove)
      && IsJavaInt(maxDepth)
      && (MinSize(maxDepth, balanceRatio).Ok? ==> minSize == MinSize(maxDepth, balanceRatio).value)
    }

    /// `ScapegoatTreeSet(balanceRatio, fullRebalanceRatioAdd, fullRebalanceRatioRemove)`
    /// for accepted ratios; `Create` reports the rejected ones.
    constructor (balanceRatio: real, fullRebalanceRatioAdd: real, fullRebalanceRatioRemove: real)
      requires RatiosAccepted(balanceRatio, fullRebalanceRatioRemove)
      ensures Valid() && Contents() == [] && nodeCount == 0 && maxNodeCount == 0
      ensures this.balanceRatio == balanceRatio && this.fullRebalanceRatioAdd == fullRebalanceRatioAdd
      ensures this.fullRebalanceRatioRemove == fullRebalanceRatioRemove
      ensures maxDepth == INIT_MAX_DEPTH && MinSize(INIT_MAX_DEPTH, balanceRatio) == Ok(minSize)
      ensures fullRebalanceSizeAdd == 0
    {
      this.balanceRatio := balanceRatio;
      this.fullRebalanceRatioAdd := fullRebalanceRatioAdd;
      this.fullRebalanceRatioRemove := fullRebalanceRatioRemove;
      root := None;
      nodeCount := 0;
      maxNodeCount := 0;
      maxDepth := INIT_MAX_DEPTH;
      fullRebalanceSizeAdd := 0;
      MinSizeIsLeastReaching(INIT_MAX_DEPTH, balanceRatio);
      var m := MinSizeForDepth(INIT_MAX_DEPTH, balanceRatio);
      minSize := m.value;
    }

    /// The constructor with its argument checks.
    static method Create(balanceRatio: real, fullRebalanceRatioAdd: real, fullRebalanceRatioRemove: real)
      returns (r: Result<ScapegoatTreeSet, Failure>)
      ensures r.Err? <==> !RatiosAccepted(balanceRatio, fullRebalanceRatioRemove)
      ensures r.Err? ==> r.error == IllegalArgument
      ensures r.Ok? ==> fresh(r.value) && r.value.Valid() && r.value.Contents() == []
    {
      if !RatiosAccepted(balanceRatio, fullRebalanceRatioRemove) {
        return Err(IllegalArgument);
      }
      var s := new ScapegoatTreeSet(balanceRatio, fullRebalanceRatioAdd, fullRebalanceRatioRemove);
      return Ok(s);
    }

    /// The no-argument constructor's ratios.
    static method Default() returns (s: ScapegoatTreeSet)
      ensures fresh(s) && s.Valid() && s.Contents() == []
      ensures s.balanceRatio == 0.66 && s.fullRebalanceRatioAdd == 0.66 && s.fullRebalanceRatioRemove == 0.5
    {
      s := new ScapegoatTreeSet(0.66, 0.66, 0.5);
    }

    /// `buildFromSortedList(list, ratios)` with an empty and a one-element
    /// list given an empty tree and a single simple node.
    static method BuildFromSortedList(values: seq<int>, balanceRatio: real, fullRebalanceRatioAdd: real,
                                      fullRebalanceRatioRemove: real)
      returns (r: Result<ScapegoatTreeSet, Failure>)
      requires StrictlySorted(values)
      ensures r.Err? <==> !RatiosAccepted(balanceRatio, fullRebalanceRatioRemove)
      ensures r.Ok? ==> fresh(r.value) && r.value.Valid() && r.value.Contents() == values
      ensures r.Ok? ==> (r.value.root.None? <==> r.value.nodeCount == 0)
    {
      if !RatiosAccepted(balanceRatio, fullRebalanceRatioRemove) {
        return Err(IllegalArgument);
      }
      var s := new ScapegoatTreeSet(balanceRatio, fullRebalanceRatioAdd, fullRebalanceRatioRemove);
      var root := BuildRoot(values);
      s.root := root;
      s.nodeCount := |values|;
      return Ok(s);
    }

    /// `contains(value)`.
    function Contains(v: int): (r: bool)
      reads this
      requires Valid()
      ensures r <==> v in Contents()
    {
      if root.None? then false
      else
        ContainsIsMembership(root.value, v);
        Nodes.Contains(root.value, v)
    }

    /// `size()`.
    function Size(): (r: int)
      reads this
      requires Valid()
      ensures r == |Contents()|
    {
      nodeCount
    }

    /// `isEmpty()`: no root.
    function IsEmpty(): (r: bool)
      reads this
      requires Valid()
      ensures r <==> |Contents()| == 0
    {
      if root.Some? then NonEmptyNode(root.value); false else true
    }

    /// `toList()`: the elements in ascending order.
    function ToList(): (r: seq<int>)
      reads this
      requires Valid()
      ensures r == Contents() && StrictlySorted(r) && |r| == nodeCount
    {
      if root.None? then []
      else HandleOfValid(root.value); Queries.ToList(HandleOf(root.value))
    }

    /// `height()`: 0 for an empty set.
    function Height(): (r: nat)
      reads this
      requires Valid()
      ensures r == 0 <==> |Contents()| == 0
      ensures r > 0 ==> r <= |Contents()| < Pow2(r)
    {
      if root.None? then 0
      else HandleOfValid(root.value); Queries.Height(HandleOf(root.value))
    }

    /// `anySatisfy(predicate)`: false for an empty set.
    function AnySatisfy(p: int -> bool): (r: bool)
      reads this
      requires Valid()
      ensures r <==> exists x :: x in Contents() && p(x)
    {
      if root.None? then false
      else HandleOfValid(root.value); Satisfy.AnySatisfy(HandleOf(root.value), p)
    }

    /// `allSatisfy(predicate)`: true for an empty set.
    function AllSatisfy(p: int -> bool): (r: bool)
      reads this
      requires Valid()
      ensures r <==> forall x :: x in Contents() ==> p(x)
    {
      if root.None? then true
      else HandleOfValid(root.value); Satisfy.AllSatisfy(HandleOf(root.value), p)
    }

    /// `noneSatisfy(predicate)`: true for an empty set.
    function NoneSatisfy(p: int -> bool): (r: bool)
      reads this
      requires Valid()
      ensures r <==> forall x :: x in Contents() ==> !p(x)
    {
      if root.None? then true
      else HandleOfValid(root.value); Satisfy.NoneSatisfy(HandleOf(root.value), p)
    }

    /// `detect(predicate)`: the least accepted element, `None` standing for
    /// Java's `null`.
    function Detect(p: int -> bool): (r: Option<int>)
      reads this
      requires Valid()
      ensures r == Satisfy.FirstSatisfying(Contents(), p)
      ensures r.None? <==> forall x :: x in Contents() ==> !p(x)
      ensures r.Some? ==> r.value in Contents() && p(r.value)
                          && forall x :: x in Contents() && x < r.value ==> !p(x)
    {
      Satisfy.FirstSatisfyingSpec(Contents(), p);
      if root.None? then None
      else HandleOfValid(root.value); Satisfy.Detect(HandleOf(root.value), p)
    }

    /// `getFirst()`.
    method GetFirst() returns (r: Result<int, Failure>)
      requires Valid()
      ensures r.Err? <==> |Contents()| == 0
      ensures r.Err? ==> r.error == NoSuchElement
      ensures r.Ok? ==> r.value in Contents() && forall x :: x in Contents() ==> r.value <= x
    {
      if root.None? {
        return Err(NoSuchElement);
      }
      var v := First(root.value);
      return Ok(v);
    }

    /// `getLast()`.
    method GetLast() returns (r: Result<int, Failure>)
      requires Valid()
      ensures r.Err? <==> |Contents()| == 0
      ensures r.Err? ==> r.error == NoSuchElement
      ensures r.Ok? ==> r.value in Contents() && forall x :: x in Contents() ==> x <= r.value
    {
      if root.None? {
        return Err(NoSuchElement);
      }
      var v := Last(root.value);
      return Ok(v);
    }

    /// `add(value)`: a new element goes into a fresh leaf at the end of
    /// the search walk, after which the depth of that leaf is checked.
    method Add(v: int) returns (added: bool)
      requires Valid()
      modifies this
      ensures Valid()
      ensures added <==> v !in old(Contents())
      ensures !added ==> unchanged(this)
      ensures added ==> |Contents()| == |old(Contents())| + 1
      ensures added ==> forall x :: x in Contents() <==> x in old(Contents()) || x == v
    {
      if root.None? {
        root := Some(Simple(v, None, None));
        nodeCount := 1;
        maxNodeCount := 1;
        return true;
      }
      var root2, currentDepth;
      ghost var leafWalk, leaf;
      added, root2, currentDepth, leafWalk, leaf := InsertValue(root.value, v);
      if !added {
        return;
      }
      root := Some(root2);
      nodeCount := nodeCount + 1;
      maxNodeCount := if maxNodeCount < nodeCount then nodeCount else maxNodeCount;
      CheckRebalance(currentDepth, v, leafWalk, leaf);
    }

    /// `checkRebalance(currentDepth, value)`: a leaf at exactly `maxDepth`
    /// in a tree below `minSize` elements has an unbalanced ancestor, which
    /// is rebuilt; a deeper leaf, or a tree that is large enough, raises
    /// `maxDepth` and may rebuild the whole tree.
    method CheckRebalance(currentDepth: int, v: int, ghost leafWalk: seq<Frame>, ghost leaf: Handle)
      requires Valid() && root.Some?
      requires Bracketed(leafWalk, leaf, v) && Top(leafWalk, leaf) == HandleOf(root.value)
      requires GetValue(leaf) == v && HElements(leaf) == [v] && currentDepth == |leafWalk| + 1
      modifies this
      ensures Valid() && root.Some? && Contents() == old(Contents())
    {
      if currentDepth < maxDepth {
        return;
      }
      if currentDepth == maxDepth && nodeCount < minSize {
        Rebalance(v, leafWalk, leaf);
      } else {
        if nodeCount >= minSize {
          maxDepth := WrapAdd(maxDepth, 1);
          var m := MinSizeForDepth(maxDepth, balanceRatio);
          if m.Ok? {
            minSize := m.value;
          }
        }
        if nodeCount >= fullRebalanceSizeAdd {
          RebalanceRoot();
          ResetThresholds();
        }
      }
    }

    /// `rebalance(value)`: walks again to the new leaf, finds the scapegoat
    /// on that walk and rebuilds it. A leaf at depth `maxDepth` in a tree
    /// smaller than `minSize` cannot sit below balanced frames only, so the
    /// scapegoat exists.
    method Rebalance(v: int, ghost leafWalk: seq<Frame>, ghost leaf: Handle)
      requires Valid() && root.Some?
      requires Bracketed(leafWalk, leaf, v) && Top(leafWalk, leaf) == HandleOf(root.value)
      requires GetValue(leaf) == v && HElements(leaf) == [v]
      requires maxDepth == |leafWalk| + 1 && nodeCount < minSize
      modifies this
      ensures Valid() && root.Some? && Contents() == old(Contents())
    {
      HandleOfValid(root.value);
      PathElements(leafWalk, leaf);
      var found, ctx, h := Search.Search(root.value, v);
      UniqueWalk(ctx, h, leafWalk, leaf, v);
      BalancedWalkIsFull(ctx, h, balanceRatio);
      var scapegoat := FindScapegoat(ctx, h, nodeCount, balanceRatio);
      assert scapegoat.Some?;
      RebalanceNode(ctx, h, scapegoat.value);
    }

    /// `rebalanceNode(scapegoat)`: the scapegoat's elements are rebuilt
    /// into a balanced subtree; at the root this replaces the whole tree.
    method RebalanceNode(ctx: seq<Frame>, h: Handle, scapegoat: Scapegoat)
      requires Valid() && root.Some?
      requires PathTo(ctx, h) && Top(ctx, h) == HandleOf(root.value)
      requires scapegoat.index < |ctx| && scapegoat.size == |HElements(ctx[scapegoat.index].parent)|
      modifies this
      ensures Valid() && root.Some? && Contents() == old(Contents())
    {
      var i := scapegoat.index;
      FrameInPath(ctx, h, i);
      var origin := ctx[i].parent;
      var values := Queries.ToList(origin);
      if i == 0 {
        HandleOfValid(root.value);
        NonEmptyNode(root.value);
        var subTree := ConstructTreeSized(values);
        root := subTree;
        ResetThresholds();
      } else {
        var root2 := RebuildScapegoat(root.value, ctx, h, i, values);
        root := Some(root2);
      }
    }

    /// `remove(value)`: the element's node gives up its value (see
    /// `RemoveFound`), then `CheckShrink`.
    method Remove(v: int) returns (removed: bool)
      requires Valid()
      modifies this
      ensures Valid()
      ensures removed <==> v in old(Contents())
      ensures !removed ==> unchanged(this)
      ensures removed ==> |Contents()| == |old(Contents())| - 1
      ensures removed ==> forall x :: x in Contents() <==> x in old(Contents()) && x != v
    {
      if root.None? {
        return false;
      }
      var root2;
      removed, root2 := RemoveValue(root.value, v);
      if !removed {
        return;
      }
      root := root2;
      nodeCount := nodeCount - 1;
      CheckShrink();
    }

    /// The end of `remove`: a tree that shrank below
    /// `fullRebalanceRatioRemove` of its largest size is rebuilt.
    method CheckShrink()
      requires Valid()
      modifies this
      ensures Valid() && Contents() == old(Contents())
    {
      if root.Some? && (nodeCount as real) < (maxNodeCount as real) * fullRebalanceRatioRemove {
        RebalanceRoot();
        ResetThresholds();
      }
    }

    /// `clear()`.
    method Clear()
      requires Valid()
      modifies this
      ensures Valid() && Contents() == [] && nodeCount == 0
      ensures maxDepth == INT_MIN && fullRebalanceSizeAdd == 0
    {
      root := None;
      nodeCount := 0;
      ResetThresholds();
    }

    /// `rebalanceRoot()`: a single element becomes a simple node, more are
    /// packed into one table in the order `forEach` visits them.
    method RebalanceRoot()
      requires Valid() && root.Some?
      modifies this
      ensures Valid() && root.Some? && Contents() == old(Contents())
      ensures |Contents()| >= 2 ==> root.value.Compact?
    {
      NonEmptyNode(root.value);
      if nodeCount == 1 {
        SingleElement(root.value);
        root := Some(Simple(GetValue(HandleOf(root.value)), None, None));
        return;
      }
      var values := ForEach(root.value);
      var packed := PackSorted(values);
      root := Some(packed);
      ResetThresholds();
    }

    /// `resetThresholds()`: the thresholds recomputed from `nodeCount`.
    method ResetThresholds()
      requires Valid()
      modifies this
      ensures Valid() && root == old(root) && nodeCount == old(nodeCount)
      ensures maxNodeCount == nodeCount && maxDepth == MaxDepthUsingLog(nodeCount, balanceRatio)
      ensures MinSize(maxDepth, balanceRatio) == Ok(minSize)
      ensures fullRebalanceSizeAdd == FullRebalanceSize(nodeCount, fullRebalanceRatioAdd)
    {
      maxNodeCount := nodeCount;
      maxDepth := MaxDepthUsingLog(nodeCount, balanceRatio);
      MinSizeIsLeastReaching(maxDepth, balanceRatio);
      var m := MinSizeForDepth(maxDepth, balanceRatio);
      minSize := m.value;
      fullRebalanceSizeAdd := FullRebalanceSize(nodeCount, fullRebalanceRatioAdd);
    }

    /// `compact()`: rebuilds a non-empty tree into a single table.
    method Compact()
      requires Valid()
      modifies this
      ensures Valid() && Contents() == old(Contents())
      ensures |Contents()| >= 2 ==> root.Some? && root.value.Compact?
    {
      if root.None? {
        return;
      }
      RebalanceRoot();
      ResetThresholds();
    }
  }
}

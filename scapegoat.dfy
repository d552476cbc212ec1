/// Finding the scapegoat on the walk to a freshly added leaf
/// (`findScapegoat`, `getSibling`) and rebuilding its subtree below the
/// root (`rebalanceNode`).
///
/// The Java stack of nodes is the walk's frames: frame `k` holds the node
/// `k` steps below the root and the side taken from it. A scapegoat is
/// identified by its frame index; its parent is the frame above it.
module Scapegoats {
  import opened Wrappers
  import opened Nodes
  import opened Handles
  import opened NodeOps
  import opened Queries
  import opened Rebalancing
  import opened Thresholds
  import opened Search

  /// `getSibling(parentNode, siblingNode)`: the other child of a parent.
  /// Java tests whether the left child equals the node in hand; a compact
  /// view equals another when table and position agree and a simple node
  /// only equals itself, so the test is the node in hand being on the left.
  function GetSibling(parent: Handle, childDir: Dir): (r: Option<Handle>)
    requires HValid(parent) && HasChild(parent, childDir)
    ensures r.Some? <==> HasChild(parent, Other(childDir))
    ensures r.Some? ==> HValid(r.value) && r.value == GetChild(parent, Other(childDir))
  {
    var hasLeftChild := HasChild(parent, Left);
    if hasLeftChild && childDir == Left then
      (if HasChild(parent, Right) then Some(GetChild(parent, Right)) else None)
    else if hasLeftChild then Some(GetChild(parent, Left))
    else None
  }

  /// The test of `findScapegoat` for one frame, with exact sizes: the child
  /// taken or its sibling holds more than `balanceRatio` of the frame's node.
  ghost predicate WeightUnbalanced(f: Frame, balanceRatio: real)
  {
    && HValid(f.parent)
    && (|| Heavy(|ChildElems(f.parent, f.dir)|, |HElements(f.parent)|, balanceRatio)
        || Heavy(|ChildElems(f.parent, Other(f.dir))|, |HElements(f.parent)|, balanceRatio))
  }

  /// A part of `c` elements out of `n` is over the `balanceRatio` share.
  predicate Heavy(c: int, n: int, balanceRatio: real)
  {
    c as real > balanceRatio * n as real
  }

  /// `Scapegoat`: the frame index of the origin (its parent is the frame
  /// above, none for index 0) and the origin's size.
  datatype Scapegoat = Scapegoat(index: nat, size: int)

  /// Which frames of a walk are out of balance, from the top down.
  ghost function Unbalanced(ctx: seq<Frame>, balanceRatio: real): (flags: seq<bool>)
    ensures |flags| == |ctx|
    ensures forall j :: 0 <= j < |ctx| ==> flags[j] == WeightUnbalanced(ctx[j], balanceRatio)
  {
    seq(|ctx|, j requires 0 <= j < |ctx| => WeightUnbalanced(ctx[j], balanceRatio))
  }

  /// Frame `i` is the one `findScapegoat` settles on: going up from the
  /// leaf, the first run of unbalanced frames ends at `i`.
  ghost predicate IsScapegoat(ctx: seq<Frame>, balanceRatio: real, i: nat)
  {
    FirstRunEnd(Unbalanced(ctx, balanceRatio), i)
  }

  /// Going up from the end of `flags`, the first run of set flags ends at `i`.
  predicate FirstRunEnd(flags: seq<bool>, i: nat)
  {
    && i < |flags| && flags[i]
    && (i > 0 ==> !flags[i - 1])
    && StaysClear(flags, i)
  }

  /// Below index `i`, a clear flag has only clear flags below it.
  predicate StaysClear(flags: seq<bool>, i: nat)
  {
    forall j, j2 :: i < j < j2 < |flags| && !flags[j] ==> !flags[j2]
  }

  /// Flags `k` and below are all clear.
  predicate ClearFrom(flags: seq<bool>, k: nat)
  {
    forall j :: k <= j < |flags| ==> !flags[j]
  }

  /// Frames `k` and below are all balanced.
  ghost predicate BalancedFrom(ctx: seq<Frame>, balanceRatio: real, k: nat)
  {
    ClearFrom(Unbalanced(ctx, balanceRatio), k)
  }

  /// A set flag on top of clear flags only.
  lemma RunStarts(flags: seq<bool>, k: nat)
    requires ClearFrom(flags, k + 1)
    ensures StaysClear(flags, k)
  {
  }

  /// A set flag on top of a set one.
  lemma RunGrows(flags: seq<bool>, k: nat)
    requires k + 1 < |flags| && flags[k + 1] && StaysClear(flags, k + 1)
    ensures StaysClear(flags, k)
  {
  }

  /// A clear flag on top of clear flags.
  lemma ClearBelow(flags: seq<bool>, k: nat)
    requires k < |flags| && !flags[k] && ClearFrom(flags, k + 1)
    ensures ClearFrom(flags, k)
  {
  }

  /// `findScapegoat(stack)`: climbs from the leaf, adding
  /// up sizes from the siblings (at the root from `nodeCount`), and returns
  /// the highest frame of the first unbalanced run, or nothing if every
  /// frame is balanced.
  method FindScapegoat(ctx: seq<Frame>, h: Handle, nodeCount: int, balanceRatio: real)
    returns (r: Option<Scapegoat>)
    requires PathTo(ctx, h) && |HElements(h)| == 1
    requires nodeCount == |HElements(Top(ctx, h))|
    ensures r.None? ==> BalancedFrom(ctx, balanceRatio, 0)
    ensures r.Some? ==> IsScapegoat(ctx, balanceRatio, r.value.index)
                        && r.value.size == |HElements(ctx[r.value.index].parent)|
  {
    var k: nat := |ctx|;
    var scapegoatSize := 1;
    ghost var flags := Unbalanced(ctx, balanceRatio);
    r := None;
    while true
      invariant k <= |ctx|
      invariant scapegoatSize == |HElements(StackAt(ctx, h, k))|
      invariant r.None? ==> ClearFrom(flags, k)
      invariant r.Some? ==> k < |ctx| && r.value == Scapegoat(k, scapegoatSize) && flags[k]
      invariant r.Some? ==> StaysClear(flags, k)
      invariant r.Some? ==> r.value.size == |HElements(ctx[k].parent)|
      decreases k
    {
      if k == 0 {
        return;
      }
      k := k - 1;
      var unbalanced;
      unbalanced, scapegoatSize := CheckFrame(ctx, h, k, scapegoatSize, nodeCount, balanceRatio);
      if unbalanced {
        if r.Some? {
          RunGrows(flags, k);
        } else {
          RunStarts(flags, k);
        }
        r := Some(Scapegoat(k, scapegoatSize));
      } else if r.Some? {
        return;
      } else {
        ClearBelow(flags, k);
      }
    }
  }

  /// One step of the climb in `findScapegoat`: the sibling of the node in
  /// hand (`getSibling`), the size of their parent (at the root, from
  /// `nodeCount`) and the weight test on the two children.
  method CheckFrame(ctx: seq<Frame>, h: Handle, k: nat, childSize: int, nodeCount: int, balanceRatio: real)
    returns (unbalanced: bool, size: int)
    requires PathTo(ctx, h) && k < |ctx|
    requires childSize == |HElements(StackAt(ctx, h, k + 1))| && nodeCount == |HElements(Top(ctx, h))|
    ensures size == |HElements(StackAt(ctx, h, k))| && size == |HElements(ctx[k].parent)|
    ensures unbalanced == Unbalanced(ctx, balanceRatio)[k]
  {
    var candidate := ctx[k].parent;
    ClimbSizes(ctx, h, k);
    var childSibling := GetSibling(candidate, ctx[k].dir);
    var siblingSize;
    if k == 0 {
      // At the root the sibling's size follows from the node count.
      siblingSize := nodeCount - childSize - 1;
      size := nodeCount;
    } else {
      siblingSize := if childSibling.None? then 0 else Size(childSibling.value);
      size := childSize + siblingSize + 1;
    }
    FrameTest(ctx, h, k, childSize, siblingSize, size, balanceRatio);
    unbalanced := Heavy(childSize, size, balanceRatio) || Heavy(siblingSize, size, balanceRatio);
  }

  /// The sizes `findScapegoat` computes for frame `k` decide whether that
  /// frame is out of balance.
  lemma FrameTest(ctx: seq<Frame>, h: Handle, k: nat, childSize: int, siblingSize: int, size: int, balanceRatio: real)
    requires PathTo(ctx, h) && k < |ctx| && HValid(ctx[k].parent)
    requires childSize == |ChildElems(ctx[k].parent, ctx[k].dir)|
    requires siblingSize == |ChildElems(ctx[k].parent, Other(ctx[k].dir))|
    requires size == |HElements(ctx[k].parent)|
    ensures WeightUnbalanced(ctx[k], balanceRatio)
            <==> Heavy(childSize, size, balanceRatio) || Heavy(siblingSize, size, balanceRatio)
  {
  }

  /// Frame `k` of a path: its node is the handle `k` steps down, it has
  /// the child taken, and its size counts that child, the child's sibling
  /// and itself.
  lemma ClimbSizes(ctx: seq<Frame>, h: Handle, k: nat)
    requires PathTo(ctx, h) && k < |ctx|
    ensures HValid(ctx[k].parent) && StackAt(ctx, h, k) == ctx[k].parent
    ensures HasChild(ctx[k].parent, ctx[k].dir)
    ensures ChildElems(ctx[k].parent, ctx[k].dir) == HElements(StackAt(ctx, h, k + 1))
    ensures |HElements(ctx[k].parent)|
            == |ChildElems(ctx[k].parent, ctx[k].dir)| + |ChildElems(ctx[k].parent, Other(ctx[k].dir))| + 1
    ensures k == 0 ==> ctx[k].parent == Top(ctx, h)
  {
    PathPrefix(ctx, h, k);
    Split(ctx[k].parent);
  }

  /// The sizes along a walk on which every frame is balanced, from the top down.
  lemma BalancedSizes(ctx: seq<Frame>, h: Handle, balanceRatio: real) returns (sizes: seq<nat>)
    requires PathTo(ctx, h)
    requires BalancedFrom(ctx, balanceRatio, 0)
    ensures |sizes| == |ctx| + 1 && sizes[0] == |HElements(Top(ctx, h))| && sizes[|ctx|] == |HElements(h)|
    ensures Shrinking(sizes, balanceRatio)
  {
    sizes := StackSizes(ctx, h);
    BalancedShrinking(ctx, h, balanceRatio);
    assert StackAt(ctx, h, 0) == Top(ctx, h);
    assert StackAt(ctx, h, |ctx|) == h;
  }

  /// Every step of a balanced walk shrinks by the ratio.
  lemma BalancedShrinking(ctx: seq<Frame>, h: Handle, balanceRatio: real)
    requires PathTo(ctx, h)
    requires BalancedFrom(ctx, balanceRatio, 0)
    ensures Shrinking(StackSizes(ctx, h), balanceRatio)
  {
    var sizes := StackSizes(ctx, h);
    forall k, k2 | 0 <= k && k2 == k + 1 < |sizes|
      ensures !Heavy(sizes[k2], sizes[k], balanceRatio)
    {
      BalancedStep(ctx, h, balanceRatio, k);
    }
  }

  /// One balanced frame: the child's size is within the ratio of its parent's.
  lemma BalancedStep(ctx: seq<Frame>, h: Handle, balanceRatio: real, k: nat)
    requires PathTo(ctx, h) && k < |ctx| && !WeightUnbalanced(ctx[k], balanceRatio)
    ensures !Heavy(|HElements(StackAt(ctx, h, k + 1))|, |HElements(StackAt(ctx, h, k))|, balanceRatio)
  {
    ClimbSizes(ctx, h, k);
    BalancedFrame(ctx[k], balanceRatio);
  }

  /// The sizes of the handles along a walk, from the top down.
  ghost function StackSizes(ctx: seq<Frame>, h: Handle): (sizes: seq<nat>)
    requires PathTo(ctx, h)
    ensures |sizes| == |ctx| + 1
    ensures forall k :: 0 <= k < |sizes| ==> sizes[k] == |HElements(StackAt(ctx, h, k))|
  {
    seq(|ctx| + 1, k requires 0 <= k <= |ctx| => |HElements(StackAt(ctx, h, k))|)
  }

  /// No size is over the `balanceRatio` share of the one before it.
  ghost predicate Shrinking(sizes: seq<nat>, balanceRatio: real)
  {
    forall i, i2 :: 0 <= i && i2 == i + 1 < |sizes| ==> !Heavy(sizes[i2], sizes[i], balanceRatio)
  }

  /// Sizes that shrink by at least `balanceRatio` per step.
  lemma {:induction false} ShrinkingChain(sizes: seq<nat>, balanceRatio: real, k: nat, last: nat, first: nat)
    requires 0.0 < balanceRatio <= 1.0 && k < |sizes| && last == sizes[k] && first == sizes[0]
    requires Shrinking(sizes, balanceRatio)
    ensures Pow(1.0 / balanceRatio, k) * last as real <= first as real
    decreases k
  {
    if k > 0 {
      var b := 1.0 / balanceRatio;
      ShrinkingChain(sizes, balanceRatio, k - 1, sizes[k - 1], first);
      PowAtLeastOne(b, k - 1);
      GrowthStep(balanceRatio, Pow(b, k - 1), sizes[k] as real, sizes[k - 1] as real, sizes[0] as real);
    }
  }

  /// What a balanced frame says about the side taken.
  lemma BalancedFrame(f: Frame, balanceRatio: real)
    requires HValid(f.parent) && !WeightUnbalanced(f, balanceRatio)
    ensures !Heavy(|ChildElems(f.parent, f.dir)|, |HElements(f.parent)|, balanceRatio)
  {
  }

  /// The arithmetic of one step of `BalancedGrowth`.
  lemma GrowthStep(balanceRatio: real, pw: real, c: real, p: real, top: real)
    requires 0.0 < balanceRatio && pw >= 0.0 && c <= balanceRatio * p && pw * p <= top
    ensures (1.0 / balanceRatio) * pw * c <= top
  {
    var b := 1.0 / balanceRatio;
    MulMono(c, balanceRatio * p, b);
    assert b * balanceRatio == 1.0;
    assert c * b <= p;
    MulMono(c * b, p, pw);
    assert b * pw * c == (c * b) * pw;
  }

  /// Why `findScapegoat` can assert that it found one: a walk of `depth - 1`
  /// balanced frames to a leaf needs at least `minSizeForDepth(depth)`
  /// elements, so a tree smaller than that has an unbalanced frame.
  lemma BalancedWalkIsFull(ctx: seq<Frame>, h: Handle, balanceRatio: real)
    requires PathTo(ctx, h) && |HElements(h)| == 1 && 0.0 < balanceRatio <= 1.0
    requires IsJavaInt(|ctx| + 1)
    ensures MinSize(|ctx| + 1, balanceRatio).Ok?
    ensures BalancedFrom(ctx, balanceRatio, 0)
            ==> MinSize(|ctx| + 1, balanceRatio).value <= |HElements(Top(ctx, h))|
  {
    if BalancedFrom(ctx, balanceRatio, 0) {
      var sizes := BalancedSizes(ctx, h, balanceRatio);
      ShrinkingChain(sizes, balanceRatio, |ctx|, 1, sizes[0]);
      MinSizeReachedBy(|ctx|, balanceRatio, sizes[0]);
    } else {
      MinSizeIsLeastReaching(|ctx| + 1, balanceRatio);
    }
  }

  /// `rebalanceNode` below the root: the scapegoat's sorted
  /// values are rebuilt into a balanced subtree which replaces it, through
  /// its simple parent, in its last-row slot, or by repopulating the
  /// parent's table; the tree keeps its elements and its kind of root.
  method RebuildScapegoat(root: Node, ctx: seq<Frame>, h: Handle, i: nat, values: seq<int>)
    returns (root2: Node)
    requires WellFormed(root) && PathTo(ctx, h) && Top(ctx, h) == HandleOf(root)
    requires 0 < i < |ctx| && values == HElements(ctx[i].parent)
    ensures WellFormed(root2) && Elements(root2) == Elements(root)
    ensures root2.Compact? == root.Compact?
  {
    var origin := ctx[i].parent;
    var parent := ctx[i - 1].parent;
    var d := ctx[i - 1].dir;
    PathPrefix(ctx, h, i);
    PathPrefix(ctx, h, i - 1);
    assert ChildElems(parent, d) == values;
    Split(origin);
    if parent.Linked? {
      var subTree := ConstructTreeSized(values);
      var p2 := SetChildTree(parent, d, subTree.value);
      SameElements(parent, d, p2);
      root2 := Rehung(root, ctx[..i - 1], parent, p2);
    } else if origin.View? && InLastRow(origin.table, origin.pos) {
      var subTree := ConstructTreeSized(values);
      var o2 := SetSubTree(origin, subTree.value);
      root2 := Rehung(root, ctx[..i], origin, o2);
    } else {
      var p2 := Populate(parent, d, values, 0, |values|);
      assert values[0..|values|] == values;
      SameElements(parent, d, p2);
      root2 := Rehung(root, ctx[..i - 1], parent, p2);
    }
  }

  /// A parent whose `d` subtree was replaced by one with the same elements
  /// keeps its elements.
  lemma SameElements(parent: Handle, d: Dir, p2: Handle)
    requires HValid(parent) && HValid(p2) && GetValue(p2) == GetValue(parent)
    requires ChildElems(p2, d) == ChildElems(parent, d)
    requires ChildElems(p2, Other(d)) == ChildElems(parent, Other(d))
    ensures HElements(p2) == HElements(parent)
  {
    Split(parent);
    Split(p2);
  }

  /// The tree with a handle on a walk replaced by a compatible one holding
  /// the same elements.
  function Rehung(root: Node, ctx: seq<Frame>, h: Handle, h2: Handle): (root2: Node)
    requires WellFormed(root) && PathTo(ctx, h) && Top(ctx, h) == HandleOf(root)
    requires Compatible(h, h2) && HElements(h2) == HElements(h)
    ensures WellFormed(root2) && Elements(root2) == Elements(root)
    ensures root2.Compact? == root.Compact?
  {
    HandleOfValid(root);
    PathElements(ctx, h);
    RebuildSpec(ctx, h, h2);
    CompatibleNode(HandleOf(root), Rebuild(ctx, h2));
    NodeOf(Rebuild(ctx, h2))
  }
}

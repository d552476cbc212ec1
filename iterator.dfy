/// `ScapegoatTreeSetIterator`: an in-order walk over the tree with an
/// explicit stack of the nodes above the next one.
module Iteration {
  import opened Wrappers
  import opened Nodes
  import opened Handles
  import opened Search
  import opened TreeSets

  /// The elements an iterator standing at `h` has still to return: `h`'s
  /// value, its right subtree, and what every frame above it passes on the
  /// right.
  ghost function Upcoming(ctx: seq<Frame>, h: Handle): seq<int>
    requires PathTo(ctx, h)
  {
    [GetValue(h)] + ChildElems(h, Right) + PathPost(ctx, h)
  }

  /// The stack holds the parents of the frames, top of the tree first.
  ghost predicate Parents(stack: seq<Handle>, ctx: seq<Frame>)
  {
    |stack| == |ctx| && forall i :: 0 <= i < |ctx| ==> stack[i] == ctx[i].parent
  }

  /// The loop that goes down left children, pushing every node it leaves.
  /// What is left to return is then the subtree it started from, followed
  /// by what the path above that subtree passes on the right.
  method PushLeftmost(stack: seq<Handle>, ghost ctx: seq<Frame>, h: Handle)
      returns (stack2: seq<Handle>, ghost ctx2: seq<Frame>, h2: Handle)
    requires PathTo(ctx, h) && Parents(stack, ctx)
    ensures PathTo(ctx2, h2) && Parents(stack2, ctx2) && Top(ctx2, h2) == Top(ctx, h)
    ensures !HasChild(h2, Left)
    ensures Upcoming(ctx2, h2) == HElements(h) + PathPost(ctx, h)
    ensures PathPre(ctx, h) == [] ==> PathPre(ctx2, h2) == []
  {
    stack2, ctx2, h2 := stack, ctx, h;
    while HasChild(h2, Left)
      invariant PathTo(ctx2, h2) && Parents(stack2, ctx2) && Top(ctx2, h2) == Top(ctx, h)
      invariant HElements(h2) + PathPost(ctx2, h2) == HElements(h) + PathPost(ctx, h)
      invariant PathPre(ctx, h) == [] ==> PathPre(ctx2, h2) == []
      decreases |HElements(h2)|
    {
      StepLeft(ctx2, h2);
      ParentsPush(stack2, ctx2, Frame(h2, Left));
      stack2 := stack2 + [h2];
      ctx2 := ctx2 + [Frame(h2, Left)];
      h2 := GetChild(h2, Left);
    }
    Leftmost(ctx2, h2);
  }

  /// Pushing a frame's parent keeps the stack in step with the frames.
  lemma ParentsPush(stack: seq<Handle>, ctx: seq<Frame>, f: Frame)
    requires Parents(stack, ctx)
    ensures Parents(stack + [f.parent], ctx + [f])
  {
  }

  /// Popping the top frame keeps the stack in step with the frames.
  lemma ParentsPop(stack: seq<Handle>, ctx: seq<Frame>)
    requires Parents(stack, ctx) && |ctx| > 0
    ensures Parents(stack[..|stack| - 1], ctx[..|ctx| - 1])
    ensures stack[|stack| - 1] == ctx[|ctx| - 1].parent
  {
  }

  /// At a node without a left child, what is left to return is its subtree
  /// and what the path passes on the right.
  lemma Leftmost(ctx: seq<Frame>, h: Handle)
    requires PathTo(ctx, h) && !HasChild(h, Left)
    ensures Upcoming(ctx, h) == HElements(h) + PathPost(ctx, h)
  {
    Split(h);
    var v, r := GetValue(h), ChildElems(h, Right);
    assert ChildElems(h, Left) == [];
    assert HElements(h) == [v] + r;
  }

  /// One step down on side `d`: the new frame adds its parent's parts on
  /// either side of the child to the path.
  lemma StepDownPath(ctx: seq<Frame>, h: Handle, d: Dir)
    requires PathTo(ctx, h) && HasChild(h, d)
    ensures var f := Frame(h, d);
      var c, ctx2 := GetChild(h, d), ctx + [f];
      && PathTo(ctx2, c) && Top(ctx2, c) == Top(ctx, h)
      && PathPost(ctx2, c) == FramePost(f) + PathPost(ctx, h)
      && PathPre(ctx2, c) == PathPre(ctx, h) + FramePre(f)
      && HElements(c) == ChildElems(h, d)
  {
    var ctx2 := ctx + [Frame(h, d)];
    PathExtend(ctx, h, d);
    assert ctx2[..|ctx2| - 1] == ctx;
  }

  /// One step down to a left child: the parent's value and right subtree
  /// move from the current subtree to the path.
  lemma StepLeft(ctx: seq<Frame>, h: Handle)
    requires PathTo(ctx, h) && HasChild(h, Left)
    ensures var c, ctx2 := GetChild(h, Left), ctx + [Frame(h, Left)];
      && PathTo(ctx2, c) && Top(ctx2, c) == Top(ctx, h)
      && |HElements(c)| < |HElements(h)|
      && HElements(c) + PathPost(ctx2, c) == HElements(h) + PathPost(ctx, h)
      && PathPre(ctx2, c) == PathPre(ctx, h)
  {
    StepDownPath(ctx, h, Left);
    var l, v, r, post := ChildElems(h, Left), GetValue(h), ChildElems(h, Right), PathPost(ctx, h);
    assert FramePost(Frame(h, Left)) == [v] + r;
    Split(h);
    Regroup(l, v, r, post);
  }

  lemma Regroup(l: seq<int>, v: int, r: seq<int>, post: seq<int>)
    ensures l + (([v] + r) + post) == (l + [v] + r) + post
  {
  }

  /// One step down to a right child: the current subtree's value and left
  /// subtree are already returned, and the path passes nothing more.
  lemma StepRight(ctx: seq<Frame>, h: Handle)
    requires PathTo(ctx, h) && HasChild(h, Right)
    ensures var c, ctx2 := GetChild(h, Right), ctx + [Frame(h, Right)];
      && PathTo(ctx2, c) && Top(ctx2, c) == Top(ctx, h)
      && HElements(c) + PathPost(ctx2, c) == ChildElems(h, Right) + PathPost(ctx, h)
  {
    StepDownPath(ctx, h, Right);
    var post := PathPost(ctx, h);
    assert FramePost(Frame(h, Right)) == [];
    assert [] + post == post;
  }

  /// The subtree at the top frame's parent is a part of the whole tree, so
  /// it is sorted when the tree is.
  lemma ParentSorted(ctx: seq<Frame>, h: Handle)
    requires PathTo(ctx, h) && |ctx| > 0 && StrictlySorted(HElements(Top(ctx, h)))
    ensures StrictlySorted(HElements(ctx[|ctx| - 1].parent))
  {
    var rest, p := ctx[..|ctx| - 1], ctx[|ctx| - 1].parent;
    PathElements(rest, p);
    TopOfRest(ctx, h);
    SortedParts(PathPre(rest, p) + HElements(p), PathPost(rest, p));
    SortedParts(PathPre(rest, p), HElements(p));
  }

  /// The test `Objects.equals(oldNode, next.getLeft())` of `next()`: in a
  /// search tree a node is its parent's left child exactly when the walk
  /// went left at that parent, since a left and a right subtree never hold
  /// the same elements.
  lemma CameFromLeft(ctx: seq<Frame>, h: Handle)
    requires PathTo(ctx, h) && |ctx| > 0 && StrictlySorted(HElements(Top(ctx, h)))
    ensures var f := ctx[|ctx| - 1];
      (HasChild(f.parent, Left) && GetChild(f.parent, Left) == h) <==> f.dir == Left
  {
    var f := ctx[|ctx| - 1];
    var p := f.parent;
    if f.dir == Right && HasChild(p, Left) {
      ParentSorted(ctx, h);
      Split(p);
      Split(GetChild(p, Left));
      SortedAround(ChildElems(p, Left), GetValue(p), ChildElems(p, Right));
      var x := ChildElems(p, Left)[0];
      assert x in ChildElems(p, Left) && x !in ChildElems(p, Right);
      assert HElements(GetChild(p, Left)) != HElements(h);
    }
  }

  /// Going up from a node whose subtree is finished: the frame's parent is
  /// next when the walk went left there; otherwise the parent is finished
  /// too.
  lemma StepUp(ctx: seq<Frame>, h: Handle)
    requires PathTo(ctx, h) && |ctx| > 0
    ensures var f, rest := ctx[|ctx| - 1], ctx[..|ctx| - 1];
      && PathTo(rest, f.parent) && Top(rest, f.parent) == Top(ctx, h)
      && (f.dir == Left ==> PathPost(ctx, h) == Upcoming(rest, f.parent))
      && (f.dir == Right ==> PathPost(ctx, h) == PathPost(rest, f.parent))
  {
    TopOfRest(ctx, h);
  }

  class ScapegoatTreeSetIterator {
    /// The tree the iterator walks, as it was when the iterator was made.
    ghost const root: Option<Node>
    var stack: seq<Handle>
    var next: Option<Handle>

    /// The frames of the walk: the stacked parents with the side taken below each.
    ghost var ctx: seq<Frame>
    /// The elements `next()` has returned so far.
    ghost var returned: seq<int>

    /// `next` is reached from the root through the stacked parents; with
    /// no `next` the stack is empty.
    ghost predicate Walking()
      reads this
    {
      && (root.Some? ==> WellFormed(root.value)) && StrictlySorted(OptElements(root))
      && Parents(stack, ctx)
      && (next.None? ==> ctx == [])
      && (next.Some? ==> root.Some? && PathTo(ctx, next.value) && Top(ctx, next.value) == HandleOf(root.value))
    }

    /// The elements still to come, in order.
    ghost function Remaining(): seq<int>
      reads this
      requires Walking()
    {
      Ahead(ctx, next)
    }

    /// Every element is either returned or still to come, in order.
    ghost predicate Valid()
      reads this
    {
      Walking() && returned + Remaining() == OptElements(root)
    }

    /// `new ScapegoatTreeSetIterator()`: an empty set has no next node;
    /// otherwise the walk goes down left children from the root.
    constructor (s: ScapegoatTreeSet)
      requires s.Valid()
      ensures Valid() && root == s.root && returned == [] && Remaining() == s.Contents()
    {
      root := s.root;
      returned := [];
      if s.root.None? {
        stack, ctx, next := [], [], None;
      } else {
        var top := HandleOf(s.root.value);
        HandleOfValid(s.root.value);
        var stack2, ctx2, h2 := PushLeftmost([], [], top);
        stack, ctx, next := stack2, ctx2, Some(h2);
      }
    }

    /// `hasNext()`.
    function HasNext(): (r: bool)
      reads this
      requires Valid()
      ensures r <==> |Remaining()| > 0
    {
      next.Some?
    }

    /// `next()`: the next element in ascending order, or `NoSuchElement`
    /// once every element has been returned.
    method Next() returns (r: Result<int, Failure>)
      requires Valid()
      modifies this
      ensures Valid()
      ensures r.Err? <==> old(Remaining()) == []
      ensures r.Err? ==> r.error == NoSuchElement && returned == old(returned) && Remaining() == []
      ensures r.Ok? ==> r.value == old(Remaining())[0] && Remaining() == old(Remaining())[1..]
      ensures r.Ok? ==> returned == old(returned) + [r.value]
      ensures r.Ok? ==> forall x :: x in old(returned) ==> x < r.value
    {
      if next.None? {
        return Err(NoSuchElement);
      }
      var result := next.value;
      ReturnedBelow(returned, Upcoming(ctx, result), OptElements(root));
      HandleOfValid(root.value);
      var stack2, ctx2, next2 := Advance(stack, ctx, result);
      returned := returned + [GetValue(result)];
      stack, ctx, next := stack2, ctx2, next2;
      return Ok(GetValue(result));
    }
  }

  /// The walk of `next()` past the node `h` it returns: down into the
  /// right subtree when there is one, otherwise up the stack. Afterwards
  /// what is left to return is what was left before, without `h`'s value.
  method Advance(stack: seq<Handle>, ghost ctx: seq<Frame>, h: Handle)
      returns (stack2: seq<Handle>, ghost ctx2: seq<Frame>, next: Option<Handle>)
    requires PathTo(ctx, h) && Parents(stack, ctx) && StrictlySorted(HElements(Top(ctx, h)))
    ensures Parents(stack2, ctx2)
    ensures next.None? ==> ctx2 == []
    ensures next.Some? ==> PathTo(ctx2, next.value) && Top(ctx2, next.value) == Top(ctx, h)
    ensures Ahead(ctx2, next) == Upcoming(ctx, h)[1..]
  {
    UpcomingTail(ctx, h);
    if HasChild(h, Right) {
      StepRight(ctx, h);
      ParentsPush(stack, ctx, Frame(h, Right));
      var h2;
      stack2, ctx2, h2 := PushLeftmost(stack + [h], ctx + [Frame(h, Right)], GetChild(h, Right));
      next := Some(h2);
    } else {
      stack2, ctx2, next := Climb(stack, ctx, h);
    }
  }

  /// After the value of `h`, its right subtree and then the path's right
  /// parts are still to come.
  lemma UpcomingTail(ctx: seq<Frame>, h: Handle)
    requires PathTo(ctx, h)
    ensures Upcoming(ctx, h)[1..] == ChildElems(h, Right) + PathPost(ctx, h)
    ensures !HasChild(h, Right) ==> Upcoming(ctx, h)[1..] == PathPost(ctx, h)
  {
    ConsTail(GetValue(h), ChildElems(h, Right), PathPost(ctx, h));
  }

  lemma ConsTail(v: int, a: seq<int>, b: seq<int>)
    ensures ([v] + a + b)[1..] == a + b
    ensures a == [] ==> a + b == b
  {
  }

  /// What is left to return from the position `next` reached through `ctx`.
  ghost function Ahead(ctx: seq<Frame>, next: Option<Handle>): seq<int>
    requires next.Some? ==> PathTo(ctx, next.value)
  {
    if next.None? then [] else Upcoming(ctx, next.value)
  }

  /// The climb of `next()` from a node with no right subtree: parents are
  /// popped until one is reached from its left child, which is next; when
  /// the stack runs out there is no next node. What is left to return is
  /// what the path passed on the right of the starting node.
  method Climb(stack: seq<Handle>, ghost ctx: seq<Frame>, h: Handle)
      returns (stack2: seq<Handle>, ghost ctx2: seq<Frame>, next: Option<Handle>)
    requires PathTo(ctx, h) && Parents(stack, ctx) && StrictlySorted(HElements(Top(ctx, h)))
    ensures Parents(stack2, ctx2)
    ensures next.None? ==> ctx2 == [] && PathPost(ctx, h) == []
    ensures next.Some? ==> PathTo(ctx2, next.value) && Top(ctx2, next.value) == Top(ctx, h)
    ensures next.Some? ==> Upcoming(ctx2, next.value) == PathPost(ctx, h)
  {
    stack2, ctx2 := stack, ctx;
    var current := h;
    while |stack2| > 0
      invariant PathTo(ctx2, current) && Parents(stack2, ctx2) && Top(ctx2, current) == Top(ctx, h)
      invariant PathPost(ctx2, current) == PathPost(ctx, h)
      decreases |stack2|
    {
      var oldNode := current;
      current := stack2[|stack2| - 1];
      Pop(stack2, ctx2, oldNode);
      stack2 := stack2[..|stack2| - 1];
      ctx2 := ctx2[..|ctx2| - 1];
      var cameFromLeft := HasChild(current, Left) && GetChild(current, Left) == oldNode;
      if cameFromLeft {
        return stack2, ctx2, Some(current);
      }
    }
    return [], [], None;
  }

  /// One pop of the climb: the popped parent is reached through the
  /// remaining frames, and it is next exactly when the node left behind is
  /// its left child; otherwise its own subtree is finished.
  lemma Pop(stack: seq<Handle>, ctx: seq<Frame>, h: Handle)
    requires PathTo(ctx, h) && Parents(stack, ctx) && |stack| > 0
    requires StrictlySorted(HElements(Top(ctx, h)))
    ensures var p, rest := stack[|stack| - 1], ctx[..|ctx| - 1];
      && PathTo(rest, p) && Parents(stack[..|stack| - 1], rest) && Top(rest, p) == Top(ctx, h)
      && (HasChild(p, Left) && GetChild(p, Left) == h ==> Upcoming(rest, p) == PathPost(ctx, h))
      && (!(HasChild(p, Left) && GetChild(p, Left) == h) ==> PathPost(rest, p) == PathPost(ctx, h))
  {
    ParentsPop(stack, ctx);
    StepUp(ctx, h);
    CameFromLeft(ctx, h);
  }

  /// Returning the first of the elements still to come: it is above every
  /// element returned before, and the split between returned and still to
  /// come moves by one.
  lemma ReturnedBelow(returned: seq<int>, upcoming: seq<int>, contents: seq<int>)
    requires returned + upcoming == contents && |upcoming| > 0 && StrictlySorted(contents)
    ensures (returned + [upcoming[0]]) + upcoming[1..] == contents
    ensures forall x :: x in returned ==> x < upcoming[0]
  {
    SortedParts(returned, upcoming);
    assert upcoming[0] in upcoming;
    assert upcoming == [upcoming[0]] + upcoming[1..];
  }
}

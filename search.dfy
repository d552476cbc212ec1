/// The descent from the root that `add`, `remove` and `rebalance` share,
/// and what the tree looks like after a leaf is added or a found node is
/// removed.
///
/// The Java loops keep only the current node (and, in `remove`, its
/// parent); here the walk also keeps the frames above the current node, so
/// that the changed node can be hung back under its unchanged ancestors.
module Search {
  import opened Wrappers
  import opened Positions
  import opened Nodes
  import opened Handles
  import opened NodeOps
  import opened Removal

  /// The side `compareTo` sends a value to.
  function Side(v: int, value: int): Dir
  {
    if v < value then Left else Right
  }

  lemma SortedParts(a: seq<int>, b: seq<int>)
    requires StrictlySorted(a + b)
    ensures StrictlySorted(a) && StrictlySorted(b)
    ensures forall x, y :: x in a && y in b ==> x < y
  {
    var s := a + b;
    assert forall i :: 0 <= i < |a| ==> s[i] == a[i];
    assert forall j :: 0 <= j < |b| ==> s[|a| + j] == b[j];
    forall x, y | x in a && y in b ensures x < y {
      var i :| 0 <= i < |a| && a[i] == x;
      var j :| 0 <= j < |b| && b[j] == y;
      assert s[i] == x && s[|a| + j] == y;
    }
  }

  lemma SortedConcat(a: seq<int>, b: seq<int>)
    requires StrictlySorted(a) && StrictlySorted(b)
    requires forall x, y :: x in a && y in b ==> x < y
    ensures StrictlySorted(a + b)
  {
    var s := a + b;
    forall i, j | 0 <= i < j < |s| ensures s[i] < s[j] {
      if j < |a| {
      } else if i < |a| {
        assert s[i] in a && s[j] == b[j - |a|] && s[j] in b;
      } else {
        assert s[i] == b[i - |a|] && s[j] == b[j - |a|];
      }
    }
  }

  /// Taking one element out of a sorted sequence keeps it sorted.
  lemma SortedDelete(a: seq<int>, v: int, b: seq<int>)
    requires StrictlySorted(a + [v] + b)
    ensures StrictlySorted(a + b) && |a + b| == |a + [v] + b| - 1
    ensures forall x :: x in a + b <==> x in a + [v] + b && x != v
  {
    SortedAround(a, v, b);
    SortedConcat(a, b);
  }

  /// A well-formed node holds at least one element.
  lemma NonEmptyNode(n: Node)
    requires WellFormed(n)
    ensures |Elements(n)| >= 1
  {
    HandleOfValid(n);
    Split(HandleOf(n));
  }

  /// `h` is reached through `ctx`, and every element passed on the left of
  /// the path is below `v`, every element passed on its right above `v`.
  ghost predicate Bracketed(ctx: seq<Frame>, h: Handle, v: int)
  {
    && PathTo(ctx, h)
    && (forall x :: x in PathPre(ctx, h) ==> x < v)
    && (forall x :: x in PathPost(ctx, h) ==> v < x)
  }

  /// The walk of `add`, of `remove` and of `rebalance`: compare, go left
  /// or right, and stop at the value or at the missing child.
  method Search(root: Node, v: int) returns (found: bool, ctx: seq<Frame>, h: Handle)
    requires WellFormed(root) && StrictlySorted(Elements(root))
    ensures Bracketed(ctx, h, v) && Top(ctx, h) == HandleOf(root)
    ensures Elements(root) == PathPre(ctx, h) + HElements(h) + PathPost(ctx, h)
    ensures StrictlySorted(HElements(h))
    ensures found <==> v in Elements(root)
    ensures found ==> GetValue(h) == v
    ensures !found ==> v != GetValue(h) && !HasChild(h, Side(v, GetValue(h)))
  {
    ctx := [];
    h := HandleOf(root);
    HandleOfValid(root);
    while true
      invariant Bracketed(ctx, h, v) && Top(ctx, h) == HandleOf(root)
      invariant Elements(root) == PathPre(ctx, h) + HElements(h) + PathPost(ctx, h)
      invariant StrictlySorted(HElements(h))
      decreases |HElements(h)|
    {
      var value := GetValue(h);
      if v == value {
        Split(h);
        return true, ctx, h;
      }
      var d := Side(v, value);
      if !HasChild(h, d) {
        NotBelow(ctx, h, v);
        return false, ctx, h;
      }
      Descend(ctx, h, v, d);
      ctx, h := ctx + [Frame(h, d)], GetChild(h, d);
    }
  }

  /// One step down keeps the walk bracketed and shrinks the subtree.
  lemma Descend(ctx: seq<Frame>, h: Handle, v: int, d: Dir)
    requires Bracketed(ctx, h, v) && StrictlySorted(HElements(h))
    requires v != GetValue(h) && d == Side(v, GetValue(h)) && HasChild(h, d)
    ensures var ctx2, h2 := ctx + [Frame(h, d)], GetChild(h, d);
      && Bracketed(ctx2, h2, v) && Top(ctx2, h2) == Top(ctx, h)
      && PathPre(ctx, h) + HElements(h) + PathPost(ctx, h) == PathPre(ctx2, h2) + HElements(h2) + PathPost(ctx2, h2)
      && StrictlySorted(HElements(h2))
      && |HElements(h2)| < |HElements(h)|
  {
    var f := Frame(h, d);
    StepDown(ctx, h, d);
    var l, value, r := ChildElems(h, Left), GetValue(h), ChildElems(h, Right);
    assert HElements(h) == l + [value] + r by { Split(h); }
    var pre, post, fpre, fpost := PathPre(ctx, h), PathPost(ctx, h), FramePre(f), FramePost(f);
    DescendParts(pre, post, l, value, r, v, fpre, fpost);
    BracketedBy(ctx + [f], GetChild(h, d), v, pre + fpre, fpost + post);
  }

  /// Going down one side of a sorted node: the elements passed on the left
  /// stay below `v`, those passed on the right stay above it, and the walk
  /// still spells out the same sequence.
  lemma DescendParts(pre: seq<int>, post: seq<int>, l: seq<int>, value: int, r: seq<int>, v: int,
                     fpre: seq<int>, fpost: seq<int>)
    requires forall x :: x in pre ==> x < v
    requires forall x :: x in post ==> v < x
    requires StrictlySorted(l + [value] + r) && v != value
    requires v < value ==> fpre == [] && fpost == [value] + r
    requires value < v ==> fpre == l + [value] && fpost == []
    ensures forall x :: x in pre + fpre ==> x < v
    ensures forall x :: x in fpost + post ==> v < x
    ensures StrictlySorted(l) && StrictlySorted(r)
    ensures v < value ==> pre + (l + [value] + r) + post == (pre + fpre) + l + (fpost + post)
    ensures value < v ==> pre + (l + [value] + r) + post == (pre + fpre) + r + (fpost + post)
  {
    SortedAround(l, value, r);
    if v < value {
      assert (pre + fpre) + l + (fpost + post) == pre + (l + ([value] + r)) + post;
    } else {
      assert (pre + fpre) + r + (fpost + post) == pre + ((l + [value]) + r) + post;
    }
  }

  /// The path one step further down, and what it passes on each side.
  lemma StepDown(ctx: seq<Frame>, h: Handle, d: Dir)
    requires PathTo(ctx, h) && HasChild(h, d)
    ensures var f := Frame(h, d);
      var ctx2, h2 := ctx + [f], GetChild(h, d);
      && PathTo(ctx2, h2) && Top(ctx2, h2) == Top(ctx, h)
      && PathPre(ctx2, h2) == PathPre(ctx, h) + FramePre(f)
      && PathPost(ctx2, h2) == FramePost(f) + PathPost(ctx, h)
      && FramePre(f) == (if d == Left then [] else ChildElems(h, Left) + [GetValue(h)])
      && FramePost(f) == (if d == Left then [GetValue(h)] + ChildElems(h, Right) else [])
  {
    var f := Frame(h, d);
    PathExtend(ctx, h, d);
    assert (ctx + [f])[..|ctx|] == ctx && (ctx + [f])[|ctx|] == f;
  }

  /// A walk that stops at a missing child has not passed `v` anywhere.
  lemma NotBelow(ctx: seq<Frame>, h: Handle, v: int)
    requires Bracketed(ctx, h, v) && StrictlySorted(HElements(h))
    requires v != GetValue(h) && !HasChild(h, Side(v, GetValue(h)))
    ensures v !in PathPre(ctx, h) + HElements(h) + PathPost(ctx, h)
  {
    Split(h);
    Absent(PathPre(ctx, h), PathPost(ctx, h), ChildElems(h, Left), GetValue(h), ChildElems(h, Right), v);
  }

  lemma Absent(pre: seq<int>, post: seq<int>, l: seq<int>, value: int, r: seq<int>, v: int)
    requires forall x :: x in pre ==> x < v
    requires forall x :: x in post ==> v < x
    requires StrictlySorted(l + [value] + r) && v != value
    requires v < value ==> l == []
    requires value < v ==> r == []
    ensures v !in pre + (l + [value] + r) + post
  {
    SortedAround(l, value, r);
  }

  /// Adding `v` next to the node it was bracketed at keeps the whole
  /// sequence sorted and adds exactly `v`.
  lemma InsertSorted(pre: seq<int>, post: seq<int>, l: seq<int>, value: int, r: seq<int>, v: int, e2: seq<int>)
    requires forall x :: x in pre ==> x < v
    requires forall x :: x in post ==> v < x
    requires StrictlySorted(pre + (l + [value] + r) + post) && v != value
    requires v < value ==> l == [] && e2 == pre + ([v] + (l + [value] + r)) + post
    requires value < v ==> r == [] && e2 == pre + ((l + [value] + r) + [v]) + post
    ensures StrictlySorted(e2) && v !in pre + (l + [value] + r) + post
    ensures |e2| == |pre + (l + [value] + r) + post| + 1
    ensures forall x :: x in e2 <==> x in pre + (l + [value] + r) + post || x == v
  {
    var e := l + [value] + r;
    assert pre + e + post == pre + (e + post);
    SortedParts(pre, e + post);
    SortedParts(e, post);
    Absent(pre, post, l, value, r, v);
    SortedAround(l, value, r);
    if v < value {
      assert e2 == pre + [v] + (e + post);
      SortedConcat(e, post);
      SortedJoin(pre, v, e + post);
    } else {
      assert e2 == (pre + e) + [v] + post;
      assert forall x, y :: x in pre && y in e ==> x < y by {
        forall x, y | x in pre && y in e ensures x < y { assert y in e + post; }
      }
      SortedConcat(pre, e);
      SortedJoin(pre + e, v, post);
    }
  }

  /// Removing `x` from between `a` and `b` keeps the whole sequence sorted.
  lemma DeleteSorted(pre: seq<int>, a: seq<int>, x: int, b: seq<int>, post: seq<int>)
    requires StrictlySorted(pre + (a + [x] + b) + post)
    ensures var e2 := pre + (a + b) + post;
      && StrictlySorted(e2) && |e2| == |pre + (a + [x] + b) + post| - 1
      && forall y :: y in e2 <==> y in pre + (a + [x] + b) + post && y != x
  {
    assert pre + (a + [x] + b) + post == (pre + a) + [x] + (b + post);
    assert pre + (a + b) + post == (pre + a) + (b + post);
    SortedDelete(pre + a, x, b + post);
  }

  /// `add` once the walk stops at a missing child: `setLeftValue` or
  /// `setRightValue` on the last node gives `r`, and the changed node hung
  /// back under its ancestors is a sorted tree holding exactly one element
  /// more, `v`.
  lemma Inserted(root: Node, ctx: seq<Frame>, h: Handle, v: int, r: Updated)
    requires WellFormed(root) && StrictlySorted(Elements(root))
    requires Bracketed(ctx, h, v) && Top(ctx, h) == HandleOf(root)
    requires Elements(root) == PathPre(ctx, h) + HElements(h) + PathPost(ctx, h)
    requires StrictlySorted(HElements(h))
    requires v != GetValue(h) && !HasChild(h, Side(v, GetValue(h)))
    requires r == SetChildValue(h, Side(v, GetValue(h)), v)
    ensures var root2 := NodeOf(Rebuild(ctx, r.parent));
      && WellFormed(root2) && StrictlySorted(Elements(root2))
      && v !in Elements(root) && |Elements(root2)| == |Elements(root)| + 1
      && (forall x :: x in Elements(root2) <==> x in Elements(root) || x == v)
      && HandleOf(root2) == Rebuild(ctx, r.parent)
  {
    var pre, post := PathPre(ctx, h), PathPost(ctx, h);
    var l, value, rr := ChildElems(h, Left), GetValue(h), ChildElems(h, Right);
    InsertShape(root, ctx, h, v, r);
    assert HElements(h) == l + [value] + rr by { Split(h); }
    InsertSorted(pre, post, l, value, rr, v, Elements(NodeOf(Rebuild(ctx, r.parent))));
  }

  /// The shape half of `Inserted`: the rebuilt tree is well formed and holds
  /// the old elements with `v` next to the node the walk stopped at.
  lemma InsertShape(root: Node, ctx: seq<Frame>, h: Handle, v: int, r: Updated)
    requires WellFormed(root) && PathTo(ctx, h) && Top(ctx, h) == HandleOf(root)
    requires !HasChild(h, Side(v, GetValue(h)))
    requires r == SetChildValue(h, Side(v, GetValue(h)), v)
    ensures var c := Rebuild(ctx, r.parent);
      && WellFormed(NodeOf(c)) && HandleOf(NodeOf(c)) == c
      && Elements(NodeOf(c)) == PathPre(ctx, h)
           + (if v < GetValue(h) then [v] + HElements(h) else HElements(h) + [v])
           + PathPost(ctx, h)
  {
    var c := Rebuild(ctx, r.parent);
    RebuildSpec(ctx, h, r.parent);
    HandleOfValid(root);
    CompatibleNode(HandleOf(root), c);
    ChildAdded(h, Side(v, GetValue(h)), v, r.parent);
  }

  /// A parent given a one-element child where it had none.
  lemma ChildAdded(h: Handle, d: Dir, v: int, p2: Handle)
    requires HValid(h) && HValid(p2) && !HasChild(h, d) && GetValue(p2) == GetValue(h)
    requires ChildElems(p2, d) == [v] && ChildElems(p2, Other(d)) == ChildElems(h, Other(d))
    ensures HElements(p2) == if d == Left then [v] + HElements(h) else HElements(h) + [v]
  {
    Split(h);
    Split(p2);
  }

  /// `remove(node, parent)`: a node with a left subtree
  /// takes the greatest element of that subtree, a node with only a right
  /// subtree takes the least element of that one, a childless root empties
  /// the tree, and any other leaf is dropped by its parent.
  function RemoveFound(root: Node, ctx: seq<Frame>, h: Handle): (root2: Option<Node>)
    requires WellFormed(root) && StrictlySorted(Elements(root))
    requires PathTo(ctx, h) && Top(ctx, h) == HandleOf(root)
    ensures var e2 := if root2.Some? then Elements(root2.value) else [];
      && (root2.Some? ==> WellFormed(root2.value) && |e2| >= 1)
      && StrictlySorted(e2) && |e2| == |Elements(root)| - 1
      && (forall x :: x in e2 <==> x in Elements(root) && x != GetValue(h))
  {
    if HasChild(h, Left) then
      var r := RemoveExtreme(h, Left, Right);
      var h2 := SetValue(r.parent, r.value);
      PulledFromLeft(h, r, h2);
      RemovedBelow(root, ctx, h, h2, ChildElems(h, Left), GetValue(h), ChildElems(h, Right));
      Some(NodeOf(Rebuild(ctx, h2)))
    else if HasChild(h, Right) then
      var r := RemoveExtreme(h, Right, Left);
      var h2 := SetValue(r.parent, r.value);
      PulledFromRight(h, r, h2);
      RemovedBelow(root, ctx, h, h2, ChildElems(h, Left), GetValue(h), ChildElems(h, Right));
      Some(NodeOf(Rebuild(ctx, h2)))
    else if |ctx| == 0 then
      LastRemoved(root, h);
      None
    else
      var f := ctx[|ctx| - 1];
      var p2 := RemoveLeaf(f.parent, f.dir);
      LeafDropped(ctx, h, p2);
      TopOfRest(ctx, h);
      RemovedBelow(root, ctx[..|ctx| - 1], f.parent, p2, FramePre(f), GetValue(h), FramePost(f));
      Some(NodeOf(Rebuild(ctx[..|ctx| - 1], p2)))
  }

  /// Taking `x` out of the node at the end of the path, and hanging the
  /// result back, takes exactly `x` out of the tree.
  lemma RemovedBelow(root: Node, ctx: seq<Frame>, h: Handle, h2: Handle, a: seq<int>, x: int, b: seq<int>)
    requires WellFormed(root) && StrictlySorted(Elements(root))
    requires PathTo(ctx, h) && Top(ctx, h) == HandleOf(root) && Compatible(h, h2)
    requires HElements(h) == a + [x] + b && HElements(h2) == a + b
    ensures var root2 := NodeOf(Rebuild(ctx, h2));
      && WellFormed(root2) && |Elements(root2)| >= 1
      && StrictlySorted(Elements(root2)) && |Elements(root2)| == |Elements(root)| - 1
      && forall y :: y in Elements(root2) <==> y in Elements(root) && y != x
  {
    HandleOfValid(root);
    PathElements(ctx, h);
    RebuildSpec(ctx, h, h2);
    CompatibleNode(HandleOf(root), Rebuild(ctx, h2));
    DeleteSorted(PathPre(ctx, h), a, x, b, PathPost(ctx, h));
    NonEmptyNode(NodeOf(Rebuild(ctx, h2)));
  }

  /// A childless root is the only element.
  lemma LastRemoved(root: Node, h: Handle)
    requires WellFormed(root) && h == HandleOf(root)
    requires !HasChild(h, Left) && !HasChild(h, Right)
    ensures Elements(root) == [GetValue(h)]
  {
    HandleOfValid(root);
    Split(h);
  }

  lemma PulledFromLeft(h: Handle, r: Removed, h2: Handle)
    requires HValid(h) && HasChild(h, Left) && RemovedFrom(h, Left, Right, r)
    requires HValid(r.parent) && h2 == SetValue(r.parent, r.value)
    ensures Compatible(h, h2)
    ensures HElements(h) == ChildElems(h, Left) + [GetValue(h)] + ChildElems(h, Right)
    ensures HElements(h2) == ChildElems(h, Left) + ChildElems(h, Right)
  {
    Split(h);
    Split(h2);
    CompatibleTrans(h, r.parent, h2);
    var l := ChildElems(h, Left);
    assert l[..|l| - 1] + [l[|l| - 1]] == l;
  }

  lemma PulledFromRight(h: Handle, r: Removed, h2: Handle)
    requires HValid(h) && !HasChild(h, Left) && HasChild(h, Right) && RemovedFrom(h, Right, Left, r)
    requires HValid(r.parent) && h2 == SetValue(r.parent, r.value)
    ensures Compatible(h, h2)
    ensures HElements(h) == ChildElems(h, Left) + [GetValue(h)] + ChildElems(h, Right)
    ensures HElements(h2) == ChildElems(h, Left) + ChildElems(h, Right)
  {
    Split(h);
    Split(h2);
    CompatibleTrans(h, r.parent, h2);
    var e := ChildElems(h, Right);
    assert [e[0]] + e[1..] == e;
  }

  /// Dropping a childless node from its parent removes exactly its value
  /// from the parent's elements.
  lemma LeafDropped(ctx: seq<Frame>, h: Handle, p2: Handle)
    requires PathTo(ctx, h) && |ctx| > 0 && !HasChild(h, Left) && !HasChild(h, Right)
    requires var f := ctx[|ctx| - 1];
      p2 == RemoveLeaf(f.parent, f.dir)
    ensures var f := ctx[|ctx| - 1];
      && PathTo(ctx[..|ctx| - 1], f.parent) && Compatible(f.parent, p2)
      && HElements(f.parent) == FramePre(f) + [GetValue(h)] + FramePost(f)
      && HElements(p2) == FramePre(f) + FramePost(f)
  {
    var f := ctx[|ctx| - 1];
    assert HElements(h) == [GetValue(h)] by { Split(h); }
    FrameElements(f, h);
    FrameLeafDropped(f, p2);
  }

  /// The frame of `LeafDropped`: the parent without its `d` child keeps
  /// what lies on either side of that child.
  lemma FrameLeafDropped(f: Frame, p2: Handle)
    requires HValid(f.parent) && HasChild(f.parent, f.dir)
    requires !HasChild(GetChild(f.parent, f.dir), Left) && !HasChild(GetChild(f.parent, f.dir), Right)
    requires p2 == RemoveLeaf(f.parent, f.dir)
    ensures HElements(p2) == FramePre(f) + FramePost(f)
  {
    Split(p2);
    if f.dir == Left {
      assert ChildElems(p2, Left) == [];
    } else {
      assert ChildElems(p2, Right) == [];
    }
  }

  /// The handle `k` steps down the path: a frame's parent, or the end.
  function StackAt(ctx: seq<Frame>, h: Handle, k: nat): Handle
  {
    if k < |ctx| then ctx[k].parent else h
  }

  /// Every frame of a path starts a path of its own from the same top, and
  /// its child is the next handle down.
  lemma {:induction false} PathPrefix(ctx: seq<Frame>, h: Handle, k: nat)
    requires PathTo(ctx, h) && k < |ctx|
    ensures PathTo(ctx[..k], ctx[k].parent) && Top(ctx[..k], ctx[k].parent) == Top(ctx, h)
    ensures HasChild(ctx[k].parent, ctx[k].dir) && GetChild(ctx[k].parent, ctx[k].dir) == StackAt(ctx, h, k + 1)
    decreases |ctx|
  {
    var n := |ctx|;
    var rest := ctx[..n - 1];
    TopOfRest(ctx, h);
    if k < n - 1 {
      PathPrefix(rest, ctx[n - 1].parent, k);
      assert rest[..k] == ctx[..k] && rest[k] == ctx[k];
      assert StackAt(rest, ctx[n - 1].parent, k + 1) == StackAt(ctx, h, k + 1);
    }
  }

  /// What a frame passes on either side is passed by the whole path.
  lemma {:induction false} FrameInPath(ctx: seq<Frame>, h: Handle, k: nat)
    requires PathTo(ctx, h) && k < |ctx|
    ensures HValid(ctx[k].parent)
    ensures forall x :: x in FramePre(ctx[k]) ==> x in PathPre(ctx, h)
    ensures forall x :: x in FramePost(ctx[k]) ==> x in PathPost(ctx, h)
    decreases |ctx|
  {
    var n := |ctx|;
    var rest, last := ctx[..n - 1], ctx[n - 1];
    var pre, post := PathPre(rest, last.parent), PathPost(rest, last.parent);
    assert PathPre(ctx, h) == pre + FramePre(last);
    assert PathPost(ctx, h) == FramePost(last) + post;
    InConcat(pre, FramePre(last));
    InConcat(FramePost(last), post);
    if k < n - 1 {
      FrameInPath(rest, last.parent, k);
      assert rest[k] == ctx[k];
    }
  }

  /// Both parts of a concatenation are contained in it.
  lemma InConcat(a: seq<int>, b: seq<int>)
    ensures forall x :: x in a ==> x in a + b
    ensures forall x :: x in b ==> x in a + b
  {
  }

  /// On a bracketed walk, every handle above the end is passed on the side
  /// `compareTo` chooses, so none of them holds `v`.
  lemma FrameSide(ctx: seq<Frame>, h: Handle, v: int, k: nat)
    requires Bracketed(ctx, h, v) && k < |ctx|
    ensures HValid(ctx[k].parent) && GetValue(ctx[k].parent) != v
    ensures ctx[k].dir == Side(v, GetValue(ctx[k].parent))
  {
    PathPrefix(ctx, h, k);
    FrameInPath(ctx, h, k);
    assert GetValue(ctx[k].parent) in (if ctx[k].dir == Left then FramePost(ctx[k]) else FramePre(ctx[k]));
  }

  /// Two bracketed walks from the same top agree as far as both go.
  lemma {:induction false} SamePrefix(c1: seq<Frame>, h1: Handle, c2: seq<Frame>, h2: Handle, v: int, k: nat)
    requires Bracketed(c1, h1, v) && Bracketed(c2, h2, v) && Top(c1, h1) == Top(c2, h2)
    requires k <= |c1| && k <= |c2|
    ensures c1[..k] == c2[..k] && StackAt(c1, h1, k) == StackAt(c2, h2, k)
    decreases k
  {
    if k > 0 {
      SamePrefix(c1, h1, c2, h2, v, k - 1);
      FrameSide(c1, h1, v, k - 1);
      FrameSide(c2, h2, v, k - 1);
      PathPrefix(c1, h1, k - 1);
      PathPrefix(c2, h2, k - 1);
      assert c1[..k] == c1[..k - 1] + [c1[k - 1]];
      assert c2[..k] == c2[..k - 1] + [c2[k - 1]];
    }
  }

  /// There is only one bracketed walk from a top to a handle holding `v`:
  /// the walk `rebalance` repeats is the one `add` took.
  lemma UniqueWalk(c1: seq<Frame>, h1: Handle, c2: seq<Frame>, h2: Handle, v: int)
    requires Bracketed(c1, h1, v) && Bracketed(c2, h2, v) && Top(c1, h1) == Top(c2, h2)
    requires GetValue(h1) == v && GetValue(h2) == v
    ensures c1 == c2 && h1 == h2
  {
    var m := if |c1| < |c2| then |c1| else |c2|;
    SamePrefix(c1, h1, c2, h2, v, m);
    if m < |c1| { FrameSide(c1, h1, v, m); }
    if m < |c2| { FrameSide(c2, h2, v, m); }
    assert c1[..|c1|] == c1 && c2[..|c2|] == c2;
  }

  /// The frames of a path after a compatible handle replaced its end.
  function RebuildPath(ctx: seq<Frame>, c: Handle): seq<Frame>
    decreases |ctx|
  {
    if |ctx| == 0 then []
    else
      var f := ctx[|ctx| - 1];
      var p2 := Reattach(f.parent, f.dir, c);
      RebuildPath(ctx[..|ctx| - 1], p2) + [Frame(p2, f.dir)]
  }

  /// The rebuilt frames lead from the rebuilt top to the new end, passing
  /// the same elements on either side.
  lemma {:induction false} RebuildPathSpec(ctx: seq<Frame>, h: Handle, c: Handle)
    requires PathTo(ctx, h) && Compatible(h, c)
    ensures var ctx2 := RebuildPath(ctx, c);
      && |ctx2| == |ctx| && PathTo(ctx2, c) && Top(ctx2, c) == Rebuild(ctx, c)
      && PathPre(ctx2, c) == PathPre(ctx, h) && PathPost(ctx2, c) == PathPost(ctx, h)
    decreases |ctx|
  {
    if |ctx| > 0 {
      var f := ctx[|ctx| - 1];
      var rest := ctx[..|ctx| - 1];
      var p2 := Reattach(f.parent, f.dir, c);
      ReattachSpec(f.parent, f.dir, c);
      RebuildPathSpec(rest, f.parent, p2);
      var rest2 := RebuildPath(rest, p2);
      var ctx2 := RebuildPath(ctx, c);
      assert ctx2 == rest2 + [Frame(p2, f.dir)];
      assert ctx2[..|ctx2| - 1] == rest2;
      assert FramePre(Frame(p2, f.dir)) == FramePre(f);
      assert FramePost(Frame(p2, f.dir)) == FramePost(f);
      TopOfRest(ctx2, c);
    }
  }

  /// After `add`, the new element sits in a one-element leaf at the end of
  /// a bracketed walk one step longer than the one `add` took.
  lemma NewLeafWalk(root: Node, ctx: seq<Frame>, h: Handle, v: int, r: Updated)
    requires WellFormed(root) && StrictlySorted(Elements(root))
    requires Bracketed(ctx, h, v) && Top(ctx, h) == HandleOf(root)
    requires StrictlySorted(HElements(h))
    requires v != GetValue(h) && !HasChild(h, Side(v, GetValue(h)))
    requires r == SetChildValue(h, Side(v, GetValue(h)), v)
    ensures var ctx2 := RebuildPath(ctx, r.parent) + [Frame(r.parent, Side(v, GetValue(h)))];
      && Bracketed(ctx2, r.child, v) && Top(ctx2, r.child) == Rebuild(ctx, r.parent)
      && |ctx2| == |ctx| + 1 && GetValue(r.child) == v && HElements(r.child) == [v]
  {
    var d := Side(v, GetValue(h));
    var f := Frame(r.parent, d);
    LeafWalkShape(ctx, h, r.parent, d);
    var l, value, rr := ChildElems(h, Left), GetValue(h), ChildElems(h, Right);
    assert HElements(h) == l + [value] + rr by { Split(h); }
    var fpre, fpost := FramePre(f), FramePost(f);
    assert fpre == (if d == Left then [] else l + [value]);
    assert fpost == (if d == Left then [value] + rr else []);
    DescendParts(PathPre(ctx, h), PathPost(ctx, h), l, value, rr, v, fpre, fpost);
    BracketedBy(RebuildPath(ctx, r.parent) + [f], r.child, v, PathPre(ctx, h) + fpre, fpost + PathPost(ctx, h));
  }

  /// The walk to a child added below the end of a walk, after the walk was
  /// rebuilt around the changed parent.
  lemma LeafWalkShape(ctx: seq<Frame>, h: Handle, p2: Handle, d: Dir)
    requires PathTo(ctx, h) && Compatible(h, p2) && HasChild(p2, d)
    ensures var f := Frame(p2, d);
      var ctx2, c := RebuildPath(ctx, p2) + [f], GetChild(p2, d);
      && PathTo(ctx2, c) && Top(ctx2, c) == Rebuild(ctx, p2) && |ctx2| == |ctx| + 1
      && PathPre(ctx2, c) == PathPre(ctx, h) + FramePre(f)
      && PathPost(ctx2, c) == FramePost(f) + PathPost(ctx, h)
  {
    RebuildPathSpec(ctx, h, p2);
    StepDown(RebuildPath(ctx, p2), p2, d);
  }

  /// A walk whose passed elements are known is bracketed by `v` when they are.
  lemma BracketedBy(ctx: seq<Frame>, h: Handle, v: int, pre: seq<int>, post: seq<int>)
    requires PathTo(ctx, h) && PathPre(ctx, h) == pre && PathPost(ctx, h) == post
    requires forall x :: x in pre ==> x < v
    requires forall x :: x in post ==> v < x
    ensures Bracketed(ctx, h, v)
  {
  }
}

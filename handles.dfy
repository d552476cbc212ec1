/// What a Java `Node<T>` reference denotes, and how a changed child is put
/// back under its parent.
///
/// A reference is either a SimpleBinaryNode (`Linked`) or a
/// CompactCompositeInnerNode, which is a view of one position of a table
/// (`View`). A view whose slot holds a nested node forwards most calls to
/// that node, as the Java class does.
module Handles {
  import opened Wrappers
  import opened Positions
  import opened Nodes

  datatype Dir = Left | Right

  function Other(d: Dir): Dir
  {
    if d == Left then Right else Left
  }

  function ChildPosition(p: nat, d: Dir): nat
  {
    if d == Left then LeftPosition(p) else RightPosition(p)
  }

  datatype Handle = Linked(node: Node) | View(table: seq<Slot>, pos: nat)

  /// The reference to a stand-alone node: a compact node is its table at position 0.
  function HandleOf(n: Node): Handle
  {
    if n.Compact? then View(n.table, 0) else Linked(n)
  }

  /// The node that owns the handle.
  function NodeOf(h: Handle): Node
  {
    if h.Linked? then h.node else Compact(h.table)
  }

  ghost predicate HValid(h: Handle)
  {
    match h
    case Linked(n) => n.Simple? && WellFormed(n)
    case View(t, p) => WellFormed(Compact(t)) && p < |t| && !t[p].Empty?
  }

  ghost function HElements(h: Handle): seq<int>
  {
    match h
    case Linked(n) => Elements(n)
    case View(t, p) => TableElems(t, p)
  }

  /// A nested node in a last-row slot has both child positions outside the table.
  lemma SubInLastRow(t: seq<Slot>, p: nat)
    requires WellFormed(Compact(t)) && p < |t| && t[p].Sub?
    ensures LeftPosition(p) >= |t| && RightPosition(p) >= |t|
    ensures HValid(HandleOf(t[p].node))
  {
    HandleOfValid(t[p].node);
  }

  lemma HandleOfValid(n: Node)
    requires WellFormed(n)
    ensures HValid(HandleOf(n)) && NodeOf(HandleOf(n)) == n
    ensures HElements(HandleOf(n)) == Elements(n)
  {
  }

  /// `getValue`: a nested node answers for the view that holds it.
  function GetValue(h: Handle): int
    requires HValid(h)
    decreases NodeOf(h)
  {
    match h
    case Linked(n) => n.value
    case View(t, p) =>
      match t[p]
      case Val(v) => v
      case Sub(m) => SubInLastRow(t, p); GetValue(HandleOf(m))
  }

  /// `hasLeftChild` / `hasRightChild`: a view first looks at the child
  /// position in its table and, past the end of the table, asks its nested node.
  function HasChild(h: Handle, d: Dir): bool
    requires HValid(h)
    decreases NodeOf(h)
  {
    match h
    case Linked(n) => if d == Left then n.left.Some? else n.right.Some?
    case View(t, p) =>
      var c := ChildPosition(p, d);
      if c < |t| then !t[c].Empty?
      else if t[p].Sub? then SubInLastRow(t, p); HasChild(HandleOf(t[p].node), d)
      else false
  }

  /// `getLeft` / `getRight`: a view with a nested node forwards, otherwise
  /// it returns the view of the child position.
  function GetChild(h: Handle, d: Dir): (c: Handle)
    requires HValid(h) && HasChild(h, d)
    ensures HValid(c)
    decreases NodeOf(h)
  {
    match h
    case Linked(n) =>
      var child := if d == Left then n.left.value else n.right.value;
      HandleOfValid(child);
      HandleOf(child)
    case View(t, p) =>
      if t[p].Sub? then SubInLastRow(t, p); GetChild(HandleOf(t[p].node), d)
      else View(t, ChildPosition(p, d))
  }

  ghost function ChildElems(h: Handle, d: Dir): seq<int>
    requires HValid(h)
  {
    if HasChild(h, d) then HElements(GetChild(h, d)) else []
  }

  /// Every handle's elements are its left subtree, its value and its right subtree.
  lemma {:induction false} Split(h: Handle)
    requires HValid(h)
    ensures HElements(h) == ChildElems(h, Left) + [GetValue(h)] + ChildElems(h, Right)
    decreases NodeOf(h)
  {
    match h
    case Linked(n) =>
      if n.left.Some? { HandleOfValid(n.left.value); }
      if n.right.Some? { HandleOfValid(n.right.value); }
    case View(t, p) =>
      if t[p].Sub? {
        SubInLastRow(t, p);
        HandleOfValid(t[p].node);
        Split(HandleOf(t[p].node));
      } else {
        var l, r := LeftPosition(p), RightPosition(p);
        assert TableElems(t, p) == TableElems(t, l) + [t[p].v] + TableElems(t, r);
        assert ChildElems(h, Left) == TableElems(t, l);
        assert ChildElems(h, Right) == TableElems(t, r);
      }
  }

  /// Two tables agree on every position outside the subtree of `p`.
  ghost predicate SameOutside(t: seq<Slot>, u: seq<Slot>, p: nat)
  {
    |t| == |u| && forall x: nat :: x < |t| && !IsDescendant(x, p) ==> t[x] == u[x]
  }

  /// `h2` may stand where `h` stood: same kind of reference, and for a view
  /// the same position with the table changed only below it.
  ghost predicate Compatible(h: Handle, h2: Handle)
  {
    && HValid(h2)
    && match h
       case Linked(_) => h2.Linked?
       case View(t, p) => h2.View? && h2.pos == p && SameOutside(t, h2.table, p)
  }

  /// Puts `c` back as the `d` child of `h`; the modelling counterpart of a
  /// child that was updated in place.
  function Reattach(h: Handle, d: Dir, c: Handle): Handle
    decreases NodeOf(h)
  {
    match h
    case Linked(n) =>
      if !n.Simple? then h
      else if d == Left then Linked(Simple(n.value, Some(NodeOf(c)), n.right))
      else Linked(Simple(n.value, n.left, Some(NodeOf(c))))
    case View(t, p) =>
      if p < |t| && t[p].Sub? then
        View(t[p := Sub(NodeOf(Reattach(HandleOf(t[p].node), d, c)))], p)
      else if c.View? then View(c.table, p)
      else h
  }

  lemma CompatibleNode(h: Handle, h2: Handle)
    requires HValid(h) && Compatible(h, h2) && (h.View? ==> h.pos == 0)
    ensures WellFormed(NodeOf(h2)) && HandleOf(NodeOf(h2)) == h2
    ensures Elements(NodeOf(h2)) == HElements(h2)
    ensures NodeOf(h2).Compact? == NodeOf(h).Compact?
  {
  }

  /// Replacing one slot by a well-formed nested node keeps a table well formed.
  lemma ReplaceSub(t: seq<Slot>, p: nat, m: Node)
    requires WellFormed(Compact(t)) && p < |t| && t[p].Sub? && WellFormed(m)
    ensures WellFormed(Compact(t[p := Sub(m)]))
    ensures SameOutside(t, t[p := Sub(m)], p)
  {
    var u := t[p := Sub(m)];
    forall q: nat | q < |u| && u[q].Sub?
      ensures InLastRow(u, q) && WellFormed(u[q].node)
    {
      if q != p {
        assert u[q] == t[q];
      }
    }
    forall q: nat | q < |u| && u[q].Empty? && LeftPosition(q) < |u|
      ensures u[LeftPosition(q)].Empty? && u[RightPosition(q)].Empty?
    {
      assert u[q] == t[q];
      ParentOfChildren(q);
      assert LeftPosition(q) != p && RightPosition(q) != p;
    }
  }

  /// Views of the two children of a position do not overlap.
  lemma OtherSideUnchanged(t: seq<Slot>, u: seq<Slot>, p: nat, d: Dir)
    requires SameOutside(t, u, ChildPosition(p, d))
    ensures TableElems(t, ChildPosition(p, Other(d))) == TableElems(u, ChildPosition(p, Other(d)))
    ensures forall x: nat :: x < |t| && IsDescendant(x, ChildPosition(p, Other(d))) ==> t[x] == u[x]
  {
    var c, o := ChildPosition(p, d), ChildPosition(p, Other(d));
    forall x: nat | x < |t| && IsDescendant(x, o) ensures t[x] == u[x] {
      SubtreesDisjoint(x, p);
    }
    TableElemsLocal(t, u, o);
  }

  /// Putting a compatible replacement under a parent: the parent keeps its
  /// kind, its value and its other child, and its `d` child is the replacement.
  lemma {:induction false} ReattachSpec(h: Handle, d: Dir, c: Handle)
    requires HValid(h) && HasChild(h, d) && Compatible(GetChild(h, d), c)
    ensures var h2 := Reattach(h, d, c);
      && Compatible(h, h2)
      && GetValue(h2) == GetValue(h)
      && HasChild(h2, d) && GetChild(h2, d) == c
      && HasChild(h2, Other(d)) == HasChild(h, Other(d))
      && ChildElems(h2, Other(d)) == ChildElems(h, Other(d))
      && (h.View? && !h.table[h.pos].Sub? ==> h2.table[h.pos] == h.table[h.pos])
    decreases NodeOf(h)
  {
    match h
    case Linked(n) =>
      var child := if d == Left then n.left.value else n.right.value;
      HandleOfValid(child);
      CompatibleNode(HandleOf(child), c);
    case View(t, p) =>
      if t[p].Sub? {
        var m := t[p].node;
        SubInLastRow(t, p);
        ReattachSpec(HandleOf(m), d, c);
        var m2 := NodeOf(Reattach(HandleOf(m), d, c));
        CompatibleNode(HandleOf(m), Reattach(HandleOf(m), d, c));
        ReplaceSub(t, p, m2);
        var u := t[p := Sub(m2)];
        SubInLastRow(u, p);
      } else {
        ReattachInTable(t, p, d, c);
      }
  }

  /// The table case of `ReattachSpec`: the replacement's table differs from
  /// the parent's only below the child position.
  lemma ReattachInTable(t: seq<Slot>, p: nat, d: Dir, c: Handle)
    requires HValid(View(t, p)) && !t[p].Sub? && HasChild(View(t, p), d)
    requires Compatible(GetChild(View(t, p), d), c)
    ensures c.View? && HValid(View(c.table, p)) && c.table[p] == t[p]
    ensures SameOutside(t, c.table, p)
    ensures HasChild(View(c.table, p), Other(d)) == HasChild(View(t, p), Other(d))
    ensures ChildElems(View(c.table, p), Other(d)) == ChildElems(View(t, p), Other(d))
  {
    var cp := ChildPosition(p, d);
    var u := c.table;
    ParentOfChildren(p);
    forall x: nat | x < |t| && !IsDescendant(x, p) ensures t[x] == u[x] {
      if IsDescendant(x, cp) { DescendantOfChild(x, p, cp); }
    }
    assert !IsDescendant(p, cp);
    OtherSideUnchanged(t, u, p, d);
  }

  /// A stack of frames from the root down to the parent of the current handle:
  /// each frame is a parent reference and the side taken below it.
  datatype Frame = Frame(parent: Handle, dir: Dir)

  ghost predicate PathTo(ctx: seq<Frame>, h: Handle)
    decreases |ctx|
  {
    && HValid(h)
    && (|ctx| > 0 ==>
          var f := ctx[|ctx| - 1];
          && HValid(f.parent) && HasChild(f.parent, f.dir) && GetChild(f.parent, f.dir) == h
          && PathTo(ctx[..|ctx| - 1], f.parent))
  }

  /// The top of the path: the root reference the walk started from.
  function Top(ctx: seq<Frame>, h: Handle): Handle
  {
    if |ctx| == 0 then h else ctx[0].parent
  }

  /// Elements of a frame's parent that come before, and after, the side taken.
  ghost function FramePre(f: Frame): seq<int>
    requires HValid(f.parent)
  {
    if f.dir == Right then ChildElems(f.parent, Left) + [GetValue(f.parent)] else []
  }

  ghost function FramePost(f: Frame): seq<int>
    requires HValid(f.parent)
  {
    if f.dir == Left then [GetValue(f.parent)] + ChildElems(f.parent, Right) else []
  }

  /// A parent's elements around the child on the side the frame took.
  lemma FrameElements(f: Frame, c: Handle)
    requires HValid(f.parent) && HasChild(f.parent, f.dir)
    requires HElements(c) == HElements(GetChild(f.parent, f.dir))
    ensures HElements(f.parent) == FramePre(f) + HElements(c) + FramePost(f)
  {
    Split(f.parent);
  }

  /// A parent with a compatible child put back: same elements around the new child.
  lemma ReattachElements(f: Frame, c: Handle)
    requires HValid(f.parent) && HasChild(f.parent, f.dir) && Compatible(GetChild(f.parent, f.dir), c)
    ensures var p2 := Reattach(f.parent, f.dir, c);
      Compatible(f.parent, p2) && HElements(p2) == FramePre(f) + HElements(c) + FramePost(f)
  {
    var p2 := Reattach(f.parent, f.dir, c);
    ReattachSpec(f.parent, f.dir, c);
    Split(p2);
  }

  /// Elements visited before and after the current subtree.
  ghost function PathPre(ctx: seq<Frame>, h: Handle): seq<int>
    requires PathTo(ctx, h)
    decreases |ctx|
  {
    if |ctx| == 0 then []
    else PathPre(ctx[..|ctx| - 1], ctx[|ctx| - 1].parent) + FramePre(ctx[|ctx| - 1])
  }

  ghost function PathPost(ctx: seq<Frame>, h: Handle): seq<int>
    requires PathTo(ctx, h)
    decreases |ctx|
  {
    if |ctx| == 0 then []
    else FramePost(ctx[|ctx| - 1]) + PathPost(ctx[..|ctx| - 1], ctx[|ctx| - 1].parent)
  }

  /// Puts a changed handle back under every frame of the path, bottom up.
  function Rebuild(ctx: seq<Frame>, c: Handle): Handle
    decreases |ctx|
  {
    if |ctx| == 0 then c
    else
      var f := ctx[|ctx| - 1];
      Rebuild(ctx[..|ctx| - 1], Reattach(f.parent, f.dir, c))
  }

  lemma TopOfRest(ctx: seq<Frame>, h: Handle)
    requires |ctx| > 0
    ensures Top(ctx[..|ctx| - 1], ctx[|ctx| - 1].parent) == Top(ctx, h)
  {
    if |ctx| > 1 { assert ctx[..|ctx| - 1][0] == ctx[0]; }
  }

  lemma {:induction false} PathElements(ctx: seq<Frame>, h: Handle)
    requires PathTo(ctx, h)
    ensures HValid(Top(ctx, h))
    ensures HElements(Top(ctx, h)) == PathPre(ctx, h) + HElements(h) + PathPost(ctx, h)
    decreases |ctx|
  {
    if |ctx| > 0 {
      var f := ctx[|ctx| - 1];
      var rest := ctx[..|ctx| - 1];
      PathElements(rest, f.parent);
      TopOfRest(ctx, h);
      FrameElements(f, h);
      Nest(PathPre(rest, f.parent), FramePre(f), HElements(h), FramePost(f), PathPost(rest, f.parent));
    }
  }

  /// Regrouping a sequence in five parts.
  lemma Nest(a: seq<int>, b: seq<int>, c: seq<int>, d: seq<int>, e: seq<int>)
    ensures a + (b + c + d) + e == (a + b) + c + (d + e)
  {
  }

  /// Replacing the current handle by a compatible one and rebuilding the path
  /// replaces exactly the current subtree's elements.
  lemma {:induction false} RebuildSpec(ctx: seq<Frame>, h: Handle, c: Handle)
    requires PathTo(ctx, h) && Compatible(h, c)
    ensures Compatible(Top(ctx, h), Rebuild(ctx, c))
    ensures HElements(Rebuild(ctx, c)) == PathPre(ctx, h) + HElements(c) + PathPost(ctx, h)
    decreases |ctx|
  {
    if |ctx| > 0 {
      var f := ctx[|ctx| - 1];
      var rest := ctx[..|ctx| - 1];
      var p2 := Reattach(f.parent, f.dir, c);
      ReattachElements(f, c);
      RebuildSpec(rest, f.parent, p2);
      TopOfRest(ctx, h);
      Nest(PathPre(rest, f.parent), FramePre(f), HElements(c), FramePost(f), PathPost(rest, f.parent));
    }
  }

  lemma CompatibleTrans(a: Handle, b: Handle, c: Handle)
    requires Compatible(a, b) && Compatible(b, c)
    ensures Compatible(a, c)
  {
  }

  lemma CompatibleRefl(h: Handle)
    requires HValid(h)
    ensures Compatible(h, h)
  {
  }

  /// Extending a path by one step down.
  lemma PathExtend(ctx: seq<Frame>, h: Handle, d: Dir)
    requires PathTo(ctx, h) && HasChild(h, d)
    ensures PathTo(ctx + [Frame(h, d)], GetChild(h, d))
    ensures Top(ctx + [Frame(h, d)], GetChild(h, d)) == Top(ctx, h)
  {
    assert (ctx + [Frame(h, d)])[..|ctx|] == ctx;
  }
}

/// The mutators of `Node`, SimpleBinaryNode and CompactCompositeInnerNode,
/// each returning the updated reference in place of changing it.
module NodeOps {
  import opened Wrappers
  import opened Positions
  import opened Nodes
  import opened Handles

  lemma DescendantAtLeast(x: nat, c: nat)
    ensures IsDescendant(x, c) ==> x >= c
  {
  }

  /// The subtree of `q` is `q` and the subtrees of its two children.
  lemma ChildrenCover(q: nat)
    ensures forall x: nat :: IsDescendant(x, q) <==>
      x == q || IsDescendant(x, LeftPosition(q)) || IsDescendant(x, RightPosition(q))
  {
    forall x: nat ensures IsDescendant(x, q) <==>
      x == q || IsDescendant(x, LeftPosition(q)) || IsDescendant(x, RightPosition(q))
    {
      if IsDescendant(x, q) && x != q { DescendantSplit(x, q); }
      if IsDescendant(x, LeftPosition(q)) { DescendantOfChild(x, q, LeftPosition(q)); }
      if IsDescendant(x, RightPosition(q)) { DescendantOfChild(x, q, RightPosition(q)); }
    }
  }

  /// Writing one slot keeps the layout when the slot's neighbourhood allows it.
  lemma SlotUpdate(t: seq<Slot>, p: nat, s: Slot)
    requires WellFormed(Compact(t)) && p < |t|
    requires s.Empty? ==> p != 0 && (LeftPosition(p) < |t| ==> t[LeftPosition(p)].Empty? && t[RightPosition(p)].Empty?)
    requires !s.Empty? ==> p == 0 || !t[ParentPosition(p)].Empty?
    requires s.Sub? ==> InLastRow(t, p) && WellFormed(s.node)
    ensures WellFormed(Compact(t[p := s]))
    ensures SameOutside(t, t[p := s], p)
    ensures forall d: Dir :: TableElems(t[p := s], ChildPosition(p, d)) == TableElems(t, ChildPosition(p, d))
  {
    var u := t[p := s];
    forall q: nat | q < |u| && u[q].Empty? && LeftPosition(q) < |u|
      ensures u[LeftPosition(q)].Empty? && u[RightPosition(q)].Empty?
    {
      if q != p {
        assert t[q].Empty?;
        ParentOfChildren(q);
      }
    }
    forall q: nat | q < |u| && u[q].Sub? ensures InLastRow(u, q) && WellFormed(u[q].node) {
      if q != p { assert u[q] == t[q]; }
    }
    forall d: Dir ensures TableElems(u, ChildPosition(p, d)) == TableElems(t, ChildPosition(p, d)) {
      var c := ChildPosition(p, d);
      forall x: nat | x < |t| && IsDescendant(x, c) ensures t[x] == u[x] {
        DescendantAtLeast(x, c);
      }
      TableElemsLocal(t, u, c);
    }
  }

  /// `erase(position)`: empties every slot of the subtree below `q`.
  function Erase(t: seq<Slot>, q: nat): (u: seq<Slot>)
    ensures |u| == |t|
    ensures forall x: nat :: x < |t| ==> u[x] == (if IsDescendant(x, q) then Empty else t[x])
    decreases |t| - q
  {
    if q >= |t| then
      DescendantAtLeast(0, q);
      assert forall x: nat :: x < |t| ==> !IsDescendant(x, q) by {
        forall x: nat | x < |t| ensures !IsDescendant(x, q) { DescendantAtLeast(x, q); }
      }
      t
    else
      ChildrenCover(q);
      ParentOfChildren(q);
      assert forall x: nat :: IsDescendant(x, LeftPosition(q)) || IsDescendant(x, RightPosition(q)) ==> x != q by {
        forall x: nat ensures IsDescendant(x, LeftPosition(q)) || IsDescendant(x, RightPosition(q)) ==> x != q {
          DescendantAtLeast(x, LeftPosition(q));
          DescendantAtLeast(x, RightPosition(q));
        }
      }
      Erase(Erase(t[q := Empty], LeftPosition(q)), RightPosition(q))
  }

  /// Erasing the subtree of a child of an occupied position keeps the layout.
  lemma EraseKeepsShape(t: seq<Slot>, c: nat)
    requires WellFormed(Compact(t)) && c > 0
    ensures WellFormed(Compact(Erase(t, c)))
    ensures SameOutside(t, Erase(t, c), c)
    ensures TableElems(Erase(t, c), c) == []
  {
    var u := Erase(t, c);
    assert !IsDescendant(0, c);
    forall q: nat | q < |u| && u[q].Empty? && LeftPosition(q) < |u|
      ensures u[LeftPosition(q)].Empty? && u[RightPosition(q)].Empty?
    {
      if IsDescendant(q, c) {
        ParentOfChildren(q);
        assert IsDescendant(LeftPosition(q), q) && IsDescendant(RightPosition(q), q);
        DescendantTransitive(LeftPosition(q), q, c);
        DescendantTransitive(RightPosition(q), q, c);
      } else {
        assert t[q].Empty?;
      }
    }
    forall q: nat | q < |u| && u[q].Sub? ensures InLastRow(u, q) && WellFormed(u[q].node) {
      assert u[q] == t[q];
    }
    if c < |u| {
      assert IsDescendant(c, c);
    }
  }

  /// An occupied slot has an occupied parent, and a last-row position has
  /// both child positions past the end of the table.
  lemma Occupancy(t: seq<Slot>, p: nat)
    requires WellFormed(Compact(t)) && p < |t|
    ensures p > 0 && !t[p].Empty? ==> !t[ParentPosition(p)].Empty?
    ensures InLastRow(t, p) ==> LeftPosition(p) >= |t|
  {
    if p > 0 && !t[p].Empty? {
      var q := ParentPosition(p);
      ChildOfParent(p);
      if t[q].Empty? {
        assert LeftPosition(q) < |t|;
      }
    }
  }

  /// `setValue`: a view holding a nested node sets that node's value.
  function SetValue(h: Handle, v: int): (h2: Handle)
    requires HValid(h)
    ensures Compatible(h, h2) && GetValue(h2) == v
    ensures HasChild(h2, Left) == HasChild(h, Left) && ChildElems(h2, Left) == ChildElems(h, Left)
    ensures HasChild(h2, Right) == HasChild(h, Right) && ChildElems(h2, Right) == ChildElems(h, Right)
    decreases NodeOf(h)
  {
    match h
    case Linked(n) => Linked(Simple(v, n.left, n.right))
    case View(t, p) =>
      if t[p].Sub? then
        SubInLastRow(t, p);
        var m2 := SetValue(HandleOf(t[p].node), v);
        CompatibleNode(HandleOf(t[p].node), m2);
        ReplaceSub(t, p, NodeOf(m2));
        SubInLastRow(t[p := Sub(NodeOf(m2))], p);
        View(t[p := Sub(NodeOf(m2))], p)
      else
        Occupancy(t, p);
        SlotUpdate(t, p, Val(v));
        View(t[p := Val(v)], p)
  }

  /// A plain last-row slot under `setLeftValue` / `setRightValue`: it
  /// becomes a nested simple node over its value with a new child `v` on
  /// side `d`.
  function NestLastRow(t: seq<Slot>, p: nat, d: Dir, v: int): seq<Slot>
    requires p < |t| && t[p].Val?
  {
    var c := Simple(v, None, None);
    t[p := Sub(Simple(t[p].v, if d == Left then Some(c) else None, if d == Right then Some(c) else None))]
  }

  /// The parent after a call that hands back a new child, and that child.
  datatype Updated = Updated(parent: Handle, child: Handle)

  /// `setLeftValue` / `setRightValue`: a new child holding `v` on side `d`,
  /// returned to the caller. In the last row a plain slot becomes a nested
  /// simple node; inside the table the child slot is overwritten in place,
  /// keeping whatever lies below it.
  function SetChildValue(h: Handle, d: Dir, v: int): (r: Updated)
    requires HValid(h)
    ensures Compatible(h, r.parent) && GetValue(r.parent) == GetValue(h)
    ensures HasChild(r.parent, d) && GetChild(r.parent, d) == r.child && GetValue(r.child) == v
    ensures HasChild(r.parent, Other(d)) == HasChild(h, Other(d))
    ensures ChildElems(r.parent, Other(d)) == ChildElems(h, Other(d))
    ensures !HasChild(h, d) ==> ChildElems(r.parent, d) == [v]
    ensures h.View? && !InLastRow(h.table, h.pos) ==> r.parent.table[h.pos] == h.table[h.pos]
    ensures r.child.Linked? ==> !HasChild(r.child, Left) && !HasChild(r.child, Right)
    ensures r.child.View? ==> !r.child.table[r.child.pos].Sub?
    decreases NodeOf(h)
  {
    match h
    case Linked(n) =>
      var c := Simple(v, None, None);
      var parent := if d == Left then Simple(n.value, Some(c), n.right) else Simple(n.value, n.left, Some(c));
      assert WellFormed(c) && WellFormed(parent);
      Updated(Linked(parent), Linked(c))
    case View(t, p) =>
      if InLastRow(t, p) then
        if t[p].Sub? then
          SubInLastRow(t, p);
          var r := SetChildValue(HandleOf(t[p].node), d, v);
          NestedChildValue(t, p, d, v, r);
          Updated(View(t[p := Sub(NodeOf(r.parent))], p), r.child)
        else
          LastRowChildValue(t, p, d, v);
          Updated(View(NestLastRow(t, p, d, v), p), Linked(Simple(v, None, None)))
      else
        var c := ChildPosition(p, d);
        TableChildValue(t, p, d, v);
        Updated(View(t[c := Val(v)], p), View(t[c := Val(v)], c))
  }

  /// The contract of `SetChildValue` when a nested node does the work.
  lemma NestedChildValue(t: seq<Slot>, p: nat, d: Dir, v: int, r: Updated)
    requires HValid(View(t, p)) && t[p].Sub?
    requires HValid(HandleOf(t[p].node))
    requires Compatible(HandleOf(t[p].node), r.parent) && GetValue(r.parent) == GetValue(HandleOf(t[p].node))
    requires HasChild(r.parent, d) && GetChild(r.parent, d) == r.child && GetValue(r.child) == v
    requires HasChild(r.parent, Other(d)) == HasChild(HandleOf(t[p].node), Other(d))
    requires ChildElems(r.parent, Other(d)) == ChildElems(HandleOf(t[p].node), Other(d))
    requires !HasChild(HandleOf(t[p].node), d) ==> ChildElems(r.parent, d) == [v]
    ensures var h := View(t, p);
      var h2 := View(t[p := Sub(NodeOf(r.parent))], p);
      && Compatible(h, h2) && GetValue(h2) == GetValue(h)
      && HasChild(h2, d) && GetChild(h2, d) == r.child
      && HasChild(h2, Other(d)) == HasChild(h, Other(d))
      && ChildElems(h2, Other(d)) == ChildElems(h, Other(d))
      && (!HasChild(h, d) ==> ChildElems(h2, d) == [v])
  {
    SubInLastRow(t, p);
    CompatibleNode(HandleOf(t[p].node), r.parent);
    ReplaceSub(t, p, NodeOf(r.parent));
    SubInLastRow(t[p := Sub(NodeOf(r.parent))], p);
  }

  /// The contract of `SetChildValue` for a plain last-row slot.
  lemma LastRowChildValue(t: seq<Slot>, p: nat, d: Dir, v: int)
    requires HValid(View(t, p)) && InLastRow(t, p) && t[p].Val?
    ensures var c := Simple(v, None, None);
      var h := View(t, p);
      var h2 := View(NestLastRow(t, p, d, v), p);
      && Compatible(h, h2) && GetValue(h2) == GetValue(h)
      && HasChild(h2, d) && GetChild(h2, d) == Linked(c)
      && !HasChild(h2, Other(d)) && !HasChild(h, Other(d)) && !HasChild(h, d)
      && ChildElems(h2, d) == [v]
  {
    var c := Simple(v, None, None);
    var x := Simple(t[p].v, if d == Left then Some(c) else None, if d == Right then Some(c) else None);
    assert NestLastRow(t, p, d, v) == t[p := Sub(x)];
    Occupancy(t, p);
    assert WellFormed(x);
    SlotUpdate(t, p, Sub(x));
    SubInLastRow(t[p := Sub(x)], p);
  }

  /// The contract of `SetChildValue` for a child slot inside the table.
  lemma TableChildValue(t: seq<Slot>, p: nat, d: Dir, v: int)
    requires HValid(View(t, p)) && !InLastRow(t, p)
    ensures var c := ChildPosition(p, d);
      var h := View(t, p);
      var h2 := View(t[c := Val(v)], p);
      && Compatible(h, h2) && GetValue(h2) == GetValue(h)
      && HasChild(h2, d) && GetChild(h2, d) == View(t[c := Val(v)], c)
      && HasChild(h2, Other(d)) == HasChild(h, Other(d))
      && ChildElems(h2, Other(d)) == ChildElems(h, Other(d))
      && (!HasChild(h, d) ==> ChildElems(h2, d) == [v])
      && h2.table[p] == t[p]
  {
    var c := ChildPosition(p, d);
    Occupancy(t, p);
    ParentOfChildren(p);
    SlotUpdate(t, c, Val(v));
    OtherSideUnchanged(t, t[c := Val(v)], p, d);
    FreshSlotIsLeaf(t, c, v);
    SameOutsideWiden(t, t[c := Val(v)], p, d);
  }

  /// A change confined to a child's subtree is confined to the parent's.
  lemma SameOutsideWiden(t: seq<Slot>, u: seq<Slot>, p: nat, d: Dir)
    requires SameOutside(t, u, ChildPosition(p, d))
    ensures SameOutside(t, u, p)
    ensures p < |t| ==> u[p] == t[p]
  {
    var c := ChildPosition(p, d);
    ParentOfChildren(p);
    forall x: nat | x < |t| && !IsDescendant(x, p) ensures t[x] == u[x] {
      if IsDescendant(x, c) { DescendantOfChild(x, p, c); }
    }
    DescendantAtLeast(p, c);
  }

  /// A value written into an empty slot has nothing below it.
  lemma FreshSlotIsLeaf(t: seq<Slot>, c: nat, v: int)
    requires WellFormed(Compact(t)) && c < |t|
    ensures t[c].Empty? ==> TableElems(t[c := Val(v)], c) == [v]
  {
    var u := t[c := Val(v)];
    ParentOfChildren(c);
    if t[c].Empty? && LeftPosition(c) < |t| {
      assert u[LeftPosition(c)].Empty? && u[RightPosition(c)].Empty?;
    }
  }

  /// Erasing past the end of the table changes nothing.
  lemma EraseOutside(t: seq<Slot>, c: nat)
    requires c >= |t|
    ensures Erase(t, c) == t
  {
    forall x: nat | x < |t| ensures !IsDescendant(x, c) { DescendantAtLeast(x, c); }
  }

  /// `eraseLeftChild` / `eraseRightChild`: a simple node does nothing; a view
  /// empties the subtree at the child position, which is nothing when that
  /// position lies past the end of the table.
  function EraseChild(h: Handle, d: Dir): (h2: Handle)
    requires HValid(h)
    ensures Compatible(h, h2) && GetValue(h2) == GetValue(h)
    ensures h.View? && !h.table[h.pos].Sub? ==> !HasChild(h2, d)
    ensures h.Linked? || h.table[h.pos].Sub? ==> h2 == h
    ensures h.View? ==> h2.table[h.pos] == h.table[h.pos]
    ensures HasChild(h2, Other(d)) == HasChild(h, Other(d))
    ensures ChildElems(h2, Other(d)) == ChildElems(h, Other(d))
  {
    match h
    case Linked(_) => h
    case View(t, p) =>
      var c := ChildPosition(p, d);
      if t[p].Sub? then
        SubInLastRow(t, p);
        EraseOutside(t, c);
        h
      else
        EraseInTable(t, p, d);
        View(Erase(t, c), p)
  }

  lemma EraseInTable(t: seq<Slot>, p: nat, d: Dir)
    requires HValid(View(t, p)) && !t[p].Sub?
    ensures var h2 := View(Erase(t, ChildPosition(p, d)), p);
      && Compatible(View(t, p), h2) && GetValue(h2) == GetValue(View(t, p))
      && !HasChild(h2, d)
      && HasChild(h2, Other(d)) == HasChild(View(t, p), Other(d))
      && ChildElems(h2, Other(d)) == ChildElems(View(t, p), Other(d))
      && h2.table[p] == t[p]
  {
    var c := ChildPosition(p, d);
    var u := Erase(t, c);
    ParentOfChildren(p);
    EraseKeepsShape(t, c);
    if c < |t| { assert IsDescendant(c, c); }
    ChildSideChanged(t, u, p, d);
  }

  /// A table changed only below the `d` child of a value slot: the view of
  /// that slot keeps its place, its value and its other child.
  lemma ChildSideChanged(t: seq<Slot>, u: seq<Slot>, p: nat, d: Dir)
    requires HValid(View(t, p)) && !t[p].Sub? && WellFormed(Compact(u))
    requires SameOutside(t, u, ChildPosition(p, d))
    ensures var h, h2 := View(t, p), View(u, p);
      && Compatible(h, h2) && GetValue(h2) == GetValue(h) && u[p] == t[p]
      && HasChild(h2, Other(d)) == HasChild(h, Other(d))
      && ChildElems(h2, Other(d)) == ChildElems(h, Other(d))
  {
    SameOutsideWiden(t, u, p, d);
    OtherSideUnchanged(t, u, p, d);
    var o := ChildPosition(p, Other(d));
    if o < |t| { assert IsDescendant(o, o); }
  }

  lemma SameOutsideTrans(t: seq<Slot>, u: seq<Slot>, w: seq<Slot>, p: nat)
    requires SameOutside(t, u, p) && SameOutside(u, w, p)
    ensures SameOutside(t, w, p)
  {
  }

  /// `replaceLeftTree` / `replaceRightTree`: the subtree on side `d` becomes a
  /// single value. Inside the table the child slot is overwritten and
  /// everything below it erased.
  function ReplaceChildTree(h: Handle, d: Dir, v: int): (h2: Handle)
    requires HValid(h)
    ensures Compatible(h, h2) && GetValue(h2) == GetValue(h)
    ensures HasChild(h2, d) && ChildElems(h2, d) == [v]
    ensures HasChild(h2, Other(d)) == HasChild(h, Other(d))
    ensures ChildElems(h2, Other(d)) == ChildElems(h, Other(d))
    ensures h.View? && !InLastRow(h.table, h.pos) ==> h2.table[h.pos] == h.table[h.pos]
    decreases NodeOf(h)
  {
    match h
    case Linked(n) =>
      var c := Simple(v, None, None);
      var parent := if d == Left then Simple(n.value, Some(c), n.right) else Simple(n.value, n.left, Some(c));
      assert WellFormed(c) && WellFormed(parent);
      Linked(parent)
    case View(t, p) =>
      if InLastRow(t, p) then
        if t[p].Sub? then
          SubInLastRow(t, p);
          var m2 := ReplaceChildTree(HandleOf(t[p].node), d, v);
          NestedReplace(t, p, m2);
          View(t[p := Sub(NodeOf(m2))], p)
        else
          var c := Simple(v, None, None);
          var x := Simple(t[p].v, if d == Left then Some(c) else None, if d == Right then Some(c) else None);
          LastRowChildValue(t, p, d, v);
          View(t[p := Sub(x)], p)
      else
        var c := ChildPosition(p, d);
        TableReplaceChild(t, p, d, v);
        View(EraseBelow(t[c := Val(v)], c), p)
  }

  /// Putting a nested node changed compatibly back into its slot: the view
  /// answers as the changed nested node does.
  lemma NestedReplace(t: seq<Slot>, p: nat, m2: Handle)
    requires HValid(View(t, p)) && t[p].Sub?
    requires HValid(HandleOf(t[p].node)) && Compatible(HandleOf(t[p].node), m2)
    ensures var h2 := View(t[p := Sub(NodeOf(m2))], p);
      && Compatible(View(t, p), h2) && HandleOf(NodeOf(m2)) == m2
      && GetValue(h2) == GetValue(m2)
      && (forall d: Dir :: HasChild(h2, d) == HasChild(m2, d))
      && (forall d: Dir :: HasChild(h2, d) ==> GetChild(h2, d) == GetChild(m2, d))
      && (forall d: Dir :: ChildElems(h2, d) == ChildElems(m2, d))
      && HElements(h2) == HElements(m2)
  {
    SubInLastRow(t, p);
    CompatibleNode(HandleOf(t[p].node), m2);
    ReplaceSub(t, p, NodeOf(m2));
    SubInLastRow(t[p := Sub(NodeOf(m2))], p);
  }

  /// `eraseBelow(position)`: empties both subtrees of `c`.
  function EraseBelow(t: seq<Slot>, c: nat): seq<Slot>
  {
    Erase(Erase(t, LeftPosition(c)), RightPosition(c))
  }

  /// Erasing below a value leaves that value alone in its subtree.
  lemma EraseBelowKeepsShape(t: seq<Slot>, c: nat)
    requires WellFormed(Compact(t)) && c < |t| && t[c].Val?
    ensures var u := EraseBelow(t, c);
      && WellFormed(Compact(u)) && SameOutside(t, u, c)
      && u[c] == t[c] && TableElems(u, c) == [t[c].v]
  {
    ParentOfChildren(c);
    var u1 := Erase(t, LeftPosition(c));
    EraseKeepsShape(t, LeftPosition(c));
    SameOutsideWiden(t, u1, c, Left);
    var u2 := Erase(u1, RightPosition(c));
    EraseKeepsShape(u1, RightPosition(c));
    SameOutsideWiden(u1, u2, c, Right);
    TableElemsLocal(u1, u2, LeftPosition(c)) by {
      forall x: nat | x < |u1| && IsDescendant(x, LeftPosition(c)) ensures u1[x] == u2[x] {
        SubtreesDisjoint(x, c);
      }
    }
    SameOutsideTrans(t, u1, u2, c);
  }

  /// The table case of `ReplaceChildTree`.
  lemma TableReplaceChild(t: seq<Slot>, p: nat, d: Dir, v: int)
    requires HValid(View(t, p)) && !InLastRow(t, p)
    ensures var c := ChildPosition(p, d);
      var h := View(t, p);
      var h2 := View(EraseBelow(t[c := Val(v)], c), p);
      && Compatible(h, h2) && GetValue(h2) == GetValue(h)
      && HasChild(h2, d) && ChildElems(h2, d) == [v]
      && HasChild(h2, Other(d)) == HasChild(h, Other(d))
      && ChildElems(h2, Other(d)) == ChildElems(h, Other(d))
      && h2.table[p] == t[p]
  {
    var c := ChildPosition(p, d);
    var u2 := EraseBelow(t[c := Val(v)], c);
    ChildSlotReplaced(t, p, d, v);
    Occupancy(t, p);
    ChildSideChanged(t, u2, p, d);
    ParentOfChildren(p);
  }

  /// The table of `TableReplaceChild`: still well formed, changed only in
  /// the subtree at the child position, which now holds `v` alone.
  lemma ChildSlotReplaced(t: seq<Slot>, p: nat, d: Dir, v: int)
    requires HValid(View(t, p)) && !InLastRow(t, p)
    ensures var c := ChildPosition(p, d);
      var u2 := EraseBelow(t[c := Val(v)], c);
      && c < |t| && WellFormed(Compact(u2)) && SameOutside(t, u2, c)
      && u2[c] == Val(v) && TableElems(u2, c) == [v]
  {
    var c := ChildPosition(p, d);
    var u0 := t[c := Val(v)];
    Occupancy(t, p);
    ParentOfChildren(p);
    SlotUpdate(t, c, Val(v));
    var u2 := EraseBelow(u0, c);
    EraseBelowKeepsShape(u0, c);
    SameOutsideTrans(t, u0, u2, c);
  }

  /// `isLeaf`: inside the table both child slots are empty; in the last row a
  /// nested node is never reported as a leaf.
  function IsLeaf(h: Handle): (b: bool)
    requires HValid(h)
    ensures b ==> !HasChild(h, Left) && !HasChild(h, Right)
    ensures !HasChild(h, Left) && !HasChild(h, Right) && (h.Linked? || !h.table[h.pos].Sub?) ==> b
  {
    match h
    case Linked(n) => n.left.None? && n.right.None?
    case View(t, p) =>
      var r := RightPosition(p);
      if r < |t| then t[r].Empty? && t[r - 1].Empty?
      else !t[p].Sub?
  }

  /// `removeLeftLeaf` / `removeRightLeaf`: drops a child that has no children.
  /// A nested node that is left without children collapses back to a value.
  function RemoveLeaf(h: Handle, d: Dir): (h2: Handle)
    requires HValid(h) && HasChild(h, d)
    requires !HasChild(GetChild(h, d), Left) && !HasChild(GetChild(h, d), Right)
    ensures Compatible(h, h2) && GetValue(h2) == GetValue(h)
    ensures !HasChild(h2, d)
    ensures HasChild(h2, Other(d)) == HasChild(h, Other(d))
    ensures ChildElems(h2, Other(d)) == ChildElems(h, Other(d))
    decreases NodeOf(h)
  {
    match h
    case Linked(n) =>
      var parent := if d == Left then Simple(n.value, None, n.right) else Simple(n.value, n.left, None);
      Linked(parent)
    case View(t, p) =>
      if InLastRow(t, p) then
        SubInLastRow(t, p);
        var m2 := RemoveLeaf(HandleOf(t[p].node), d);
        NestedReplace(t, p, m2);
        if !HasChild(m2, Other(d)) then
          CollapseNested(t, p, m2);
          View(t[p := Val(GetValue(m2))], p)
        else
          View(t[p := Sub(NodeOf(m2))], p)
      else
        TableRemoveLeaf(t, p, d);
        View(t[ChildPosition(p, d) := Empty], p)
  }

  /// A nested node without children may be replaced by its value.
  lemma CollapseNested(t: seq<Slot>, p: nat, m2: Handle)
    requires HValid(View(t, p)) && t[p].Sub? && HValid(m2)
    requires !HasChild(m2, Left) && !HasChild(m2, Right)
    ensures var h2 := View(t[p := Val(GetValue(m2))], p);
      && Compatible(View(t, p), h2) && GetValue(h2) == GetValue(m2)
      && !HasChild(h2, Left) && !HasChild(h2, Right)
      && HElements(h2) == HElements(m2)
  {
    SubInLastRow(t, p);
    Occupancy(t, p);
    SlotUpdate(t, p, Val(GetValue(m2)));
    Split(m2);
  }

  /// The table case of `RemoveLeaf`.
  lemma TableRemoveLeaf(t: seq<Slot>, p: nat, d: Dir)
    requires HValid(View(t, p)) && !InLastRow(t, p) && HasChild(View(t, p), d)
    requires !HasChild(GetChild(View(t, p), d), Left) && !HasChild(GetChild(View(t, p), d), Right)
    ensures var c := ChildPosition(p, d);
      var h := View(t, p);
      var h2 := View(t[c := Empty], p);
      && Compatible(h, h2) && GetValue(h2) == GetValue(h)
      && !HasChild(h2, d)
      && HasChild(h2, Other(d)) == HasChild(h, Other(d))
      && ChildElems(h2, Other(d)) == ChildElems(h, Other(d))
  {
    LeafSlotCleared(t, p, d);
    ChildSideChanged(t, t[ChildPosition(p, d) := Empty], p, d);
  }

  /// Emptying the slot of a childless child keeps the table well formed.
  lemma LeafSlotCleared(t: seq<Slot>, p: nat, d: Dir)
    requires HValid(View(t, p)) && !InLastRow(t, p) && HasChild(View(t, p), d)
    requires !HasChild(GetChild(View(t, p), d), Left) && !HasChild(GetChild(View(t, p), d), Right)
    ensures var c := ChildPosition(p, d);
      && WellFormed(Compact(t[c := Empty])) && SameOutside(t, t[c := Empty], c)
  {
    var c := ChildPosition(p, d);
    ParentOfChildren(p);
    ParentOfChildren(c);
    if t[c].Sub? { SubInLastRow(t, c); }
    SlotUpdate(t, c, Empty);
  }

  /// `setLeftTree` / `setRightTree` of a SimpleBinaryNode.
  function SetChildTree(h: Handle, d: Dir, n: Node): (h2: Handle)
    requires HValid(h) && h.Linked? && WellFormed(n)
    ensures Compatible(h, h2) && GetValue(h2) == GetValue(h)
    ensures HasChild(h2, d) && ChildElems(h2, d) == Elements(n)
    ensures HasChild(h2, Other(d)) == HasChild(h, Other(d))
    ensures ChildElems(h2, Other(d)) == ChildElems(h, Other(d))
  {
    HandleOfValid(n);
    var m := h.node;
    Linked(if d == Left then Simple(m.value, Some(n), m.right) else Simple(m.value, m.left, Some(n)))
  }

  /// `setSubTree`: a last-row view holds the given node in its slot.
  function SetSubTree(h: Handle, n: Node): (h2: Handle)
    requires HValid(h) && h.View? && InLastRow(h.table, h.pos) && WellFormed(n)
    ensures Compatible(h, h2) && HElements(h2) == Elements(n)
  {
    var t, p := h.table, h.pos;
    Occupancy(t, p);
    SlotUpdate(t, p, Sub(n));
    View(t[p := Sub(n)], p)
  }

  /// `isLeftChildInLastRow` / `isRightChildInLastRow`.
  predicate IsChildInLastRow(h: Handle, d: Dir)
    requires h.View?
  {
    !InLastRow(h.table, h.pos) && ChildPosition(h.pos, d) * 2 + 2 >= |h.table|
  }

  /// `setLeftSubTree` / `setRightSubTree`: a child slot in the last row holds
  /// the given node.
  function SetChildSubTree(h: Handle, d: Dir, n: Node): (h2: Handle)
    requires HValid(h) && h.View? && IsChildInLastRow(h, d) && WellFormed(n)
    ensures Compatible(h, h2) && GetValue(h2) == GetValue(h)
    ensures HasChild(h2, d) && ChildElems(h2, d) == Elements(n)
    ensures HasChild(h2, Other(d)) == HasChild(h, Other(d))
    ensures ChildElems(h2, Other(d)) == ChildElems(h, Other(d))
    ensures h2.table[h.pos] == h.table[h.pos]
  {
    var t, p := h.table, h.pos;
    TableChildSubTree(t, p, d, n);
    View(t[ChildPosition(p, d) := Sub(n)], p)
  }

  lemma TableChildSubTree(t: seq<Slot>, p: nat, d: Dir, n: Node)
    requires HValid(View(t, p)) && IsChildInLastRow(View(t, p), d) && WellFormed(n)
    ensures var c := ChildPosition(p, d);
      var h := View(t, p);
      var h2 := View(t[c := Sub(n)], p);
      && Compatible(h, h2) && GetValue(h2) == GetValue(h)
      && HasChild(h2, d) && ChildElems(h2, d) == Elements(n)
      && HasChild(h2, Other(d)) == HasChild(h, Other(d))
      && ChildElems(h2, Other(d)) == ChildElems(h, Other(d))
      && h2.table[p] == t[p]
  {
    var c := ChildPosition(p, d);
    ParentOfChildren(p);
    SlotUpdate(t, c, Sub(n));
    SubInLastRow(t[c := Sub(n)], c);
    OtherSideUnchanged(t, t[c := Sub(n)], p, d);
    SameOutsideWiden(t, t[c := Sub(n)], p, d);
  }
}

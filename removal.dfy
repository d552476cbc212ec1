/// `removeGreatest` / `removeLeast` of both node kinds, with the
/// `removeExtremeValue` and `removeForInsertWithoutUpdatingNodeCount*`
/// helpers of the compact node.
///
/// The Java methods are called on a child with its parent as argument and
/// change both in place; here `RemoveExtreme(parent, d, toward)` takes the
/// parent and the side `d` of the child, and returns the changed parent
/// together with the removed value. `toward == Right` is `removeGreatest`,
/// `toward == Left` is `removeLeast`.
module Removal {
  import opened Wrappers
  import opened Nodes
  import opened Handles
  import opened NodeOps

  datatype Removed = Removed(parent: Handle, value: int)

  /// The element at the `toward` end of a sequence: its last for Right, its first for Left.
  function Extreme(e: seq<int>, toward: Dir): int
    requires |e| > 0
  {
    if toward == Right then e[|e| - 1] else e[0]
  }

  /// The sequence without its `toward` end.
  function DropExtreme(e: seq<int>, toward: Dir): seq<int>
    requires |e| > 0
  {
    if toward == Right then e[..|e| - 1] else e[1..]
  }

  /// `r` is `parent` with the `toward`-most element of its `d` subtree taken
  /// out, and `r.value` is that element; the parent's own value and its
  /// other subtree are untouched.
  ghost predicate RemovedFrom(parent: Handle, d: Dir, toward: Dir, r: Removed)
    requires HValid(parent) && HasChild(parent, d)
  {
    && Compatible(parent, r.parent) && GetValue(r.parent) == GetValue(parent)
    && |ChildElems(parent, d)| > 0
    && r.value == Extreme(ChildElems(parent, d), toward)
    && ChildElems(r.parent, d) == DropExtreme(ChildElems(parent, d), toward)
    && HasChild(r.parent, Other(d)) == HasChild(parent, Other(d))
    && ChildElems(r.parent, Other(d)) == ChildElems(parent, Other(d))
  }

  function RemoveExtreme(parent: Handle, d: Dir, toward: Dir): (r: Removed)
    requires HValid(parent) && HasChild(parent, d)
    ensures RemovedFrom(parent, d, toward, r)
    decreases |ChildElems(parent, d)|
  {
    var c := GetChild(parent, d);
    var o := Other(toward);
    Split(c);
    if HasChild(c, toward) then
      // Keep descending toward the end.
      var r := RemoveExtreme(c, toward, toward);
      DeeperExtreme(parent, d, toward, r);
      Removed(Reattach(parent, d, r.parent), r.value)
    else if !HasChild(c, o) then
      // The child is a leaf: its parent drops it.
      LeafExtreme(parent, d, toward);
      Removed(RemoveLeaf(parent, d), GetValue(c))
    else if c.View? && c.table[c.pos].Sub? then
      // A nested node pulls up the nearest element of its other subtree and
      // collapses to a plain value if nothing is left below it.
      var t, p := c.table, c.pos;
      SubInLastRow(t, p);
      var m := HandleOf(t[p].node);
      Split(m);
      var r := RemoveExtreme(m, o, toward);
      var slot := if IsLeaf(r.parent) then Val(r.value) else Sub(NodeOf(SetValue(r.parent, r.value)));
      NestedExtreme(parent, d, toward, r, slot);
      Removed(Reattach(parent, d, View(t[p := slot], p)), GetValue(c))
    else
      // The child takes the nearest element of its other subtree as its value.
      var r := RemoveExtreme(c, o, toward);
      PulledExtreme(parent, d, toward, r);
      Removed(Reattach(parent, d, SetValue(r.parent, r.value)), GetValue(c))
  }

  /// Taking an end element out of one side of a split sequence.
  lemma ExtremeOfSplit(l: seq<int>, x: int, r: seq<int>, toward: Dir)
    requires toward == Right ==> |r| > 0
    requires toward == Left ==> |l| > 0
    ensures Extreme(l + [x] + r, toward) == Extreme(if toward == Right then r else l, toward)
    ensures DropExtreme(l + [x] + r, toward) ==
      if toward == Right then l + [x] + DropExtreme(r, toward) else DropExtreme(l, toward) + [x] + r
  {
    var e := l + [x] + r;
    if toward == Right {
      assert e[..|e| - 1] == l + [x] + r[..|r| - 1];
    } else {
      assert e[1..] == l[1..] + [x] + r;
    }
  }

  /// A handle whose `toward` subtree lost its end element lost the end
  /// element of its whole sequence.
  lemma Regroup(c: Handle, c2: Handle, toward: Dir)
    requires HValid(c) && HValid(c2) && GetValue(c2) == GetValue(c) && HasChild(c, toward)
    requires |ChildElems(c, toward)| > 0
    requires ChildElems(c2, toward) == DropExtreme(ChildElems(c, toward), toward)
    requires ChildElems(c2, Other(toward)) == ChildElems(c, Other(toward))
    ensures |HElements(c)| > 0
    ensures Extreme(HElements(c), toward) == Extreme(ChildElems(c, toward), toward)
    ensures HElements(c2) == DropExtreme(HElements(c), toward)
  {
    Split(c);
    Split(c2);
    ExtremeOfSplit(ChildElems(c, Left), GetValue(c), ChildElems(c, Right), toward);
  }

  /// A handle with nothing toward the end, whose value is replaced by the
  /// nearest element of its other side, lost its own value, which was the end.
  lemma PullUp(c: Handle, h3: Handle, toward: Dir)
    requires HValid(c) && HValid(h3) && !HasChild(c, toward) && !HasChild(h3, toward)
    requires |ChildElems(c, Other(toward))| > 0
    requires GetValue(h3) == Extreme(ChildElems(c, Other(toward)), toward)
    requires ChildElems(h3, Other(toward)) == DropExtreme(ChildElems(c, Other(toward)), toward)
    ensures |HElements(c)| > 0
    ensures Extreme(HElements(c), toward) == GetValue(c)
    ensures HElements(h3) == DropExtreme(HElements(c), toward)
  {
    Split(c);
    Split(h3);
    var e := ChildElems(c, Other(toward));
    PulledEnd(e, GetValue(c), toward);
    if toward == Right {
      assert HElements(c) == e + [GetValue(c)];
      assert HElements(h3) == DropExtreme(e, Right) + [GetValue(h3)];
    } else {
      assert HElements(c) == [GetValue(c)] + e;
      assert HElements(h3) == [GetValue(h3)] + DropExtreme(e, Left);
    }
  }

  /// A value with the sequence `e` on the side away from the end: it is the
  /// end, and the nearest element of `e` put in its place completes `e`.
  lemma PulledEnd(e: seq<int>, v: int, toward: Dir)
    requires |e| > 0
    ensures toward == Right ==>
      Extreme(e + [v], Right) == v && DropExtreme(e, Right) + [Extreme(e, Right)] == DropExtreme(e + [v], Right)
    ensures toward == Left ==>
      Extreme([v] + e, Left) == v && [Extreme(e, Left)] + DropExtreme(e, Left) == DropExtreme([v] + e, Left)
  {
    assert (e + [v])[..|e|] == e;
    assert ([v] + e)[1..] == e;
  }

  /// The branch of `RemoveExtreme` that descends toward the end.
  lemma DeeperExtreme(parent: Handle, d: Dir, toward: Dir, r: Removed)
    requires HValid(parent) && HasChild(parent, d)
    requires HValid(GetChild(parent, d)) && HasChild(GetChild(parent, d), toward)
    requires RemovedFrom(GetChild(parent, d), toward, toward, r)
    ensures RemovedFrom(parent, d, toward, Removed(Reattach(parent, d, r.parent), r.value))
  {
    var c := GetChild(parent, d);
    ReattachSpec(parent, d, r.parent);
    Regroup(c, r.parent, toward);
  }

  /// The branch of `RemoveExtreme` where the child is a leaf.
  lemma LeafExtreme(parent: Handle, d: Dir, toward: Dir)
    requires HValid(parent) && HasChild(parent, d)
    requires !HasChild(GetChild(parent, d), Left) && !HasChild(GetChild(parent, d), Right)
    ensures RemovedFrom(parent, d, toward, Removed(RemoveLeaf(parent, d), GetValue(GetChild(parent, d))))
  {
    Split(GetChild(parent, d));
  }

  /// The branch of `RemoveExtreme` for a child that is neither a leaf nor a
  /// view of a nested node.
  lemma PulledExtreme(parent: Handle, d: Dir, toward: Dir, r: Removed)
    requires HValid(parent) && HasChild(parent, d)
    requires var c := GetChild(parent, d);
      && !HasChild(c, toward) && HasChild(c, Other(toward))
      && RemovedFrom(c, Other(toward), toward, r)
    ensures RemovedFrom(parent, d, toward, Removed(Reattach(parent, d, SetValue(r.parent, r.value)), GetValue(GetChild(parent, d))))
  {
    var c := GetChild(parent, d);
    var h3 := SetValue(r.parent, r.value);
    CompatibleTrans(c, r.parent, h3);
    PullUp(c, h3, toward);
    ReattachSpec(parent, d, h3);
  }

  /// The branch of `RemoveExtreme` for a view of a nested node.
  lemma NestedExtreme(parent: Handle, d: Dir, toward: Dir, r: Removed, slot: Slot)
    requires HValid(parent) && HasChild(parent, d)
    requires var c := GetChild(parent, d);
      && c.View? && c.table[c.pos].Sub?
      && !HasChild(c, toward) && HasChild(c, Other(toward))
    requires var c := GetChild(parent, d);
      var m := HandleOf(c.table[c.pos].node);
      && HValid(m) && HasChild(m, Other(toward))
      && RemovedFrom(m, Other(toward), toward, r)
      && slot == if IsLeaf(r.parent) then Val(r.value) else Sub(NodeOf(SetValue(r.parent, r.value)))
    ensures var c := GetChild(parent, d);
      RemovedFrom(parent, d, toward, Removed(Reattach(parent, d, View(c.table[c.pos := slot], c.pos)), GetValue(c)))
  {
    var c := GetChild(parent, d);
    var t, p := c.table, c.pos;
    SubInLastRow(t, p);
    NestedSlot(t, p, toward, r, slot);
    ReattachSpec(parent, d, View(t[p := slot], p));
  }

  /// Refilling the slot of a nested node after its end element was pulled up.
  lemma NestedSlot(t: seq<Slot>, p: nat, toward: Dir, r: Removed, slot: Slot)
    requires HValid(View(t, p)) && t[p].Sub?
    requires var m := HandleOf(t[p].node);
      && HValid(m) && !HasChild(m, toward) && HasChild(m, Other(toward))
      && RemovedFrom(m, Other(toward), toward, r)
      && slot == if IsLeaf(r.parent) then Val(r.value) else Sub(NodeOf(SetValue(r.parent, r.value)))
    ensures var c := View(t, p);
      var c2 := View(t[p := slot], p);
      && Compatible(c, c2) && |HElements(c)| > 0
      && Extreme(HElements(c), toward) == GetValue(c)
      && HElements(c2) == DropExtreme(HElements(c), toward)
  {
    var m := HandleOf(t[p].node);
    SubInLastRow(t, p);
    HandleOfValid(t[p].node);
    if IsLeaf(r.parent) {
      CollapsedSlot(t, p, r);
      PullUp(m, View(t[p := slot], p), toward);
    } else {
      var h3 := SetValue(r.parent, r.value);
      CompatibleTrans(m, r.parent, h3);
      PullUp(m, h3, toward);
      NestedReplace(t, p, h3);
    }
  }

  /// A nested node left without children becomes the pulled-up value.
  lemma CollapsedSlot(t: seq<Slot>, p: nat, r: Removed)
    requires HValid(View(t, p)) && t[p].Sub? && HValid(r.parent) && IsLeaf(r.parent)
    ensures var c2 := View(t[p := Val(r.value)], p);
      && Compatible(View(t, p), c2) && GetValue(c2) == r.value
      && !HasChild(c2, Left) && !HasChild(c2, Right)
      && ChildElems(c2, Left) == [] && ChildElems(c2, Right) == []
  {
    SubInLastRow(t, p);
    Occupancy(t, p);
    SlotUpdate(t, p, Val(r.value));
  }
}

/// BalancedTreeBuilder: places n ascending values, one call at a time, into the
/// slots of a complete binary tree so that the in-order walk of the slots
/// yields the values in the order they were given.
module Builder {
  import opened Positions
  import opened Layout
  import opened Nodes

  /// The values held by the slots at the positions `ps`, in that order.
  ghost function ValuesAt(t: seq<Slot>, ps: seq<nat>): seq<int>
  {
    seq(|ps|, i requires 0 <= i < |ps| => if ps[i] < |t| && t[ps[i]].Val? then t[ps[i]].v else 0)
  }

  class BalancedTreeBuilder {
    const size: nat
    const slots: array<Slot>
    var remaining: nat
    var currentPosition: nat
    var traversingDown: bool

    /// Positions written so far, in the order of the calls, and the values written there.
    ghost var Written: seq<nat>
    ghost var Values: seq<int>

    ghost predicate Valid()
      reads this, slots
    {
      && slots.Length == size + (if size % 2 == 0 then 1 else 0)
      && remaining + |Written| == size
      && |Values| == |Written|
      && Written <= InOrder(0, size)
      && (remaining > 0 ==>
            && currentPosition < size
            && Written == Prefix(currentPosition, size) + InOrder(LeftPosition(currentPosition), size)
            && traversingDown == (RightPosition(currentPosition) < size))
      && (forall q :: 0 <= q < slots.Length ==> !slots[q].Sub? && (slots[q].Val? <==> q in Written))
      && (forall i :: 0 <= i < |Written| ==> Written[i] < slots.Length && slots[Written[i]] == Val(Values[i]))
    }

    /// The array has n slots for odd n and n + 1 for even n; the first value
    /// goes to the leftmost position.
    constructor (size: nat)
      ensures Valid() && fresh(slots)
      ensures this.size == size && remaining == size
      ensures Written == [] && Values == []
    {
      var position := 0;
      while LeftPosition(position) < size
        invariant Prefix(position, size) == []
        invariant size > 0 ==> position < size
        decreases size - position
      {
        PrefixOfLeftChild(position, size);
        position := LeftPosition(position);
      }
      this.size := size;
      remaining := size;
      slots := new Slot[size + (if size % 2 == 0 then 1 else 0)](_ => Empty);
      currentPosition := position;
      traversingDown := false;
      Written := [];
      Values := [];
    }

    /// Writes `element` at the current position and moves to the in-order
    /// successor of that position.
    method Value(element: int)
      requires Valid() && remaining > 0
      modifies this, slots
      ensures Valid()
      ensures Written == old(Written) + [old(currentPosition)]
      ensures Values == old(Values) + [element]
      ensures remaining == old(remaining) - 1
    {
      var c := currentPosition;
      WriteStep(c, size, Written);
      slots[c] := Val(element);
      remaining := remaining - 1;
      Written := Written + [c];
      Values := Values + [element];
      if remaining == 0 {
        return;
      }
      CursorInWalk(c, size);
      currentPosition, traversingDown := NextCursor(slots, size, c, traversingDown, Written);
    }
  }

  /// The cursor move of `value`: from the slot just written at `c`, either
  /// down to the leftmost position of its right subtree, or up past every
  /// ancestor that already holds a value.
  method NextCursor(slots: array<Slot>, size: nat, c: nat, traversingDown: bool, ghost w: seq<nat>)
      returns (next: nat, nextDown: bool)
    requires c < size <= slots.Length && |w| < size
    requires w == Prefix(c, size) + InOrder(LeftPosition(c), size) + [c]
    requires traversingDown == (RightPosition(c) < size)
    requires forall q :: 0 <= q < slots.Length ==> (slots[q].Val? <==> q in w)
    ensures next < size && w == Prefix(next, size) + InOrder(LeftPosition(next), size)
    ensures nextDown == (RightPosition(next) < size)
  {
    PrefixOfRightChild(c, size);
    var position := c;
    if traversingDown {
      position := RightPosition(c);
      while LeftPosition(position) < size
        invariant position < size
        invariant w == Prefix(position, size)
        decreases size - position
      {
        PrefixOfLeftChild(position, size);
        position := LeftPosition(position);
      }
      next, nextDown := position, false;
    } else {
      // Climb until an ancestor whose slot is still empty.
      var child := c;
      assert w == Prefix(c, size) + InOrder(c, size);
      position := ParentPosition(c);
      ChildOfParent(c);
      while slots[position].Val?
        invariant 0 < child < size && position == ParentPosition(child)
        invariant w == Prefix(child, size) + InOrder(child, size)
        decreases position
      {
        ClimbStep(child, size, w);
        child := position;
        position := ParentPosition(position);
      }
      ClimbStep(child, size, w);
      next, nextDown := position, RightPosition(position) < size;
    }
  }

  /// Writing at the cursor extends the walk by the cursor's own position.
  lemma {:induction false} WriteStep(c: nat, n: nat, w: seq<nat>)
    requires c < n && w == Prefix(c, n) + InOrder(LeftPosition(c), n)
    ensures c !in w && w + [c] <= InOrder(0, n) && |InOrder(0, n)| == n
    ensures RightPosition(c) < n ==> w + [c] == Prefix(RightPosition(c), n)
    ensures RightPosition(c) >= n ==> w + [c] == Prefix(c, n) + InOrder(c, n)
  {
    PrefixAvoidsSubtree(c, n, c);
    InOrderMembers(LeftPosition(c), n, c);
    Decompose(c, n);
    InOrderLength(n);
    PrefixOfRightChild(c, n);
  }

  /// One step of the climb: the parent has been written exactly when the
  /// walk has finished its right subtree.
  lemma {:induction false} ClimbStep(child: nat, n: nat, w: seq<nat>)
    requires 0 < child < n && |w| < n
    requires w == Prefix(child, n) + InOrder(child, n)
    ensures var p := ParentPosition(child);
      && p < child
      && (p in w <==> child % 2 == 0)
      && (child % 2 == 0 ==> p > 0 && w == Prefix(p, n) + InOrder(p, n))
      && (child % 2 == 1 ==> w == Prefix(p, n) + InOrder(LeftPosition(p), n))
  {
    var p := ParentPosition(child);
    ChildOfParent(child);
    PrefixAvoidsSubtree(p, n, p);
    InOrderMembers(child, n, p);
    if child % 2 == 1 {
      PrefixOfLeftChild(p, n);
    } else {
      PrefixOfRightChild(p, n);
      assert InOrder(p, n) == InOrder(LeftPosition(p), n) + [p] + InOrder(child, n);
      assert w == Prefix(p, n) + InOrder(p, n);
      if p == 0 {
        InOrderLength(n);
      }
    }
  }

  /// The positions before the cursor form a prefix of the walk.
  lemma {:induction false} CursorInWalk(c: nat, n: nat)
    requires c < n
    ensures Prefix(c, n) + InOrder(LeftPosition(c), n) <= InOrder(0, n)
  {
    Decompose(c, n);
  }

  /// When exactly the first n slots hold values, the in-order walk of the
  /// table reads them in the order of `InOrder`.
  lemma {:induction false} FilledTableElems(t: seq<Slot>, n: nat, p: nat)
    requires n <= |t|
    requires forall q :: 0 <= q < |t| ==> !t[q].Sub? && (t[q].Val? <==> q < n)
    ensures TableElems(t, p) == ValuesAt(t, InOrder(p, n))
    decreases |t| - p
  {
    if p < n {
      var l, r := LeftPosition(p), RightPosition(p);
      FilledTableElems(t, n, l);
      FilledTableElems(t, n, r);
      var a, b := InOrder(l, n), InOrder(r, n);
      assert InOrder(p, n) == a + [p] + b;
      assert ValuesAt(t, a + [p] + b) == ValuesAt(t, a) + [t[p].v] + ValuesAt(t, b);
    }
  }

  /// `buildFromSortedList(list, size)`: one builder call per element, in order.
  method BuildTable(values: seq<int>) returns (table: seq<Slot>)
    ensures |table| == |values| + (if |values| % 2 == 0 then 1 else 0)
    ensures forall q :: 0 <= q < |table| ==> !table[q].Sub? && (table[q].Val? <==> q < |values|)
    ensures TableElems(table, 0) == values
  {
    var builder := new BalancedTreeBuilder(|values|);
    var i := 0;
    while i < |values|
      invariant 0 <= i <= |values|
      invariant builder.Valid() && builder.size == |values| && builder.remaining == |values| - i
      invariant builder.Values == values[..i]
    {
      assert values[..i + 1] == values[..i] + [values[i]];
      builder.Value(values[i]);
      i := i + 1;
    }
    assert values[..i] == values;
    BuilderFinished(builder, values);
    table := builder.slots[..];
  }

  /// A builder that has been given every value holds the finished table.
  lemma BuilderFinished(builder: BalancedTreeBuilder, values: seq<int>)
    requires builder.Valid() && builder.remaining == 0 && builder.Values == values
    ensures var table := builder.slots[..];
      && |table| == |values| + (if |values| % 2 == 0 then 1 else 0)
      && (forall q :: 0 <= q < |table| ==> !table[q].Sub? && (table[q].Val? <==> q < |values|))
      && TableElems(table, 0) == values
  {
    FinishedTable(builder.slots[..], builder.Written, values);
  }

  /// Once every position of the walk has been written, the table holds the
  /// values in the first n slots and its in-order walk reads them back.
  lemma FinishedTable(table: seq<Slot>, written: seq<nat>, values: seq<int>)
    requires var n := |values|;
      && |table| == n + (if n % 2 == 0 then 1 else 0)
      && |written| == n && written <= InOrder(0, n)
      && (forall q :: 0 <= q < |table| ==> !table[q].Sub? && (table[q].Val? <==> q in written))
      && (forall i :: 0 <= i < n ==> written[i] < |table| && table[written[i]] == Val(values[i]))
    ensures forall q :: 0 <= q < |table| ==> !table[q].Sub? && (table[q].Val? <==> q < |values|)
    ensures TableElems(table, 0) == values
  {
    var n := |values|;
    InOrderLength(n);
    assert written == InOrder(0, n);
    forall q | 0 <= q < |table| ensures table[q].Val? <==> q < n {
      InOrderMembers(0, n, q);
      DescendantOfRoot(q);
    }
    FilledTableElems(table, n, 0);
    assert ValuesAt(table, written) == values;
  }

  /// A table built from at least one value has the layout of a compact node.
  lemma BuiltTableShape(table: seq<Slot>, n: nat)
    requires n >= 2
    requires |table| == n + (if n % 2 == 0 then 1 else 0)
    requires forall q :: 0 <= q < |table| ==> !table[q].Sub? && (table[q].Val? <==> q < n)
    ensures WellFormed(Compact(table))
  {
  }
}

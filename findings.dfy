/// `buildFromSortedList` as written, for lists of fewer than two elements.
/// It always wraps the builder's array in a table node. The set itself uses
/// the corrected `BuildRoot`; this module only exhibits the discrepancies.
module Findings {
  import opened Wrappers
  import opened Positions
  import opened Nodes
  import opened Handles
  import opened NodeOps
  import opened Builder
  import opened Traversal

  /// `buildFromSortedList(list, size)` as written: the builder's array
  /// becomes the root table whatever the number of values. No value gives a
  /// table of one empty slot. One value gives a table of one slot, which
  /// the table node's own constructor assumes never happens.
  method BuildRootAsWritten(values: seq<int>) returns (root: Node)
    ensures root.Compact? && TableElems(root.table, 0) == values
    ensures |values| == 0 ==> root == Compact([Empty])
    ensures |values| == 1 ==> root == Compact([Val(values[0])])
    ensures |values| >= 2 ==> WellFormed(root) && Elements(root) == values
  {
    var table := BuildTable(values);
    root := Compact(table);
    if |values| == 0 {
      assert table == [Empty];
    } else if |values| == 1 {
      assert table == [table[0]] && table[0].Val?;
      assert TableElems(table, 0) == [table[0].v];
    } else {
      BuiltTableShape(table, |values|);
    }
  }

  /// The empty list as written: the root is not null, so `isEmpty()`
  /// answers false, yet the root holds no element. Its one slot is empty,
  /// which no table of a well-formed set has.
  lemma EmptyListAsWritten()
    ensures Elements(Compact([Empty])) == []
    ensures !WellFormed(Compact([Empty]))
  {
    assert TableElems([Empty], 0) == [];
  }

  /// One value `x` as written, then `add(y)` for a larger `y`. The one slot
  /// is in the last row, so `setRightValue` turns it into a nested node over
  /// `x` and `y`. `compact()` then walks the table with `forEach` as
  /// written. That walk hands the nested node object to the builder as a
  /// single item, while the tree holds two elements. Neither table is one
  /// the table node's constructor admits.
  lemma SingletonAddCompactAsWritten(x: int, y: int)
    requires x < y
    ensures var n := Simple(x, None, Some(Simple(y, None, None)));
      var t := NestLastRow([Val(x)], 0, Right, y);
      && !WellFormed(Compact([Val(x)])) && !WellFormed(Compact(t))
      && t == [Sub(n)]
      && TableElems(t, 0) == [x, y]
      && TableForEachAsWritten(t, 0) == [NodeObject(n)]
  {
    var n := Simple(x, None, Some(Simple(y, None, None)));
    var t := NestLastRow([Val(x)], 0, Right, y);
    assert t == [Sub(n)];
    assert WellFormed(n);
    assert Elements(n) == [x] + [y];
  }
}

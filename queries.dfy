/// The read-only recursive queries of `Node`: `size`, `toList` and `height`,
/// asked through the node interface (`hasLeftChild`, `getLeft`, `getValue`).
module Queries {
  import opened Nodes
  import opened Handles

  /// `size()`: SimpleBinaryNode counts its children, a compact node counts
  /// the table from its own position.
  function Size(h: Handle): (r: nat)
    requires HValid(h)
    ensures r == |HElements(h)|
  {
    match h
    case Linked(n) => NodeSizeCounts(n); NodeSize(n)
    case View(t, p) => SizePositionCounts(t, p); SizePosition(t, p)
  }

  /// `Node.toList(result)`: left subtree, own value, right subtree.
  function ToList(h: Handle): (r: seq<int>)
    requires HValid(h)
    ensures r == HElements(h)
    decreases |HElements(h)|
  {
    Split(h);
    (if HasChild(h, Left) then ToList(GetChild(h, Left)) else [])
    + [GetValue(h)]
    + (if HasChild(h, Right) then ToList(GetChild(h, Right)) else [])
  }

  function Pow2(k: nat): (r: nat)
    ensures r >= 1
  {
    if k == 0 then 1 else 2 * Pow2(k - 1)
  }

  lemma {:induction false} Pow2Monotone(a: nat, b: nat)
    requires a <= b
    ensures Pow2(a) <= Pow2(b)
    decreases b
  {
    if a < b {
      Pow2Monotone(a, b - 1);
    }
  }

  /// `height()`: one more than the taller child. A tree of height k holds
  /// between k and 2^k - 1 elements.
  function Height(h: Handle): (r: nat)
    requires HValid(h)
    ensures 1 <= r <= |HElements(h)| < Pow2(r)
    decreases |HElements(h)|
  {
    SplitSize(h);
    var l := if HasChild(h, Left) then Height(GetChild(h, Left)) else 0;
    var r := if HasChild(h, Right) then Height(GetChild(h, Right)) else 0;
    HeightStep(l, r, |ChildElems(h, Left)|, |ChildElems(h, Right)|);
    if l < r then 1 + r else 1 + l
  }

  lemma SplitSize(h: Handle)
    requires HValid(h)
    ensures |HElements(h)| == |ChildElems(h, Left)| + |ChildElems(h, Right)| + 1
  {
    Split(h);
  }

  /// Two subtrees of heights `l` and `r` holding `a` and `b` elements.
  lemma HeightStep(l: nat, r: nat, a: nat, b: nat)
    requires l <= a < Pow2(l) && r <= b < Pow2(r)
    ensures var m := if l < r then r else l;
      1 + m <= a + b + 1 < Pow2(1 + m)
  {
    var m := if l < r then r else l;
    Pow2Monotone(l, m);
    Pow2Monotone(r, m);
  }
}

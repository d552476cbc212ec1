/// The in-order sequence of the positions 0 .. n-1 of a complete binary tree
/// laid out in an array, and its decomposition around one position.
module Layout {
  import opened Positions

  /// In-order walk of the positions below `p` that are smaller than `n`.
  function InOrder(p: nat, n: nat): seq<nat>
    decreases n - p
  {
    if p >= n then [] else InOrder(LeftPosition(p), n) + [p] + InOrder(RightPosition(p), n)
  }

  /// Positions that the in-order walk of 0 .. n-1 visits before the subtree of `c`.
  function Prefix(c: nat, n: nat): seq<nat>
    decreases c
  {
    if c == 0 then []
    else
      var p := ParentPosition(c);
      ChildOfParent(c);
      if c % 2 == 1 then Prefix(p, n) else Prefix(p, n) + InOrder(LeftPosition(p), n) + [p]
  }

  /// Positions that the in-order walk of 0 .. n-1 visits after the subtree of `c`.
  function Suffix(c: nat, n: nat): seq<nat>
    decreases c
  {
    if c == 0 then []
    else
      var p := ParentPosition(c);
      ChildOfParent(c);
      if c % 2 == 1 then [p] + InOrder(RightPosition(p), n) + Suffix(p, n) else Suffix(p, n)
  }

  /// The positions of the walk below `p` are exactly the descendants of `p` below `n`.
  lemma {:induction false} InOrderMembers(p: nat, n: nat, x: nat)
    ensures x in InOrder(p, n) <==> x < n && IsDescendant(x, p)
    decreases n - p
  {
    if p < n {
      InOrderMembers(LeftPosition(p), n, x);
      InOrderMembers(RightPosition(p), n, x);
      if x in InOrder(LeftPosition(p), n) {
        DescendantOfChild(x, p, LeftPosition(p));
      }
      if x in InOrder(RightPosition(p), n) {
        DescendantOfChild(x, p, RightPosition(p));
      }
      if x < n && IsDescendant(x, p) && x != p {
        DescendantSplit(x, p);
      }
    }
  }

  lemma {:induction false} InOrderGrow(p: nat, n: nat)
    ensures |InOrder(p, n + 1)| == |InOrder(p, n)| + (if IsDescendant(n, p) then 1 else 0)
    decreases n + 1 - p
  {
    if p < n {
      InOrderGrow(LeftPosition(p), n);
      InOrderGrow(RightPosition(p), n);
      SubtreesDisjoint(n, p);
      if IsDescendant(n, p) {
        DescendantSplit(n, p);
      }
      if IsDescendant(n, LeftPosition(p)) {
        DescendantOfChild(n, p, LeftPosition(p));
      }
      if IsDescendant(n, RightPosition(p)) {
        DescendantOfChild(n, p, RightPosition(p));
      }
    } else if p == n {
      assert InOrder(p, n + 1) == [p];
    } else {
      assert !IsDescendant(n, p);
    }
  }

  /// The walk of 0 .. n-1 visits n positions.
  lemma {:induction false} InOrderLength(n: nat)
    ensures |InOrder(0, n)| == n
  {
    if n > 0 {
      InOrderLength(n - 1);
      InOrderGrow(0, n - 1);
      DescendantOfRoot(n - 1);
    }
  }

  /// The walk of 0 .. n-1 splits into the part before the subtree of `c`, the
  /// subtree of `c`, and the part after it.
  lemma {:induction false} Decompose(c: nat, n: nat)
    requires c < n
    ensures InOrder(0, n) == Prefix(c, n) + InOrder(c, n) + Suffix(c, n)
    decreases c
  {
    if c > 0 {
      var p := ParentPosition(c);
      ChildOfParent(c);
      Decompose(p, n);
      assert InOrder(p, n) == InOrder(LeftPosition(p), n) + [p] + InOrder(RightPosition(p), n);
    }
  }

  /// No descendant of `c` is visited before the subtree of `c`.
  lemma {:induction false} PrefixAvoidsSubtree(c: nat, n: nat, y: nat)
    requires IsDescendant(y, c)
    ensures y !in Prefix(c, n)
    decreases c
  {
    if c > 0 {
      var p := ParentPosition(c);
      ChildOfParent(c);
      DescendantOfChild(y, p, c);
      PrefixAvoidsSubtree(p, n, y);
      if c % 2 == 0 {
        InOrderMembers(LeftPosition(p), n, y);
        SubtreesDisjoint(y, p);
      }
    }
  }

  /// Descending to a left child does not change what comes before.
  lemma PrefixOfLeftChild(c: nat, n: nat)
    ensures Prefix(LeftPosition(c), n) == Prefix(c, n)
  {
    var l := LeftPosition(c);
    ParentOfChildren(c);
    assert l % 2 == 1 && l != 0;
  }

  lemma PrefixOfRightChild(c: nat, n: nat)
    ensures Prefix(RightPosition(c), n) == Prefix(c, n) + InOrder(LeftPosition(c), n) + [c]
  {
    var r := RightPosition(c);
    ParentOfChildren(c);
    assert r % 2 == 0 && r != 0;
  }
}

/// Position arithmetic of a complete binary tree stored in an array:
/// the children of position p sit at 2p+1 and 2p+2.
module Positions {

  /// Java's `/` on int truncates toward zero; Dafny's is Euclidean.
  function JavaDiv(a: int, b: int): int
    requires b > 0
  {
    if a >= 0 then a / b else -((-a) / b)
  }

  function LeftPosition(p: nat): nat { p * 2 + 1 }

  function RightPosition(p: nat): nat { p * 2 + 2 }

  /// `(position - 1) / 2` in Java: the root is its own parent.
  function ParentPosition(p: nat): nat
  {
    var r := JavaDiv(p - 1, 2);
    assert r >= 0;
    r
  }

  lemma ParentOfChildren(p: nat)
    ensures ParentPosition(LeftPosition(p)) == p
    ensures ParentPosition(RightPosition(p)) == p
    ensures ParentPosition(0) == 0
    ensures LeftPosition(p) > p && RightPosition(p) == LeftPosition(p) + 1
  {
  }

  /// Every position except the root is a child of its parent, and lies below it.
  lemma ChildOfParent(c: nat)
    requires c > 0
    ensures ParentPosition(c) < c
    ensures c == LeftPosition(ParentPosition(c)) <==> c % 2 == 1
    ensures c == RightPosition(ParentPosition(c)) <==> c % 2 == 0
  {
  }

  /// Left-biased median of the segment [start, start + segmentSize).
  function CalculateMidPoint(start: nat, segmentSize: nat): int
  {
    var midPoint := start + segmentSize / 2;
    if segmentSize % 2 == 0 && midPoint % 2 == 0 then midPoint - 1 else midPoint
  }

  /// The midpoint lies inside a non-empty segment and splits it into two
  /// parts whose sizes differ by at most one.
  lemma MidPointSplitsSegment(start: nat, segmentSize: nat)
    requires segmentSize >= 1
    ensures var m := CalculateMidPoint(start, segmentSize);
      start <= m < start + segmentSize
      && (m - start) - (start + segmentSize - 1 - m) <= 1
      && (start + segmentSize - 1 - m) - (m - start) <= 1
  {
  }

  /// `q` is `p` or lies in the subtree below `p`.
  predicate IsDescendant(q: nat, p: nat)
    decreases q
  {
    q == p || (q > p && IsDescendant(ParentPosition(q), p))
  }

  lemma {:induction false} DescendantOfChild(q: nat, p: nat, c: nat)
    requires c == LeftPosition(p) || c == RightPosition(p)
    requires IsDescendant(q, c)
    ensures IsDescendant(q, p)
    decreases q
  {
    if q != c {
      DescendantOfChild(ParentPosition(q), p, c);
    }
  }

  lemma {:induction false} DescendantTransitive(q: nat, m: nat, p: nat)
    requires IsDescendant(q, m) && IsDescendant(m, p)
    ensures IsDescendant(q, p)
    decreases q
  {
    if q != m {
      DescendantTransitive(ParentPosition(q), m, p);
    }
  }

  /// A proper descendant of `p` lies below exactly one of its children.
  lemma {:induction false} DescendantSplit(q: nat, p: nat)
    requires IsDescendant(q, p) && q != p
    ensures IsDescendant(q, LeftPosition(p)) || IsDescendant(q, RightPosition(p))
    decreases q
  {
    var pq := ParentPosition(q);
    if pq != p {
      DescendantSplit(pq, p);
    }
  }

  lemma {:induction false} SubtreesDisjoint(q: nat, p: nat)
    ensures !(IsDescendant(q, LeftPosition(p)) && IsDescendant(q, RightPosition(p)))
    decreases q
  {
    if IsDescendant(q, LeftPosition(p)) && IsDescendant(q, RightPosition(p)) {
      if q != LeftPosition(p) && q != RightPosition(p) {
        SubtreesDisjoint(ParentPosition(q), p);
      }
    }
  }

  lemma {:induction false} DescendantOfRoot(q: nat)
    ensures IsDescendant(q, 0)
    decreases q
  {
    if q > 0 {
      DescendantOfRoot(ParentPosition(q));
    }
  }
}

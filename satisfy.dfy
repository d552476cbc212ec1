/// The short-circuiting predicate walks of `Node`: `anySatisfy`,
/// `allSatisfy`, `noneSatisfy` and `detect`, each visiting the left
/// subtree, the node's own value and the right subtree in that order.
module Satisfy {
  import opened Wrappers
  import opened Nodes
  import opened Handles

  /// The first element of `s`, in order, that `p` accepts.
  function FirstSatisfying(s: seq<int>, p: int -> bool): (r: Option<int>)
  {
    if s == [] then None
    else if p(s[0]) then Some(s[0])
    else FirstSatisfying(s[1..], p)
  }

  /// `FirstSatisfying` finds an accepted element exactly when there is one,
  /// and every element before it is rejected.
  lemma {:induction false} FirstSatisfyingSpec(s: seq<int>, p: int -> bool)
    ensures FirstSatisfying(s, p).None? <==> forall x :: x in s ==> !p(x)
    ensures FirstSatisfying(s, p).Some? ==>
      exists i :: 0 <= i < |s| && s[i] == FirstSatisfying(s, p).value && p(s[i])
                  && forall j :: 0 <= j < i ==> !p(s[j])
  {
    if s != [] {
      FirstSatisfyingSpec(s[1..], p);
      assert s == [s[0]] + s[1..];
      assert forall x :: x in s <==> x == s[0] || x in s[1..];
      if p(s[0]) {
        assert s[0] in s;
      } else if FirstSatisfying(s, p).Some? {
        var i :| 0 < i + 1 <= |s[1..]| && s[1..][i] == FirstSatisfying(s, p).value && p(s[1..][i])
                  && forall j :: 0 <= j < i ==> !p(s[1..][j]);
        assert s[i + 1] == s[1..][i];
        assert s[i + 1] in s;
        forall j | 0 <= j < i + 1 ensures !p(s[j]) {
          if j > 0 { assert s[j] == s[1..][j - 1]; }
        }
      }
    }
  }

  /// The first accepted element of a concatenation comes from the first
  /// part when that part has one.
  lemma {:induction false} FirstSatisfyingConcat(a: seq<int>, b: seq<int>, p: int -> bool)
    ensures FirstSatisfying(a + b, p)
            == if FirstSatisfying(a, p).Some? then FirstSatisfying(a, p) else FirstSatisfying(b, p)
  {
    if a != [] {
      assert (a + b)[0] == a[0] && (a + b)[1..] == a[1..] + b;
      FirstSatisfyingConcat(a[1..], b, p);
    } else {
      assert a + b == b;
    }
  }

  /// `anySatisfy`: some stored element is accepted.
  function AnySatisfy(h: Handle, p: int -> bool): (r: bool)
    requires HValid(h)
    ensures r <==> exists x :: x in HElements(h) && p(x)
    decreases |HElements(h)|
  {
    Split(h);
    (HasChild(h, Left) && AnySatisfy(GetChild(h, Left), p))
    || p(GetValue(h))
    || (HasChild(h, Right) && AnySatisfy(GetChild(h, Right), p))
  }

  /// `allSatisfy`: every stored element is accepted.
  function AllSatisfy(h: Handle, p: int -> bool): (r: bool)
    requires HValid(h)
    ensures r <==> forall x :: x in HElements(h) ==> p(x)
    decreases |HElements(h)|
  {
    Split(h);
    if HasChild(h, Left) && !AllSatisfy(GetChild(h, Left), p) then false
    else if !p(GetValue(h)) then false
    else !(HasChild(h, Right) && !AllSatisfy(GetChild(h, Right), p))
  }

  /// `noneSatisfy`: no stored element is accepted.
  function NoneSatisfy(h: Handle, p: int -> bool): (r: bool)
    requires HValid(h)
    ensures r <==> forall x :: x in HElements(h) ==> !p(x)
    decreases |HElements(h)|
  {
    Split(h);
    if HasChild(h, Left) && !NoneSatisfy(GetChild(h, Left), p) then false
    else if p(GetValue(h)) then false
    else !(HasChild(h, Right) && !NoneSatisfy(GetChild(h, Right), p))
  }

  /// `detect`: the first stored element, in ascending order, that is accepted.
  function Detect(h: Handle, p: int -> bool): (r: Option<int>)
    requires HValid(h)
    ensures r == FirstSatisfying(HElements(h), p)
    decreases |HElements(h)|
  {
    Split(h);
    var l, v, rr := ChildElems(h, Left), GetValue(h), ChildElems(h, Right);
    FirstSatisfyingConcat(l, [v] + rr, p);
    assert l + [v] + rr == l + ([v] + rr);
    assert ([v] + rr)[1..] == rr;
    var left := if HasChild(h, Left) then Detect(GetChild(h, Left), p) else None;
    if left.Some? then left
    else if p(v) then Some(v)
    else if HasChild(h, Right) then Detect(GetChild(h, Right), p)
    else None
  }
}

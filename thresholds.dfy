/// The numeric thresholds of the tree: `power`, `minSizeForDepth`,
/// `maxDepthUsingLog` and the full-rebalance size.
///
/// Java computes them in `float`/`double`; here they are exact rationals,
/// and every `(int)` cast is written out with Java's saturation.
module Thresholds {
  import opened Wrappers

  const INT_MIN: int := -0x8000_0000
  const INT_MAX: int := 0x7fff_ffff

  predicate IsJavaInt(x: int)
  {
    INT_MIN <= x <= INT_MAX
  }

  /// Java's `int` subtraction, which wraps around.
  function WrapSub(a: int, b: int): (r: int)
    requires IsJavaInt(a) && IsJavaInt(b)
    ensures IsJavaInt(r) && (r - (a - b)) % 0x1_0000_0000 == 0
  {
    var d := a - b;
    if d < INT_MIN then d + 0x1_0000_0000
    else if d > INT_MAX then d - 0x1_0000_0000
    else d
  }

  /// Java's `int` addition, which wraps around.
  function WrapAdd(a: int, b: int): (r: int)
    requires IsJavaInt(a) && IsJavaInt(b)
    ensures IsJavaInt(r) && (r - (a + b)) % 0x1_0000_0000 == 0
    ensures IsJavaInt(a + b) ==> r == a + b
  {
    var s := a + b;
    if s < INT_MIN then s + 0x1_0000_0000
    else if s > INT_MAX then s - 0x1_0000_0000
    else s
  }

  /// `(int)` applied to a whole number held in a `double`: values beyond the
  /// `int` range saturate.
  function Saturate(x: int): (r: int)
    ensures IsJavaInt(r)
    ensures IsJavaInt(x) ==> r == x
    ensures x > INT_MAX ==> r == INT_MAX
    ensures x < INT_MIN ==> r == INT_MIN
  {
    if x > INT_MAX then INT_MAX else if x < INT_MIN then INT_MIN else x
  }

  /// `Math.ceil`: the least whole number not below `x`.
  function Ceil(x: real): (r: int)
    ensures x <= r as real < x + 1.0
  {
    -((-x).Floor)
  }

  function Pow(b: real, e: nat): real
  {
    if e == 0 then 1.0 else b * Pow(b, e - 1)
  }

  lemma {:induction false} PowAdd(b: real, x: nat, y: nat)
    ensures Pow(b, x + y) == Pow(b, x) * Pow(b, y)
    decreases x
  {
    if x > 0 {
      PowAdd(b, x - 1, y);
      calc {
        Pow(b, x + y);
        b * Pow(b, x - 1 + y);
        b * (Pow(b, x - 1) * Pow(b, y));
        (b * Pow(b, x - 1)) * Pow(b, y);
      }
    }
  }

  /// Squaring the base halves the exponent.
  lemma {:induction false} PowSquare(b: real, k: nat)
    ensures Pow(b * b, k) == Pow(b, 2 * k)
    decreases k
  {
    if k > 0 {
      PowSquare(b, k - 1);
      PowAdd(b, 2, 2 * (k - 1));
      assert Pow(b, 1) == b;
      assert Pow(b, 2) == b * b;
      assert 2 + 2 * (k - 1) == 2 * k;
      calc {
        Pow(b * b, k);
        (b * b) * Pow(b * b, k - 1);
        Pow(b, 2) * Pow(b, 2 * (k - 1));
      }
    }
  }

  /// One step of square-and-multiply: the low bit of the exponent is taken
  /// into the result, the rest goes to the squared base.
  lemma PowHalve(b: real, e: nat)
    ensures Pow(b, e) == (if e % 2 == 1 then b else 1.0) * Pow(b * b, e / 2)
  {
    PowSquare(b, e / 2);
    if e % 2 == 1 {
      assert e == 2 * (e / 2) + 1;
      PowAdd(b, 1, 2 * (e / 2));
    } else {
      assert e == 2 * (e / 2);
    }
  }

  /// `power(double, int)`: exponentiation by squaring; a negative exponent
  /// is an IllegalArgumentException carrying that exponent.
  method Power(initialBase: real, initialExponent: int) returns (r: Result<real, int>)
    ensures r.Err? <==> initialExponent < 0
    ensures r.Err? ==> r.error == initialExponent
    ensures r.Ok? ==> r.value == Pow(initialBase, initialExponent)
  {
    var base := initialBase;
    var exponent := initialExponent;
    if exponent < 0 {
      return Err(exponent);
    }
    var result := 1.0;
    while exponent != 0
      invariant exponent >= 0
      invariant result * Pow(base, exponent) == Pow(initialBase, initialExponent)
      decreases exponent
    {
      PowHalve(base, exponent);
      if exponent % 2 == 1 {
        result := result * base;
      }
      exponent := exponent / 2;
      base := base * base;
    }
    return Ok(result);
  }

  lemma {:induction false} PowAtLeastOne(b: real, e: nat)
    requires b >= 1.0
    ensures Pow(b, e) >= 1.0
    decreases e
  {
    if e > 0 {
      PowAtLeastOne(b, e - 1);
      assert b * Pow(b, e - 1) >= 1.0 * Pow(b, e - 1);
    }
  }

  lemma {:induction false} PowMonotone(b: real, x: nat, y: nat)
    requires b >= 1.0 && x <= y
    ensures Pow(b, x) <= Pow(b, y)
    decreases y - x
  {
    if x < y {
      PowMonotone(b, x, y - 1);
      PowAtLeastOne(b, y - 1);
      assert b * Pow(b, y - 1) >= 1.0 * Pow(b, y - 1);
    }
  }

  /// Bernoulli's inequality: powers of a base above one grow at least linearly.
  lemma {:induction false} Bernoulli(b: real, e: nat)
    requires b >= 1.0
    ensures Pow(b, e) >= 1.0 + (e as real) * (b - 1.0)
    decreases e
  {
    if e > 0 {
      Bernoulli(b, e - 1);
      var x := (e - 1) as real;
      var y := 1.0 + x * (b - 1.0);
      MulMono(y, Pow(b, e - 1), b);
      assert b * y == b + x * (b - 1.0) * b;
      MulMono(1.0, b, x * (b - 1.0));
      assert b + x * (b - 1.0) == 1.0 + (x + 1.0) * (b - 1.0);
      assert e as real == x + 1.0;
    }
  }

  lemma MulMono(a: real, c: real, k: real)
    requires a <= c && k >= 0.0
    ensures a * k <= c * k
  {
    assert c * k - a * k == (c - a) * k;
  }

  lemma MulMonoStrict(a: real, c: real, k: real)
    requires a < c && k > 0.0
    ensures a * k < c * k
  {
    assert c * k - a * k == (c - a) * k;
  }

  /// The exact value Java's `minSizeForDepth` computes: the ceiling of
  /// `(1 / balanceRatio)` to the power `maxDepth - 1`, or the exception
  /// `power` raises for a negative exponent.
  function MinSize(maxDepth: int, balanceRatio: real): Result<int, int>
    requires IsJavaInt(maxDepth) && balanceRatio != 0.0
  {
    var e := WrapSub(maxDepth, 1);
    if e < 0 then Err(e) else Ok(Saturate(Ceil(Pow(1.0 / balanceRatio, e))))
  }

  /// `minSizeForDepth(int, double)`.
  method MinSizeForDepth(maxDepth: int, balanceRatio: real) returns (r: Result<int, int>)
    requires IsJavaInt(maxDepth) && balanceRatio != 0.0
    ensures r == MinSize(maxDepth, balanceRatio)
  {
    var inverseBalanceRatio := 1.0 / balanceRatio;
    var p := Power(inverseBalanceRatio, WrapSub(maxDepth, 1));
    match p
    case Err(e) => r := Err(e);
    case Ok(x) => r := Ok(Saturate(Ceil(x)));
  }

  /// For a ratio in (0, 1] and a positive depth, the minimum size is the
  /// least whole number reaching `(1 / ratio)^(depth - 1)` (unless that
  /// exceeds `Integer.MAX_VALUE`), it is at least one, and depth 0 or less
  /// is refused, except `Integer.MIN_VALUE`, whose `maxDepth - 1` wraps
  /// around to `Integer.MAX_VALUE`.
  lemma MinSizeIsLeastReaching(maxDepth: int, balanceRatio: real)
    requires IsJavaInt(maxDepth) && 0.0 < balanceRatio <= 1.0
    ensures (maxDepth <= 0 && maxDepth != INT_MIN) <==> MinSize(maxDepth, balanceRatio).Err?
    ensures maxDepth >= 1 ==>
      var m := MinSize(maxDepth, balanceRatio).value;
      var p := Pow(1.0 / balanceRatio, maxDepth - 1);
      1 <= m && (m < INT_MAX ==> (m - 1) as real < p <= m as real)
  {
    if maxDepth >= 1 {
      assert 1.0 / balanceRatio >= 1.0;
      PowAtLeastOne(1.0 / balanceRatio, maxDepth - 1);
    }
  }

  /// A size that reaches `(1 / ratio)^depth` reaches the minimum size for
  /// a leaf at depth `depth + 1`.
  lemma MinSizeReachedBy(depth: nat, balanceRatio: real, size: nat)
    requires IsJavaInt(depth + 1) && 0.0 < balanceRatio <= 1.0
    requires Pow(1.0 / balanceRatio, depth) * 1.0 <= size as real
    ensures MinSize(depth + 1, balanceRatio).Ok? && MinSize(depth + 1, balanceRatio).value <= size
  {
    assert WrapSub(depth + 1, 1) == depth;
    assert 1.0 / balanceRatio >= 1.0;
    PowAtLeastOne(1.0 / balanceRatio, depth);
  }

  /// A deeper tree needs at least as many nodes.
  lemma MinSizeMonotone(d1: int, d2: int, balanceRatio: real)
    requires IsJavaInt(d1) && IsJavaInt(d2) && 1 <= d1 <= d2
    requires 0.0 < balanceRatio <= 1.0
    ensures MinSize(d1, balanceRatio).value <= MinSize(d2, balanceRatio).value
  {
    assert 1.0 / balanceRatio >= 1.0;
    PowMonotone(1.0 / balanceRatio, d1 - 1, d2 - 1);
  }

  /// The powers of `1 / 0.66` (that is, `50 / 33`) behind the larger
  /// unit-test expectations, as exact fractions.
  lemma InverseRatioPowers()
    ensures Pow(1.0 / 0.66, 9) == 1953125000000000.0 / 46411484401953.0
    ensures Pow(1.0 / 0.66, 19) == 190734863281250000000000000000000.0 / 71082854184959978396317068897.0
    ensures Pow(1.0 / 0.66, 29)
      == 18626451492309570312500000000000000000000000000000.0 / 108869005682301795684211705446369982097742753.0
  {
    var h := 1.0 / 0.66;
    assert h == 50.0 / 33.0;
    assert Pow(h, 4) == 6250000.0 / 1185921.0 by { PowAdd(h, 2, 2); }
    assert Pow(h, 5) == 312500000.0 / 39135393.0;
    assert Pow(h, 9) == 1953125000000000.0 / 46411484401953.0 by { PowAdd(h, 5, 4); }
    assert Pow(h, 10) == 97656250000000000.0 / 1531578985264449.0 by { PowAdd(h, 5, 5); }
    assert Pow(h, 19) == 190734863281250000000000000000000.0 / 71082854184959978396317068897.0
      by { PowAdd(h, 10, 9); }
    assert Pow(h, 20) == 9536743164062500000000000000000000.0 / 2345734188103679287078463273601.0
      by { PowAdd(h, 10, 10); }
    PowAdd(h, 20, 9);
  }

  /// The values the unit tests expect of `minSizeForDepth` for the ratios
  /// 0.5 and 1.0 and for depth 0.
  lemma MinSizeExamples()
    ensures MinSize(1, 0.5) == Ok(1) && MinSize(2, 0.5) == Ok(2) && MinSize(3, 0.5) == Ok(4)
    ensures MinSize(4, 0.5) == Ok(8) && MinSize(5, 0.5) == Ok(16) && MinSize(10, 0.5) == Ok(512)
    ensures MinSize(10, 1.0) == Ok(1)
    ensures MinSize(0, 0.66).Err?
  {
    assert Pow(1.0, 9) == 1.0 by { OnePow(9); }
  }

  /// The values the unit tests expect of `minSizeForDepth` for the ratio 0.66.
  lemma MinSizeExamplesTwoThirds()
    ensures MinSize(1, 0.66) == Ok(1) && MinSize(2, 0.66) == Ok(2) && MinSize(3, 0.66) == Ok(3)
    ensures MinSize(4, 0.66) == Ok(4) && MinSize(5, 0.66) == Ok(6) && MinSize(10, 0.66) == Ok(43)
    ensures MinSize(20, 0.66) == Ok(2684) && MinSize(30, 0.66) == Ok(171091)
  {
    InverseRatioPowers();
    var h := 1.0 / 0.66;
    assert Pow(h, 2) == h * h;
    assert Pow(h, 3) == h * (h * h);
    assert Pow(h, 4) == h * h * (h * h) by { PowAdd(h, 2, 2); }
  }

  lemma {:induction false} OnePow(e: nat)
    ensures Pow(1.0, e) == 1.0
    decreases e
  {
    if e > 0 { OnePow(e - 1); }
  }

  /// The largest `k` with `b^k <= n`, searched upwards from `j`.
  function FloorLog(b: real, n: int, j: nat): (k: nat)
    requires b > 1.0 && n >= 1 && Pow(b, j) <= n as real
    ensures j <= k && Pow(b, k) <= n as real < Pow(b, k + 1)
    decreases ((n as real - 1.0) / (b - 1.0)).Floor - j
  {
    if Pow(b, j + 1) > n as real then j
    else
      SearchBound(b, n, j + 1);
      FloorLog(b, n, j + 1)
  }

  /// A power of `b` that still fits below `n` bounds its exponent.
  lemma SearchBound(b: real, n: int, j: nat)
    requires b > 1.0 && n >= 1 && Pow(b, j) <= n as real
    ensures j <= ((n as real - 1.0) / (b - 1.0)).Floor
  {
    Bernoulli(b, j);
    DivBound(j as real, n as real - 1.0, b - 1.0);
  }

  /// Dividing both sides of `a * d <= c` by a positive `d`.
  lemma DivBound(a: real, c: real, d: real)
    requires d > 0.0 && a * d <= c
    ensures a <= c / d
  {
    var q := c / d;
    assert q * d == c;
    if a > q {
      MulMonoStrict(q, a, d);
    }
  }

  /// `(int) maxDepthUsingLog()`: the natural logarithm of the node count
  /// divided by `log(1 / balanceRatio)`, plus one, truncated. For a
  /// positive count that is one more than the whole part of the logarithm
  /// to base `1 / balanceRatio` (saturated at `Integer.MAX_VALUE`); `log(0)` is minus infinity and saturates
  /// to `Integer.MIN_VALUE`; the logarithm of a negative count is NaN,
  /// which the cast turns into 0.
  function MaxDepthUsingLog(nodeCount: int, balanceRatio: real): (r: int)
    requires 0.5 < balanceRatio < 1.0
    ensures IsJavaInt(r)
    ensures nodeCount == 0 ==> r == INT_MIN
    ensures nodeCount < 0 ==> r == 0
    ensures nodeCount >= 1 ==>
      var b := 1.0 / balanceRatio;
      1 <= r && (r < INT_MAX ==> Pow(b, r - 1) <= nodeCount as real < Pow(b, r))
  {
    if nodeCount < 0 then 0
    else if nodeCount == 0 then INT_MIN
    else
      var b := 1.0 / balanceRatio;
      assert Pow(b, 0) == 1.0;
      var k := FloorLog(b, nodeCount, 0);
      Saturate(k + 1)
  }

  /// `(int) Math.ceil(nodeCount / fullRebalanceRatioAdd)`. The ratio is not
  /// validated by the constructor: a zero ratio gives NaN (0) for an empty
  /// tree and infinity otherwise.
  function FullRebalanceSize(nodeCount: int, ratioAdd: real): (r: int)
    ensures IsJavaInt(r)
    ensures ratioAdd > 0.0 && nodeCount >= 0 ==>
      r >= 0 && (r < INT_MAX ==> (r as real) * ratioAdd >= nodeCount as real
                                 && ((r - 1) as real) * ratioAdd < nodeCount as real)
    ensures ratioAdd == 0.0 ==> (r == 0 <==> nodeCount == 0)
  {
    if ratioAdd == 0.0 then
      (if nodeCount == 0 then 0 else if nodeCount > 0 then INT_MAX else INT_MIN)
    else
      var q := nodeCount as real / ratioAdd;
      var c := Ceil(q);
      CeilScaled(nodeCount, ratioAdd, c);
      Saturate(c)
  }

  lemma CeilScaled(n: int, ratio: real, c: int)
    requires ratio != 0.0 && n as real / ratio <= c as real < n as real / ratio + 1.0
    ensures ratio > 0.0 && n >= 0 ==> c >= 0 && (c as real) * ratio >= n as real
                                      && ((c - 1) as real) * ratio < n as real
  {
    if ratio > 0.0 && n >= 0 {
      var q := n as real / ratio;
      assert q * ratio == n as real;
      assert (c as real) * ratio >= q * ratio;
      assert (c - 1) as real == c as real - 1.0;
      assert (c - 1) as real < q;
      MulMonoStrict((c - 1) as real, q, ratio);
      assert ((c - 1) as real) * ratio < n as real;
      assert q >= 0.0;
      assert c >= 0;
    }
  }
}

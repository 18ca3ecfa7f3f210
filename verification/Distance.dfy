/**
  Vectors, scored candidates and the distance kernels of internal/vector/distance.go.
  Components are reals: rounding of the arithmetic is not modelled, only the rounding done
  when a value is narrowed to its stored precision, which is an arbitrary idempotent function.
 */
module Distance {
  import opened Ordering

  type Vec = seq<real>

  type Id = string

  /** Stored vectors, keyed by id. */
  type Vectors = map<Id, Vec>

  datatype Option<+T> = None | Some(value: T)

  ghost predicate Idempotent(f: real -> real) {
    forall x :: f(f(x)) == f(x)
  }

  /** float32(x), read back as a float64. */
  type Narrowing = f: real -> real | Idempotent(f) witness (x: real) => x

  function ToFloat32(narrow: Narrowing, values: Vec): (r: Vec)
    ensures |r| == |values|
    ensures forall i | 0 <= i < |r| :: r[i] == narrow(values[i])
  {
    seq(|values|, i requires 0 <= i < |values| => narrow(values[i]))
  }

  lemma NarrowOnce(narrow: Narrowing, x: real)
    ensures narrow(narrow(x)) == narrow(x)
  {
    var f: real -> real := narrow;
    assert Idempotent(f);
  }

  /** Writing back a value that was read from a store does not change it. */
  lemma NarrowTwice(narrow: Narrowing, values: Vec)
    ensures ToFloat32(narrow, ToFloat32(narrow, values)) == ToFloat32(narrow, values)
  {
    var once := ToFloat32(narrow, values);
    var twice := ToFloat32(narrow, once);
    forall i | 0 <= i < |once|
      ensures twice[i] == once[i]
    {
      NarrowOnce(narrow, values[i]);
    }
  }

  datatype Scored<+I> = Scored(id: I, distance: real)

  predicate Closer<I>(a: Scored<I>, b: Scored<I>) {
    a.distance <= b.distance
  }

  lemma CloserIsPreorder<I(!new)>()
    ensures TotalPreorder<Scored<I>>(Closer)
  {
  }

  function Square(x: real): real {
    x * x
  }

  /** Squared Euclidean distance over the first n components. */
  function PartialDistance(a: Vec, b: Vec, n: nat): real
    requires n <= |a| && n <= |b|
  {
    if n == 0 then 0.0 else PartialDistance(a, b, n - 1) + Square(a[n - 1] - b[n - 1])
  }

  function SquaredDistance(a: Vec, b: Vec): real
    requires |a| <= |b|
  {
    PartialDistance(a, b, |a|)
  }

  /** The distance of two numbers is the square of their difference ... */
  lemma DistanceOfOne(x: real, y: real)
    ensures SquaredDistance([x], [y]) == (x - y) * (x - y)
  {
    assert PartialDistance([x], [y], 1) == PartialDistance([x], [y], 0) + Square(x - y);
  }

  lemma {:induction false} PartialOfFirst(a: Vec, b: Vec, c: Vec, d: Vec, n: nat)
    requires n <= |a| == |b|
    ensures PartialDistance(a + c, b + d, n) == PartialDistance(a, b, n)
  {
    if n > 0 {
      PartialOfFirst(a, b, c, d, n - 1);
    }
  }

  lemma {:induction false} PartialOfBoth(a: Vec, b: Vec, c: Vec, d: Vec, n: nat)
    requires |a| == |b| && n <= |c| <= |d|
    ensures PartialDistance(a + c, b + d, |a| + n) == PartialDistance(a, b, |a|) + PartialDistance(c, d, n)
  {
    if n > 0 {
      PartialOfBoth(a, b, c, d, n - 1);
    } else {
      PartialOfFirst(a, b, c, d, |a|);
    }
  }

  /** ... and distances add over components, so a distance is the sum of those squares. */
  lemma DistanceAdds(a: Vec, b: Vec, c: Vec, d: Vec)
    requires |a| == |b| && |c| <= |d|
    ensures SquaredDistance(a + c, b + d) == SquaredDistance(a, b) + SquaredDistance(c, d)
    ensures SquaredDistance([], d) == 0.0
  {
    PartialOfBoth(a, b, c, d, |c|);
  }

  /** It is symmetric, ... */
  lemma {:induction false} DistanceIsSymmetric(a: Vec, b: Vec)
    requires |a| == |b|
    ensures SquaredDistance(a, b) == SquaredDistance(b, a)
  {
    if a != [] {
      var n := |a| - 1;
      var d := a[n] - b[n];
      DistanceIsSymmetric(a[..n], b[..n]);
      LastApart(a, b, d);
      LastApart(b, a, -d);
      NegatedSquare(d);
    }
  }

  /** ... never negative, and zero exactly between equal vectors. */
  lemma {:induction false} DistanceSeparates(a: Vec, b: Vec)
    requires |a| == |b|
    ensures SquaredDistance(a, b) >= 0.0 && (SquaredDistance(a, b) == 0.0 <==> a == b)
  {
    if a != [] {
      var n := |a| - 1;
      DistanceSeparates(a[..n], b[..n]);
      assert a == a[..n] + [a[n]] && b == b[..n] + [b[n]];
      if a[n] == b[n] {
        LastApart(a, b, 0.0);
      } else {
        LastAddsMore(a, b);
      }
    }
  }

  lemma LastAddsMore(a: Vec, b: Vec)
    requires 0 < |a| == |b| && a[|a| - 1] != b[|b| - 1]
    ensures SquaredDistance(a, b) > SquaredDistance(a[..|a| - 1], b[..|b| - 1])
  {
    var d := a[|a| - 1] - b[|b| - 1];
    LastApart(a, b, d);
    MoreIsGreater(SquaredDistance(a, b), SquaredDistance(a[..|a| - 1], b[..|b| - 1]), d);
  }

  lemma MoreIsGreater(total: real, sum: real, d: real)
    requires d != 0.0 && total == sum + d * d
    ensures total > sum
  {
    if d > 0.0 {
      ProductIsPositive(d, d, total - sum);
    } else {
      NegativesProduct(d, d, total - sum);
    }
  }

  /** Scaling both vectors by c scales it by the square of c. */
  lemma {:induction false} DistanceScales(c: real, a: Vec, b: Vec, ca: Vec, cb: Vec)
    requires |a| == |b| == |ca| == |cb| && forall i | 0 <= i < |a| :: ca[i] == c * a[i] && cb[i] == c * b[i]
    ensures SquaredDistance(ca, cb) == c * c * SquaredDistance(a, b)
  {
    if a != [] {
      var n := |a| - 1;
      var d := a[n] - b[n];
      DistanceScales(c, a[..n], b[..n], ca[..n], cb[..n]);
      DifferenceScales(c, a[n], b[n]);
      LastApart(a, b, d);
      LastApart(ca, cb, c * d);
      SumScales(c, SquaredDistance(a[..n], b[..n]), d, SquaredDistance(a, b));
    }
  }

  lemma LastApart(a: Vec, b: Vec, d: real)
    requires 0 < |a| == |b| && d == a[|a| - 1] - b[|b| - 1]
    ensures SquaredDistance(a, b) == SquaredDistance(a[..|a| - 1], b[..|b| - 1]) + d * d
  {
    var n := |a| - 1;
    assert a == a[..n] + [a[n]] && b == b[..n] + [b[n]];
    DistanceAdds(a[..n], b[..n], [a[n]], [b[n]]);
    DistanceOfOne(a[n], b[n]);
  }

  lemma SumScales(c: real, sum: real, d: real, total: real)
    requires total == sum + d * d
    ensures c * c * sum + (c * d) * (c * d) == c * c * total
  {
    var e, s := c * c, d * d;
    assert (c * d) * (c * d) == e * s;
    assert e * (sum + s) == e * sum + e * s;
  }

  lemma DifferenceScales(c: real, x: real, y: real)
    ensures c * x - c * y == c * (x - y)
  {
  }

  lemma ProductIsPositive(x: real, y: real, z: real)
    requires x > 0.0 && y > 0.0 && z == x * y
    ensures z > 0.0
  {
  }

  lemma NegatedSquare(d: real)
    ensures (-d) * (-d) == d * d
  {
  }

  lemma NegativesProduct(x: real, y: real, z: real)
    requires x < 0.0 && y < 0.0 && z == x * y
    ensures z > 0.0
  {
  }

  lemma FourMore(a: Vec, b: Vec, i: nat)
    requires i + 4 <= |a| && i + 4 <= |b|
    ensures PartialDistance(a, b, i + 4) == PartialDistance(a, b, i)
      + (Square(a[i] - b[i]) + Square(a[i + 1] - b[i + 1]) + Square(a[i + 2] - b[i + 2]) + Square(a[i + 3] - b[i + 3]))
  {
    assert PartialDistance(a, b, i + 2) == PartialDistance(a, b, i) + Square(a[i] - b[i]) + Square(a[i + 1] - b[i + 1]);
  }

  /** Four components in one turn of a kernel's loop. */
  method AddFour(sum: real, a: Vec, b: Vec, i: nat) returns (r: real)
    requires i + 4 <= |a| && i + 4 <= |b| && sum == PartialDistance(a, b, i)
    ensures r == PartialDistance(a, b, i + 4)
  {
    FourMore(a, b, i);
    r := sum + (Square(a[i] - b[i]) + Square(a[i + 1] - b[i + 1]) + Square(a[i + 2] - b[i + 2]) + Square(a[i + 3] - b[i + 3]));
  }

  /** One component in one turn of a kernel's tail. */
  method AddOne(sum: real, a: Vec, b: Vec, i: nat) returns (r: real)
    requires i < |a| && i < |b| && sum == PartialDistance(a, b, i)
    ensures r == PartialDistance(a, b, i + 1)
  {
    r := sum + Square(a[i] - b[i]);
  }

  method SquaredEuclideanDistance32SameLen(a: Vec, b: Vec) returns (sum: real)
    requires |a| <= |b|
    ensures sum == SquaredDistance(a, b)
  {
    sum := 0.0;
    var i := 0;
    var limit := |a| - |a| % 4;
    ghost var turns := 0;
    while i < limit
      invariant i <= limit && i == 4 * turns
      invariant sum == PartialDistance(a, b, i)
    {
      sum := AddFour(sum, a, b, i);
      i, turns := i + 4, turns + 1;
    }
    while i < |a|
      invariant i <= |a|
      invariant sum == PartialDistance(a, b, i)
    {
      sum := AddOne(sum, a, b, i);
      i := i + 1;
    }
  }

  /** None stands for NaN, the answer for vectors of different dimensions. */
  method SquaredEuclideanDistance32(a: Vec, b: Vec) returns (d: Option<real>)
    ensures d == if |a| == |b| then Some(SquaredDistance(a, b)) else None
  {
    if |a| != |b| {
      return None;
    }
    var sum := SquaredEuclideanDistance32SameLen(a, b);
    d := Some(sum);
  }

  /** The loop of the four-query kernel, as far as it goes. */
  method AddTurns(a0: Vec, a1: Vec, a2: Vec, a3: Vec, b: Vec, limit: nat)
    returns (sum0: real, sum1: real, sum2: real, sum3: real)
    requires |a0| == |a1| == |a2| == |a3| == |b| && limit <= |b| && limit % 4 == 0
    ensures sum0 == PartialDistance(a0, b, limit) && sum1 == PartialDistance(a1, b, limit)
    ensures sum2 == PartialDistance(a2, b, limit) && sum3 == PartialDistance(a3, b, limit)
  {
    sum0, sum1, sum2, sum3 := 0.0, 0.0, 0.0, 0.0;
    var i := 0;
    ghost var turns := 0;
    while i < limit
      invariant i <= limit && i == 4 * turns
      invariant sum0 == PartialDistance(a0, b, i) && sum1 == PartialDistance(a1, b, i)
      invariant sum2 == PartialDistance(a2, b, i) && sum3 == PartialDistance(a3, b, i)
    {
      sum0 := AddFour(sum0, a0, b, i);
      sum1 := AddFour(sum1, a1, b, i);
      sum2 := AddFour(sum2, a2, b, i);
      sum3 := AddFour(sum3, a3, b, i);
      i, turns := i + 4, turns + 1;
    }
  }

  method SquaredEuclideanDistance32x4SameLen(a0: Vec, a1: Vec, a2: Vec, a3: Vec, b: Vec)
    returns (sum0: real, sum1: real, sum2: real, sum3: real)
    requires |a0| == |a1| == |a2| == |a3| == |b|
    ensures sum0 == SquaredDistance(a0, b) && sum1 == SquaredDistance(a1, b)
    ensures sum2 == SquaredDistance(a2, b) && sum3 == SquaredDistance(a3, b)
  {
    var i: nat := |b| - |b| % 4;
    sum0, sum1, sum2, sum3 := AddTurns(a0, a1, a2, a3, b, i);
    while i < |b|
      invariant i <= |b|
      invariant sum0 == PartialDistance(a0, b, i) && sum1 == PartialDistance(a1, b, i)
      invariant sum2 == PartialDistance(a2, b, i) && sum3 == PartialDistance(a3, b, i)
    {
      sum0 := AddOne(sum0, a0, b, i);
      sum1 := AddOne(sum1, a1, b, i);
      sum2 := AddOne(sum2, a2, b, i);
      sum3 := AddOne(sum3, a3, b, i);
      i := i + 1;
    }
  }
}

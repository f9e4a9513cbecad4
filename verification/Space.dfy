/** Straight-line distances between node positions.  The program compares distances with each other, with
    a range, with 0 and with -1; squaring keeps these comparisons. */
module Space {

  datatype Vector = Vector(x: real, y: real, z: real)

  function SquaredDistance(a: Vector, b: Vector): real {
    var dx, dy, dz := a.x - b.x, a.y - b.y, a.z - b.z;
    dx * dx + dy * dy + dz * dz
  }

  /** At most `range` apart. */
  predicate Within(a: Vector, b: Vector, range: real) {
    SquaredDistance(a, b) <= range * range
  }

  lemma SquareIsNotNegative(x: real)
    ensures x * x >= 0.0
  {
  }

  lemma SquareIsZero(x: real)
    ensures x * x == 0.0 <==> x == 0.0
  {
    if x != 0.0 {
      assert x * x / x == x;
    }
  }

  lemma DistanceIsNotNegative(a: Vector, b: Vector)
    ensures SquaredDistance(a, b) >= 0.0
  {
    SquareIsNotNegative(a.x - b.x);
    SquareIsNotNegative(a.y - b.y);
    SquareIsNotNegative(a.z - b.z);
  }

  lemma OnlyToItself(a: Vector, b: Vector)
    ensures SquaredDistance(a, b) == 0.0 <==> a == b
  {
    SquareIsNotNegative(a.x - b.x);
    SquareIsNotNegative(a.y - b.y);
    SquareIsNotNegative(a.z - b.z);
    SquareIsZero(a.x - b.x);
    SquareIsZero(a.y - b.y);
    SquareIsZero(a.z - b.z);
  }

  lemma SquareGrows(x: real, r: real)
    requires x > r >= 0.0
    ensures x * x > r * r
  {
    var d := x - r;
    assert x * x == r * r + d * (x + r);
    assert d * (x + r) > 0.0;
  }

  lemma SquareOrder(x: real, r: real)
    requires r >= 0.0
    ensures x * x <= r * r <==> -r <= x <= r
  {
    var y := if x >= 0.0 then x else -x;
    assert y * y == x * x;
    if y > r {
      SquareGrows(y, r);
    } else if r > y {
      SquareGrows(r, y);
    }
  }

  /** Along any one axis, being within range is being at most that far apart. */
  lemma AlongAnAxis(a: Vector, b: Vector, range: real)
    requires range >= 0.0
    ensures a.y == b.y && a.z == b.z ==> (Within(a, b, range) <==> -range <= a.x - b.x <= range)
    ensures a.x == b.x && a.z == b.z ==> (Within(a, b, range) <==> -range <= a.y - b.y <= range)
    ensures a.x == b.x && a.y == b.y ==> (Within(a, b, range) <==> -range <= a.z - b.z <= range)
  {
    SquareOrder(a.x - b.x, range);
    SquareOrder(a.y - b.y, range);
    SquareOrder(a.z - b.z, range);
  }

  /** Legs along the three axes have squares that add up. */
  lemma LegsAddUp(a: Vector, b: Vector)
    ensures var u := Vector(b.x, a.y, a.z); var v := Vector(b.x, b.y, a.z);
            SquaredDistance(a, b) == SquaredDistance(a, u) + SquaredDistance(u, v) + SquaredDistance(v, b)
  {
  }

  function Dot(a: Vector, b: Vector): real {
    a.x * b.x + a.y * b.y + a.z * b.z
  }

  function Minus(a: Vector, b: Vector): Vector {
    Vector(a.x - b.x, a.y - b.y, a.z - b.z)
  }

  lemma DistanceIsDot(a: Vector, b: Vector)
    ensures SquaredDistance(a, b) == Dot(Minus(a, b), Minus(a, b))
  {
  }

  lemma SquareOfSum(p: real, q: real)
    ensures (p + q) * (p + q) == p * p + 2.0 * (p * q) + q * q
  {
  }

  lemma DotOfSum(u: Vector, v: Vector, w: Vector)
    requires w == Vector(u.x + v.x, u.y + v.y, u.z + v.z)
    ensures Dot(w, w) == Dot(u, u) + 2.0 * Dot(u, v) + Dot(v, v)
  {
    SquareOfSum(u.x, v.x);
    SquareOfSum(u.y, v.y);
    SquareOfSum(u.z, v.z);
  }

  lemma CrossTerm(a: real, b: real, c: real, d: real)
    ensures 2.0 * ((a * b) * (c * d)) <= (a * d) * (a * d) + (c * b) * (c * b)
  {
    var p, q := a * d, c * b;
    assert (p - q) * (p - q) >= 0.0;
    assert (p - q) * (p - q) == p * p - 2.0 * (p * q) + q * q;
    assert p * q == (a * b) * (c * d) by { Regroup(a, b, c, d); }
  }

  lemma Regroup(a: real, b: real, c: real, d: real)
    ensures (a * d) * (c * b) == (a * b) * (c * d)
  {
    assert (a * d) * (c * b) == a * (d * (c * b)) == a * (b * (c * d));
  }

  lemma SquareOfProduct(a: real, b: real)
    ensures (a * b) * (a * b) == (a * a) * (b * b)
  {
    assert (a * b) * (a * b) == a * (b * (a * b)) == a * (a * (b * b));
  }

  lemma ThreeByThree(p: real, q: real, r: real, s: real, t: real, w: real)
    ensures (p + q + r) * (s + t + w) == p * s + p * t + p * w + q * s + q * t + q * w + r * s + r * t + r * w
  {
  }

  /** The inequality of Cauchy and Schwarz. */
  lemma DotBound(u: Vector, v: Vector)
    ensures Dot(u, v) * Dot(u, v) <= Dot(u, u) * Dot(v, v)
  {
    var p, q, r := u.x * v.x, u.y * v.y, u.z * v.z;
    ThreeByThree(p, q, r, p, q, r);
    ThreeByThree(u.x * u.x, u.y * u.y, u.z * u.z, v.x * v.x, v.y * v.y, v.z * v.z);
    SquareOfProduct(u.x, v.x);
    SquareOfProduct(u.y, v.y);
    SquareOfProduct(u.z, v.z);
    Crossed(u.x, v.x, u.y, v.y);
    Crossed(u.x, v.x, u.z, v.z);
    Crossed(u.y, v.y, u.z, v.z);
  }

  lemma Crossed(a: real, b: real, c: real, d: real)
    ensures (a * b) * (c * d) + (c * d) * (a * b) <= (a * a) * (d * d) + (c * c) * (b * b)
  {
    CrossTerm(a, b, c, d);
    SquareOfProduct(a, d);
    SquareOfProduct(c, b);
  }

  lemma MulOrder(a: real, b: real, c: real, d: real)
    requires 0.0 <= a <= c && 0.0 <= b <= d
    ensures a * b <= c * d
  {
    assert a * b <= c * b <= c * d;
  }

  /** Ranges add up: what is within `r` of something within `s` is within `r + s`. */
  lemma RangesAddUp(a: Vector, b: Vector, c: Vector, r: real, s: real)
    requires r >= 0.0 && s >= 0.0 && Within(a, b, r) && Within(b, c, s)
    ensures Within(a, c, r + s)
  {
    hide Dot, Minus, SquaredDistance;
    var u, v, w := Minus(a, b), Minus(b, c), Minus(a, c);
    DistanceIsDot(a, b);
    DistanceIsDot(b, c);
    DistanceIsDot(a, c);
    MinusAdds(a, b, c);
    DotOfSum(u, v, w);
    DotBound(u, v);
    DistanceIsNotNegative(a, b);
    DistanceIsNotNegative(b, c);
    MulOrder(Dot(u, u), Dot(v, v), r * r, s * s);
    SquareOfProduct(r, s);
    assert r * s >= 0.0;
    SquareOrder(Dot(u, v), r * s);
    SquareOfSum(r, s);
  }

  lemma MinusAdds(a: Vector, b: Vector, c: Vector)
    ensures var u, v := Minus(a, b), Minus(b, c); Minus(a, c) == Vector(u.x + v.x, u.y + v.y, u.z + v.z)
  {
  }
}

/** Two-dimensional real vectors and the `normalize` utility. */
module Vector {

  import Reals

  datatype Vec2 = Vec2(x: real, y: real)

  const Zero: Vec2 := Vec2(0.0, 0.0)

  function Add(a: Vec2, b: Vec2): Vec2 {
    Vec2(a.x + b.x, a.y + b.y)
  }

  function Sub(a: Vec2, b: Vec2): Vec2 {
    Vec2(a.x - b.x, a.y - b.y)
  }

  function Scale(k: real, v: Vec2): Vec2 {
    Vec2(k * v.x, k * v.y)
  }

  function Dot(a: Vec2, b: Vec2): real {
    a.x * b.x + a.y * b.y
  }

  /** The z-component of the 3D cross product: zero iff `a` and `b` are parallel. */
  function Cross(a: Vec2, b: Vec2): real {
    a.x * b.y - a.y * b.x
  }

  function NormSq(v: Vec2): real {
    Dot(v, v)
  }

  /** Squared Euclidean distance between two points. */
  function DistSq(a: Vec2, b: Vec2): real {
    NormSq(Sub(a, b))
  }

  /** `len` is the Euclidean length of `v`: what `std::sqrt(v.x * v.x + v.y * v.y)` computes. */
  predicate IsLength(len: real, v: Vec2) {
    len >= 0.0 && len * len == NormSq(v)
  }

  /** The quarter-turn `(-v.y, v.x)` used to build the initial tangent. */
  function Perp(v: Vec2): Vec2 {
    Vec2(-v.y, v.x)
  }

  /**
   * The quarter-turn is perpendicular to `v`, as long as `v`, and turns from
   * `v` in the positive sense.
   */
  lemma PerpFacts(v: Vec2)
    ensures Dot(Perp(v), v) == 0.0
    ensures NormSq(Perp(v)) == NormSq(v)
    ensures Cross(v, Perp(v)) == NormSq(v)
  {
  }

  /**
   * `normalize(v)`: divide by the length when it is non-zero, otherwise
   * return `v` itself. The length is the value the caller's square root produced.
   */
  function Normalize(v: Vec2, len: real): (r: Vec2)
    ensures len == 0.0 ==> r == v
    ensures v == Zero ==> r == Zero
  {
    if len != 0.0 then Vec2(v.x / len, v.y / len) else v
  }

  /** The difference of two points is zero exactly when they coincide. */
  lemma SubZero(a: Vec2, b: Vec2)
    ensures Sub(a, b) == Zero <==> a == b
  {
  }

  /** Only the zero vector has squared length zero. */
  lemma NormSqZero(v: Vec2)
    ensures NormSq(v) == 0.0 <==> v == Zero
  {
    Reals.SumOfSquaresZero(v.x, v.y);
  }

  /** A length is zero exactly for the zero vector. */
  lemma LengthZero(len: real, v: Vec2)
    requires IsLength(len, v)
    ensures len == 0.0 <==> v == Zero
  {
    NormSqZero(v);
    Reals.RootZero(len, NormSq(v));
  }

  /**
   * Normalizing a non-zero vector yields a unit vector pointing the same way:
   * parallel to `v` and with a positive dot product with it.
   */
  lemma NormalizeUnit(v: Vec2, len: real)
    requires IsLength(len, v) && v != Zero
    ensures NormSq(Normalize(v, len)) == 1.0
    ensures Cross(Normalize(v, len), v) == 0.0
    ensures Dot(Normalize(v, len), v) == len > 0.0
  {
    LengthZero(len, v);
    var r := Normalize(v, len);
    var k := 1.0 / len;
    assert r == Scale(k, v);
    ScaleProducts(k, v, v);
    assert k * len == 1.0;
    assert Dot(r, v) == k * (len * len);
    assert Dot(r, v) == len;
    assert NormSq(r) == k * k * (len * len);
    assert NormSq(r) == (k * len) * (k * len);
    assert Cross(v, r) == k * Cross(v, v);
  }

  /**
   * A positive multiple of the normalized non-zero vector `v` has squared
   * length `m * m` and points along `v`.
   */
  lemma ScaledUnit(v: Vec2, len: real, m: real)
    requires IsLength(len, v) && v != Zero && m > 0.0
    ensures Cross(Scale(m, Normalize(v, len)), v) == 0.0
    ensures Dot(Scale(m, Normalize(v, len)), v) > 0.0
    ensures NormSq(Scale(m, Normalize(v, len))) == m * m
  {
  }

  /** Scaling by a factor scales every dot and cross product by that factor. */
  lemma ScaleProducts(k: real, a: Vec2, b: Vec2)
    ensures Dot(Scale(k, a), b) == k * Dot(a, b)
    ensures Cross(b, Scale(k, a)) == k * Cross(b, a)
    ensures NormSq(Scale(k, a)) == k * k * NormSq(a)
  {
  }
}

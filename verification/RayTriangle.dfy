/** Moller-Trumbore ray-triangle intersection, over the reals. */
module RayTriangle {

  datatype Vec3 = Vec3(x: real, y: real, z: real)
  datatype Ray = Ray(orig: Vec3, dir: Vec3)
  datatype Tri = Tri(v0: Vec3, v1: Vec3, v2: Vec3)

  const EPSILON := 0.0000001

  function Sub(a: Vec3, b: Vec3): Vec3 {
    Vec3(a.x - b.x, a.y - b.y, a.z - b.z)
  }

  function Cross(a: Vec3, b: Vec3): Vec3 {
    Vec3(a.y * b.z - a.z * b.y, a.z * b.x - a.x * b.z, a.x * b.y - a.y * b.x)
  }

  function Dot(a: Vec3, b: Vec3): real {
    a.x * b.x + a.y * b.y + a.z * b.z
  }

  function Add(a: Vec3, b: Vec3): Vec3 {
    Vec3(a.x + b.x, a.y + b.y, a.z + b.z)
  }

  function Scale(c: real, a: Vec3): Vec3 {
    Vec3(c * a.x, c * a.y, c * a.z)
  }

  /** The determinant that the program tests: edge one against direction cross edge two. */
  function Det(r: Ray, t: Tri): real {
    Dot(Sub(t.v1, t.v0), Cross(r.dir, Sub(t.v2, t.v0)))
  }

  /** ray_tri_intersect. */
  function Intersect(r: Ray, t: Tri): int {
    var e1 := Sub(t.v1, t.v0);
    var e2 := Sub(t.v2, t.v0);
    var h := Cross(r.dir, e2);
    var a := Dot(e1, h);
    if -EPSILON < a < EPSILON then 0 else
    var f := 1.0 / a;
    var s := Sub(r.orig, t.v0);
    var u := f * Dot(s, h);
    if u < 0.0 || u > 1.0 then 0 else
    var q := Cross(s, e1);
    var v := f * Dot(r.dir, q);
    if v < 0.0 || u + v > 1.0 then 0 else
    var td := f * Dot(e2, q);
    if td > EPSILON then 1 else 0
  }

  /** The point at parameter d of the ray is the point of the triangle's plane with
      coordinates u and v along its edges. */
  predicate Meets(r: Ray, t: Tri, u: real, v: real, d: real) {
    Add(r.orig, Scale(d, r.dir)) ==
    Add(t.v0, Add(Scale(u, Sub(t.v1, t.v0)), Scale(v, Sub(t.v2, t.v0))))
  }

  /** The same, coordinate by coordinate. */
  lemma MeetsInCoordinates(r: Ray, t: Tri, u: real, v: real, d: real)
    ensures Meets(r, t, u, v, d) <==>
      && r.orig.x + d * r.dir.x == t.v0.x + (u * (t.v1.x - t.v0.x) + v * (t.v2.x - t.v0.x))
      && r.orig.y + d * r.dir.y == t.v0.y + (u * (t.v1.y - t.v0.y) + v * (t.v2.y - t.v0.y))
      && r.orig.z + d * r.dir.z == t.v0.z + (u * (t.v1.z - t.v0.z) + v * (t.v2.z - t.v0.z))
  {
  }

  /** The ray meets the triangle itself, in front of its origin. */
  predicate Hits(r: Ray, t: Tri, u: real, v: real, d: real) {
    Inside(u, v, d) && Meets(r, t, u, v, d)
  }

  // ---------------------------------------------------------------- vector identities

  lemma DotLinear(a: Vec3, b: Vec3, c: Vec3, u: real)
    ensures Dot(Add(a, b), c) == Dot(a, c) + Dot(b, c)
    ensures Dot(Scale(u, a), c) == u * Dot(a, c)
  {
  }

  lemma DotCommutes(a: Vec3, b: Vec3)
    ensures Dot(a, b) == Dot(b, a)
  {
  }

  lemma CrossAntiCommutes(a: Vec3, b: Vec3)
    ensures Cross(a, b) == Scale(-1.0, Cross(b, a))
  {
  }

  /** a x (b x c) = b (a . c) - c (a . b). */
  lemma TripleCross(a: Vec3, b: Vec3, c: Vec3)
    ensures Cross(a, Cross(b, c)) == Sub(Scale(Dot(a, c), b), Scale(Dot(a, b), c))
  {
    hide Cross, Dot, Sub, Scale;
    TripleCrossX(a, b, c);
    TripleCrossY(a, b, c);
    TripleCrossZ(a, b, c);
  }

  lemma TripleCrossX(a: Vec3, b: Vec3, c: Vec3)
    ensures Cross(a, Cross(b, c)).x == Sub(Scale(Dot(a, c), b), Scale(Dot(a, b), c)).x
  {
    var t, ac, ab := Cross(b, c), Dot(a, c), Dot(a, b);
    TripleCrossComponent(a.x, a.y, a.z, b.x, b.y, b.z, c.x, c.y, c.z, t.y, t.z, ac, ab);
  }

  lemma TripleCrossY(a: Vec3, b: Vec3, c: Vec3)
    ensures Cross(a, Cross(b, c)).y == Sub(Scale(Dot(a, c), b), Scale(Dot(a, b), c)).y
  {
    var t, ac, ab := Cross(b, c), Dot(a, c), Dot(a, b);
    TripleCrossComponent(a.y, a.z, a.x, b.y, b.z, b.x, c.y, c.z, c.x, t.z, t.x, ac, ab);
  }

  lemma TripleCrossZ(a: Vec3, b: Vec3, c: Vec3)
    ensures Cross(a, Cross(b, c)).z == Sub(Scale(Dot(a, c), b), Scale(Dot(a, b), c)).z
  {
    var t, ac, ab := Cross(b, c), Dot(a, c), Dot(a, b);
    TripleCrossComponent(a.z, a.x, a.y, b.z, b.x, b.y, c.z, c.x, c.y, t.x, t.y, ac, ab);
  }

  lemma TripleCrossComponent(
    a0: real, a1: real, a2: real, b0: real, b1: real, b2: real, c0: real, c1: real, c2: real,
    t1: real, t2: real, ac: real, ab: real)
    requires t1 == b2 * c0 - b0 * c2 && t2 == b0 * c1 - b1 * c0
    requires ac == a0 * c0 + a1 * c1 + a2 * c2 && ab == a0 * b0 + a1 * b1 + a2 * b2
    ensures a1 * t2 - a2 * t1 == ac * b0 - ab * c0
  {
    Distribute(a1, t2, b0 * c1, -(b1 * c0), 0.0);
    Distribute(a2, t1, b2 * c0, -(b0 * c2), 0.0);
    Distribute(b0, ac, a0 * c0, a1 * c1, a2 * c2);
    Distribute(c0, ab, a0 * b0, a1 * b1, a2 * b2);
  }

  lemma Distribute(a: real, p: real, x: real, y: real, z: real)
    requires p == x + y + z
    ensures a * p == a * x + a * y + a * z
  {
  }

  /** A scalar triple product does not change when its factors rotate. */
  lemma TripleRotates(a: Vec3, b: Vec3, c: Vec3)
    ensures Dot(a, Cross(b, c)) == Dot(b, Cross(c, a))
  {
  }

  lemma TripleVanishes(a: Vec3, b: Vec3)
    ensures Dot(a, Cross(a, b)) == 0.0 == Dot(a, Cross(b, a))
  {
  }

  /** Cramer's rule for s = u * e1 + v * e2 - d * dir, multiplied out. */
  lemma CramerIdentity(s: Vec3, dir: Vec3, e1: Vec3, e2: Vec3)
    ensures var h, q := Cross(dir, e2), Cross(s, e1);
      Scale(Dot(e1, h), s) == Add(Scale(Dot(s, h), e1), Sub(Scale(Dot(dir, q), e2), Scale(Dot(e2, q), dir)))
  {
    hide Dot, Cross;
    var h, q := Cross(dir, e2), Cross(s, e1);
    TripleCross(h, s, e1);
    TripleCross(q, dir, e2);
    CrossAntiCommutes(h, q);
    DotCommutes(h, e1);
    DotCommutes(h, s);
    DotCommutes(q, dir);
    DotCommutes(q, e2);
  }

  /** The three determinants of a combination of the edges and the direction. */
  lemma CombinationDeterminants(u: real, v: real, d: real, dir: Vec3, e1: Vec3, e2: Vec3, s: Vec3)
    requires s == Add(Add(Scale(u, e1), Scale(v, e2)), Scale(-d, dir))
    ensures var h, q, a := Cross(dir, e2), Cross(s, e1), Dot(e1, Cross(dir, e2));
      && Dot(s, h) == u * a && Dot(dir, q) == v * a && Dot(e2, q) == d * a
  {
    hide Dot, Cross, Add, Scale;
    var a := Dot(e1, Cross(dir, e2));
    Combination(u, v, d, dir, e1, e2, Cross(dir, e2));
    TripleVanishes(dir, e2);
    TripleVanishes(e2, dir);
    TripleRotates(dir, s, e1);
    Combination(u, v, d, dir, e1, e2, Cross(e1, dir));
    TripleVanishes(e1, dir);
    TripleVanishes(dir, e1);
    TripleRotates(e1, dir, e2);
    TripleRotates(dir, e2, e1);
    TripleRotates(e2, s, e1);
    Combination(u, v, d, dir, e1, e2, Cross(e1, e2));
    TripleVanishes(e1, e2);
    TripleVanishes(e2, e1);
    TripleSwaps(dir, e1, e2);
  }

  lemma Combination(u: real, v: real, d: real, dir: Vec3, e1: Vec3, e2: Vec3, c: Vec3)
    ensures Dot(Add(Add(Scale(u, e1), Scale(v, e2)), Scale(-d, dir)), c)
         == u * Dot(e1, c) + v * Dot(e2, c) - d * Dot(dir, c)
  {
    hide Dot, Add, Scale;
    DotLinear(Add(Scale(u, e1), Scale(v, e2)), Scale(-d, dir), c, 0.0);
    DotLinear(Scale(u, e1), Scale(v, e2), c, 0.0);
    DotLinear(e1, e1, c, u);
    DotLinear(e2, e2, c, v);
    DotLinear(dir, dir, c, -d);
  }

  lemma TripleSwaps(a: Vec3, b: Vec3, c: Vec3)
    ensures Dot(a, Cross(b, c)) == -Dot(b, Cross(a, c))
  {
  }

  // ---------------------------------------------------------------- the equivalence

  datatype Coords = Coords(u: real, v: real, d: real)

  /** The three quotients that the program computes. */
  function Coordinates(r: Ray, t: Tri): Coords
    requires Det(r, t) != 0.0
  {
    var e1, e2, s := Sub(t.v1, t.v0), Sub(t.v2, t.v0), Sub(r.orig, t.v0);
    var h, q := Cross(r.dir, e2), Cross(s, e1);
    var f := 1.0 / Dot(e1, h);
    Coords(f * Dot(s, h), f * Dot(r.dir, q), f * Dot(e2, q))
  }

  lemma MeetsIsCombination(r: Ray, t: Tri, u: real, v: real, d: real)
    ensures Meets(r, t, u, v, d) <==>
      Sub(r.orig, t.v0) == Add(Add(Scale(u, Sub(t.v1, t.v0)), Scale(v, Sub(t.v2, t.v0))), Scale(-d, r.dir))
  {
  }

  lemma Divide(p: real, a: real, u: real)
    requires a != 0.0
    ensures p == u * a <==> 1.0 / a * p == u
  {
  }

  lemma CoordinatesMultiply(r: Ray, t: Tri, u: real, v: real, d: real)
    requires Det(r, t) != 0.0
    ensures var e1, e2, s := Sub(t.v1, t.v0), Sub(t.v2, t.v0), Sub(r.orig, t.v0);
      var h, q := Cross(r.dir, e2), Cross(s, e1);
      var a := Dot(e1, h);
      Coords(u, v, d) == Coordinates(r, t) <==> Dot(s, h) == u * a && Dot(r.dir, q) == v * a && Dot(e2, q) == d * a
  {
    hide Dot, Cross, Sub;
    var e1, e2, s := Sub(t.v1, t.v0), Sub(t.v2, t.v0), Sub(r.orig, t.v0);
    var h, q := Cross(r.dir, e2), Cross(s, e1);
    var a := Dot(e1, h);
    var c := Coordinates(r, t);
    Divide(Dot(s, h), a, u);
    Divide(Dot(r.dir, q), a, v);
    Divide(Dot(e2, q), a, d);
    assert c == Coords(1.0 / a * Dot(s, h), 1.0 / a * Dot(r.dir, q), 1.0 / a * Dot(e2, q));
  }

  /** With a non-zero determinant the ray's line meets the triangle's plane at exactly one point. */
  lemma MeetsAtCoordinates(r: Ray, t: Tri, u: real, v: real, d: real)
    requires Det(r, t) != 0.0
    ensures Meets(r, t, u, v, d) <==> Coords(u, v, d) == Coordinates(r, t)
  {
    hide Dot, Cross, Sub, Add, Scale, Meets, Coordinates;
    var e1, e2, s, dir := Sub(t.v1, t.v0), Sub(t.v2, t.v0), Sub(r.orig, t.v0), r.dir;
    MeetsIsCombination(r, t, u, v, d);
    CoordinatesMultiply(r, t, u, v, d);
    CramerIdentity(s, dir, e1, e2);
    if Meets(r, t, u, v, d) {
      CombinationDeterminants(u, v, d, dir, e1, e2, s);
    } else if Coords(u, v, d) == Coordinates(r, t) {
      var h, q := Cross(dir, e2), Cross(s, e1);
      CancelFactor(Dot(e1, h), u, v, d, Dot(s, h), Dot(dir, q), Dot(e2, q), s, e1, e2, dir);
    }
  }

  lemma CancelFactor(a: real, u: real, v: real, d: real, p: real, q: real, w: real,
                     s: Vec3, e1: Vec3, e2: Vec3, dir: Vec3)
    requires a != 0.0 && p == u * a && q == v * a && w == d * a
    requires Scale(a, s) == Add(Scale(p, e1), Sub(Scale(q, e2), Scale(w, dir)))
    ensures s == Add(Add(Scale(u, e1), Scale(v, e2)), Scale(-d, dir))
  {
    hide Scale, Add, Sub;
    var x, y, z := Scale(u, e1), Scale(v, e2), Scale(-d, dir);
    ScaleAdd(a, Add(x, y), z);
    ScaleAdd(a, x, y);
    ScaleScale(a, u, p, e1);
    ScaleScale(a, v, q, e2);
    ScaleScale(a, -d, -w, dir);
    AddNegated(Scale(p, e1), Scale(q, e2), w, dir);
    ScaleInjective(a, s, Add(Add(x, y), z));
  }

  lemma ScaleAdd(a: real, x: Vec3, y: Vec3)
    ensures Scale(a, Add(x, y)) == Add(Scale(a, x), Scale(a, y))
  {
  }

  lemma ScaleScale(a: real, u: real, p: real, x: Vec3)
    requires p == u * a
    ensures Scale(a, Scale(u, x)) == Scale(p, x)
  {
  }

  lemma AddNegated(x: Vec3, y: Vec3, w: real, z: Vec3)
    ensures Add(Add(x, y), Scale(-w, z)) == Add(x, Sub(y, Scale(w, z)))
  {
  }

  lemma ScaleInjective(a: real, x: Vec3, y: Vec3)
    requires a != 0.0 && Scale(a, x) == Scale(a, y)
    ensures x == y
  {
    Divide(a * x.x, a, x.x);
    Divide(a * x.y, a, x.y);
    Divide(a * x.z, a, x.z);
    Divide(a * y.x, a, y.x);
    Divide(a * y.y, a, y.y);
    Divide(a * y.z, a, y.z);
  }

  /** Exactly when the program reports a hit: the determinant passes the test and the ray meets
      the triangle in front of its origin. */
  lemma IntersectExactly(r: Ray, t: Tri)
    ensures Intersect(r, t) == 0 || Intersect(r, t) == 1
    ensures var a := Dot(Sub(t.v1, t.v0), Cross(r.dir, Sub(t.v2, t.v0)));
      Intersect(r, t) == 1 <==>
        && (a <= -0.0000001 || a >= 0.0000001)
        && exists u, v, d :: u >= 0.0 && v >= 0.0 && u + v <= 1.0 && d > 0.0000001 && Meets(r, t, u, v, d)
  {
    hide Dot, Cross, Sub, Add, Scale, Meets, Intersect;
    IntersectTests(r, t);
    if Det(r, t) <= -EPSILON || Det(r, t) >= EPSILON {
      var Coords(u, v, d) := Coordinates(r, t);
      MeetsAtCoordinates(r, t, u, v, d);
      assert Inside(u, v, d) ==> Hits(r, t, u, v, d);
      if u', v', d' :| Inside(u', v', d') && Meets(r, t, u', v', d') {
        MeetsAtCoordinates(r, t, u', v', d');
      }
    }
  }

  predicate Inside(u: real, v: real, d: real) {
    u >= 0.0 && v >= 0.0 && u + v <= 1.0 && d > EPSILON
  }

  /** The early exits of the program amount to one test of the three quotients. */
  lemma IntersectTests(r: Ray, t: Tri)
    ensures -EPSILON < Det(r, t) < EPSILON ==> Intersect(r, t) == 0
    ensures !(-EPSILON < Det(r, t) < EPSILON) ==>
      Intersect(r, t) == var Coords(u, v, d) := Coordinates(r, t); if Inside(u, v, d) then 1 else 0
  {
    hide Dot, Cross, Sub;
  }

  /** The point of a hit is unique. */
  lemma HitIsUnique(r: Ray, t: Tri, u: real, v: real, d: real, u': real, v': real, d': real)
    requires Det(r, t) != 0.0 && Hits(r, t, u, v, d) && Hits(r, t, u', v', d')
    ensures u == u' && v == v' && d == d'
  {
    MeetsAtCoordinates(r, t, u, v, d);
    MeetsAtCoordinates(r, t, u', v', d');
  }
}

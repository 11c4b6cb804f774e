/** The convexity test of the tessellation engine, over exact real coordinates. */
module Geometry {

  /** A point of the plane, (x, y). */
  type Point = (real, real)

  /** Half-width of the band around zero in which a cross product counts as collinear (1e-5). */
  const Eps: real := 0.00001

  /** Cross product of the edge vectors p1->p2 and p2->p3. */
  function Cross(p1: Point, p2: Point, p3: Point): real {
    (p2.0 - p1.0) * (p3.1 - p2.1) - (p2.1 - p1.1) * (p3.0 - p2.0)
  }

  /** Position of the vertex just before position j on a closed loop of n vertices. */
  function Before(j: nat, n: nat): (k: nat)
    requires j < n
    ensures k < n && (k + 1 == j || (j == 0 && k == n - 1))
  {
    if j == 0 then n - 1 else j - 1
  }

  /**
   * The cross product of the j-th triple the source visits: rolling the vertex list by 0, 1
   * and 2 places and zipping gives, at position j, the vertices j, j-1 and j-2 (cyclically).
   */
  function CrossAt(poly: seq<Point>, j: nat): real
    requires j < |poly|
  {
    var n := |poly|;
    Cross(poly[j], poly[Before(j, n)], poly[Before(Before(j, n), n)])
  }

  /** A cross product outside the collinearity band (-Eps, Eps) decides a turning direction. */
  predicate Turning(c: real) {
    !(-Eps < c < Eps)
  }

  /** The sign of a real, as numpy's `sign` gives it. */
  function Sign(c: real): int {
    if c > 0.0 then 1 else if c < 0.0 then -1 else 0
  }

  /**
   * What the convexity test decides: at least three vertices, and every cyclic triple whose
   * cross product leaves the collinearity band turns the same way. Triples inside the band
   * are ignored, so a list of collinear points is accepted.
   */
  predicate Convex(poly: seq<Point>) {
    |poly| >= 3 &&
    forall i: nat, j: nat :: i < |poly| && j < |poly| && Turning(CrossAt(poly, i)) && Turning(CrossAt(poly, j))
      ==> Sign(CrossAt(poly, i)) == Sign(CrossAt(poly, j))
  }

  /**
   * `is_convex`: walks the cyclic triples, remembers the sign of the first turning one and
   * gives up at the first turning triple of the other sign.
   */
  method IsConvex(polygon: seq<Point>) returns (convex: bool)
    ensures convex <==> Convex(polygon)
  {
    if |polygon| < 3 {
      return false;
    }
    var n := |polygon|;
    var orientation := 0;
    ghost var first: nat := 0;
    for j := 0 to n
      invariant orientation == 0 || orientation == 1 || orientation == -1
      invariant orientation == 0 ==> forall k: nat :: k < j ==> !Turning(CrossAt(polygon, k))
      invariant orientation != 0 ==>
        first < j && Turning(CrossAt(polygon, first)) && Sign(CrossAt(polygon, first)) == orientation
      invariant orientation != 0 ==>
        forall k: nat :: k < j && Turning(CrossAt(polygon, k)) ==> Sign(CrossAt(polygon, k)) == orientation
    {
      var p1, p2, p3 := polygon[j], polygon[Before(j, n)], polygon[Before(Before(j, n), n)];
      var cross := Cross(p1, p2, p3);
      if !(-Eps < cross < Eps) {
        if orientation == 0 {
          orientation := Sign(cross);
          first := j;
        } else if orientation != Sign(cross) {
          assert Turning(CrossAt(polygon, j)) && Sign(CrossAt(polygon, j)) != Sign(CrossAt(polygon, first));
          return false;
        }
      }
    }
    return true;
  }

  /** The vertex list started at position r instead of 0. */
  function Rotate(poly: seq<Point>, r: nat): seq<Point>
    requires r <= |poly|
  {
    poly[r..] + poly[..r]
  }

  /** Position i of the rotated list holds the vertex r places further along the original. */
  function Shift(i: nat, r: nat, n: nat): (k: nat)
    requires i < n && r < n
    ensures k < n
  {
    if i + r < n then i + r else i + r - n
  }

  lemma RotateAt(poly: seq<Point>, r: nat, i: nat)
    requires r < |poly| && i < |poly|
    ensures |Rotate(poly, r)| == |poly|
    ensures Rotate(poly, r)[i] == poly[Shift(i, r, |poly|)]
  {
  }

  /** Each cyclic triple of the rotated list is a cyclic triple of the original. */
  lemma CrossAtRotate(poly: seq<Point>, r: nat, j: nat)
    requires r < |poly| && j < |poly|
    ensures |Rotate(poly, r)| == |poly|
    ensures CrossAt(Rotate(poly, r), j) == CrossAt(poly, Shift(j, r, |poly|))
  {
    var n := |poly|;
    var b1 := Before(j, n);
    var b2 := Before(b1, n);
    RotateAt(poly, r, j);
    RotateAt(poly, r, b1);
    RotateAt(poly, r, b2);
    assert Shift(b1, r, n) == Before(Shift(j, r, n), n);
    assert Shift(b2, r, n) == Before(Before(Shift(j, r, n), n), n);
  }

  /** A rotation of a convex list is convex: its triples are triples of the original. */
  lemma ConvexOntoRotation(poly: seq<Point>, r: nat)
    requires r < |poly| && Convex(poly)
    ensures Convex(Rotate(poly, r))
  {
    var n := |poly|;
    var q := Rotate(poly, r);
    assert |q| == n;
    forall i: nat, j: nat | i < n && j < n && Turning(CrossAt(q, i)) && Turning(CrossAt(q, j))
      ensures Sign(CrossAt(q, i)) == Sign(CrossAt(q, j))
    {
      CrossAtRotate(poly, r, i);
      CrossAtRotate(poly, r, j);
    }
  }

  /** A list whose rotation is convex is convex: each of its triples is a triple of the rotation. */
  lemma ConvexFromRotation(poly: seq<Point>, r: nat)
    requires r < |poly| && Convex(Rotate(poly, r))
    ensures Convex(poly)
  {
    var n := |poly|;
    var q := Rotate(poly, r);
    assert |q| == n;
    forall k: nat, l: nat | k < n && l < n && Turning(CrossAt(poly, k)) && Turning(CrossAt(poly, l))
      ensures Sign(CrossAt(poly, k)) == Sign(CrossAt(poly, l))
    {
      var i: nat := if k >= r then k - r else k + n - r;
      var j: nat := if l >= r then l - r else l + n - r;
      CrossAtRotate(poly, r, i);
      CrossAtRotate(poly, r, j);
      assert Shift(i, r, n) == k && Shift(j, r, n) == l;
      assert Turning(CrossAt(q, i)) && Turning(CrossAt(q, j));
    }
  }

  /**
   * The convexity test does not depend on which vertex is listed first: every cyclic triple
   * of a rotation is a cyclic triple of the original and conversely.
   */
  lemma ConvexRotate(poly: seq<Point>, r: nat)
    requires r <= |poly|
    ensures Convex(Rotate(poly, r)) <==> Convex(poly)
  {
    if r == |poly| {
      assert Rotate(poly, r) == poly;
    } else {
      if Convex(poly) {
        ConvexOntoRotation(poly, r);
      }
      if Convex(Rotate(poly, r)) {
        ConvexFromRotation(poly, r);
      }
    }
  }

  /** Any three points pass the test: all three cyclic triples have the same cross product. */
  lemma {:induction false} TriangleConvex(poly: seq<Point>)
    requires |poly| == 3
    ensures Convex(poly)
  {
    var c := CrossAt(poly, 0);
    assert CrossAt(poly, 1) == c;
    assert CrossAt(poly, 2) == c;
  }

  /** The points moved by the vector t. */
  function Translate(poly: seq<Point>, t: Point): (moved: seq<Point>)
    ensures |moved| == |poly|
  {
    seq(|poly|, i requires 0 <= i < |poly| => (poly[i].0 + t.0, poly[i].1 + t.1))
  }

  /** Moving every point by the same vector does not change the test's answer. */
  lemma {:induction false} ConvexTranslate(poly: seq<Point>, t: Point)
    ensures Convex(Translate(poly, t)) <==> Convex(poly)
  {
    var q := Translate(poly, t);
    forall j: nat | j < |poly|
      ensures CrossAt(q, j) == CrossAt(poly, j)
    {
      var n := |poly|;
      var b1 := Before(j, n);
      var b2 := Before(b1, n);
      assert q[j] == (poly[j].0 + t.0, poly[j].1 + t.1);
      assert q[b1] == (poly[b1].0 + t.0, poly[b1].1 + t.1);
      assert q[b2] == (poly[b2].0 + t.0, poly[b2].1 + t.1);
    }
  }

  /** The point p turned about the origin by the rotation with cosine c and sine s. */
  function TurnPoint(p: Point, c: real, s: real): Point {
    (c * p.0 - s * p.1, s * p.0 + c * p.1)
  }

  /** The points turned about the origin by the rotation with cosine c and sine s. */
  function Turn(poly: seq<Point>, c: real, s: real): (turned: seq<Point>)
    ensures |turned| == |poly|
  {
    seq(|poly|, i requires 0 <= i < |poly| => TurnPoint(poly[i], c, s))
  }

  /**
   * The cross product of two edge vectors (u, v) turned by the rotation with cosine c and
   * sine s into (t, w) equals that of the original vectors.
   */
  lemma TurnedCrossProduct(tx: real, ty: real, wx: real, wy: real, ux: real, uy: real, vx: real, vy: real, c: real, s: real)
    requires c * c + s * s == 1.0
    requires tx == c * ux - s * uy && ty == s * ux + c * uy
    requires wx == c * vx - s * vy && wy == s * vx + c * vy
    ensures tx * wy - ty * wx == ux * vy - uy * vx
  {
    calc {
      tx * wy - ty * wx;
      (c * ux - s * uy) * (s * vx + c * vy) - (s * ux + c * uy) * (c * vx - s * vy);
      c * s * ux * vx + c * c * ux * vy - s * s * uy * vx - s * c * uy * vy
        - (s * c * ux * vx - s * s * ux * vy + c * c * uy * vx - c * s * uy * vy);
      (c * c + s * s) * ux * vy - (c * c + s * s) * uy * vx;
    }
  }

  /** A rotation leaves the cross product of two edge vectors unchanged. */
  lemma CrossTurn(p1: Point, p2: Point, p3: Point, c: real, s: real)
    requires c * c + s * s == 1.0
    ensures Cross(TurnPoint(p1, c, s), TurnPoint(p2, c, s), TurnPoint(p3, c, s)) == Cross(p1, p2, p3)
  {
    var q1, q2, q3 := TurnPoint(p1, c, s), TurnPoint(p2, c, s), TurnPoint(p3, c, s);
    TurnedCrossProduct(q2.0 - q1.0, q2.1 - q1.1, q3.0 - q2.0, q3.1 - q2.1,
                       p2.0 - p1.0, p2.1 - p1.1, p3.0 - p2.0, p3.1 - p2.1, c, s);
  }

  /** Rotating every point about the origin does not change the test's answer. */
  lemma {:induction false} ConvexTurn(poly: seq<Point>, c: real, s: real)
    requires c * c + s * s == 1.0
    ensures Convex(Turn(poly, c, s)) <==> Convex(poly)
  {
    var q := Turn(poly, c, s);
    forall j: nat | j < |poly|
      ensures CrossAt(q, j) == CrossAt(poly, j)
    {
      var n := |poly|;
      var b1 := Before(j, n);
      var b2 := Before(b1, n);
      CrossTurn(poly[j], poly[b1], poly[b2], c, s);
    }
  }
}

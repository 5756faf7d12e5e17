/**
 * The seven-parameter Helmert (similarity) transform between a datum and the
 * hub frame, linearised for small rotation angles. Coordinates and parameters
 * are exact reals; the rotations are taken as already converted to radians.
 */
module Helmert {

  /** A point (X, Y, Z) in a Cartesian frame. */
  datatype Point = Point(x: real, y: real, z: real)

  /**
   * The seven parameters of one datum relative to the hub: translations dX, dY,
   * dZ, rotations wx, wy, wz and the scale correction m, used as the factor 1 + m.
   */
  datatype Params = Params(dX: real, dY: real, dZ: real, wx: real, wy: real, wz: real, m: real)

  /** A 3x3 matrix given by its rows. */
  datatype Matrix3 = Matrix3(r0: Point, r1: Point, r2: Point)

  const Origin: Point := Point(0.0, 0.0, 0.0)

  const ZeroParams: Params := Params(0.0, 0.0, 0.0, 0.0, 0.0, 0.0, 0.0)

  function Dot(a: Point, b: Point): real
  {
    a.x * b.x + a.y * b.y + a.z * b.z
  }

  function Apply(mat: Matrix3, p: Point): Point
  {
    Point(Dot(mat.r0, p), Dot(mat.r1, p), Dot(mat.r2, p))
  }

  function Scale(k: real, p: Point): Point
  {
    Point(k * p.x, k * p.y, k * p.z)
  }

  function Plus(a: Point, b: Point): Point
  {
    Point(a.x + b.x, a.y + b.y, a.z + b.z)
  }

  function Minus(a: Point, b: Point): Point
  {
    Point(a.x - b.x, a.y - b.y, a.z - b.z)
  }

  function Transpose(mat: Matrix3): Matrix3
  {
    Matrix3(Point(mat.r0.x, mat.r1.x, mat.r2.x),
            Point(mat.r0.y, mat.r1.y, mat.r2.y),
            Point(mat.r0.z, mat.r1.z, mat.r2.z))
  }

  /** The translation vector (dX, dY, dZ) of a parameter set. */
  function Translation(h: Params): Point
  {
    Point(h.dX, h.dY, h.dZ)
  }

  /** The small-angle rotation matrix [[1, wz, -wy], [-wz, 1, wx], [wy, -wx, 1]]. */
  function Rotation(h: Params): Matrix3
  {
    Matrix3(Point(1.0, h.wz, -h.wy),
            Point(-h.wz, 1.0, h.wx),
            Point(h.wy, -h.wx, 1.0))
  }

  /** The skew-symmetric part of Rotation(h): Rotation(h) = I + Skew(h). */
  function Skew(h: Params): Matrix3
  {
    Matrix3(Point(0.0, h.wz, -h.wy),
            Point(-h.wz, 0.0, h.wx),
            Point(h.wy, -h.wx, 0.0))
  }

  /** Every one of the seven parameters with its sign flipped. */
  function Negated(h: Params): Params
  {
    Params(-h.dX, -h.dY, -h.dZ, -h.wx, -h.wy, -h.wz, -h.m)
  }

  /**
   * The parameters the transform actually uses: unchanged towards the hub,
   * all seven negated away from it.
   */
  function Effective(h: Params, toHub: bool): (e: Params)
    ensures toHub ==> e == h
    ensures !toHub ==> e.m == -h.m && e.wx == -h.wx && e.wy == -h.wy && e.wz == -h.wz
                       && e.dX == -h.dX && e.dY == -h.dY && e.dZ == -h.dZ
  {
    if toHub then h else Negated(h)
  }

  /** The transform of one point: (1 + m) * R * p + d with the effective parameters. */
  function ConvertCoordinates(p: Point, h: Params, toHub: bool): Point
  {
    var e := Effective(h, toHub);
    Plus(Scale(1.0 + e.m, Apply(Rotation(e), p)), Translation(e))
  }

  /** Towards the hub, each coordinate is (1 + m) R p + d with the stored parameters. */
  lemma ForwardClosedForm(p: Point, h: Params)
    ensures ConvertCoordinates(p, h, true)
            == Point((1.0 + h.m) * (p.x + h.wz * p.y - h.wy * p.z) + h.dX,
                     (1.0 + h.m) * (-h.wz * p.x + p.y + h.wx * p.z) + h.dY,
                     (1.0 + h.m) * (h.wy * p.x - h.wx * p.y + p.z) + h.dZ)
  {
    RotationApplied(h, p);
    ShiftAfterScale(1.0 + h.m, Apply(Rotation(h), p), Translation(h));
  }

  /**
   * Away from the hub, each coordinate is (1 - m) R' p - d, where R' is the
   * rotation matrix with the three angles negated.
   */
  lemma InverseClosedForm(p: Point, h: Params)
    ensures ConvertCoordinates(p, h, false)
            == Point((1.0 - h.m) * (p.x - h.wz * p.y + h.wy * p.z) - h.dX,
                     (1.0 - h.m) * (h.wz * p.x + p.y - h.wx * p.z) - h.dY,
                     (1.0 - h.m) * (-h.wy * p.x + h.wx * p.y + p.z) - h.dZ)
  {
    var e := Negated(h);
    var v := Apply(Rotation(e), p);
    RotationApplied(e, p);
    assert (-h.wz) * p.y == -(h.wz * p.y) && (-h.wy) * p.z == -(h.wy * p.z);
    assert (-h.wz) * p.x == -(h.wz * p.x) && (-h.wx) * p.z == -(h.wx * p.z);
    assert (-h.wy) * p.x == -(h.wy * p.x) && (-h.wx) * p.y == -(h.wx * p.y);
    assert v == Point(p.x - h.wz * p.y + h.wy * p.z, h.wz * p.x + p.y - h.wx * p.z, -h.wy * p.x + h.wx * p.y + p.z);
    assert Scale(1.0 + e.m, v) == Scale(1.0 - h.m, v);
    ShiftAfterScale(1.0 - h.m, v, Translation(e));
  }

  /** The rotation matrix applied to a point, coordinate by coordinate. */
  lemma RotationApplied(e: Params, p: Point)
    ensures Apply(Rotation(e), p)
            == Point(p.x + e.wz * p.y - e.wy * p.z, -e.wz * p.x + p.y + e.wx * p.z, e.wy * p.x - e.wx * p.y + p.z)
  {
    assert (-e.wy) * p.z == -(e.wy * p.z);
    assert (-e.wz) * p.x == -(e.wz * p.x);
    assert (-e.wx) * p.y == -(e.wx * p.y);
  }

  /** k v + t, coordinate by coordinate. */
  lemma ShiftAfterScale(k: real, v: Point, t: Point)
    ensures Plus(Scale(k, v), t) == Point(k * v.x + t.x, k * v.y + t.y, k * v.z + t.z)
  {
  }

  /** The inverse direction is the forward direction with every parameter negated. */
  lemma InverseIsNegatedForward(p: Point, h: Params)
    ensures ConvertCoordinates(p, h, false) == ConvertCoordinates(p, Negated(h), true)
    ensures Negated(Negated(h)) == h
  {
  }

  /**
   * Without rotation and scale the transform is a pure shift: by d towards the
   * hub and by -d away from it.
   */
  lemma TranslationOnly(p: Point, h: Params, toHub: bool)
    requires h.m == 0.0 && h.wx == 0.0 && h.wy == 0.0 && h.wz == 0.0
    ensures ConvertCoordinates(p, h, toHub)
            == if toHub then Plus(p, Translation(h)) else Minus(p, Translation(h))
  {
    var e := Effective(h, toHub);
    assert e.m == 0.0 && e.wx == 0.0 && e.wy == 0.0 && e.wz == 0.0;
    RotationApplied(e, p);
    assert Apply(Rotation(e), p) == p;
    assert Scale(1.0 + e.m, p) == p;
  }

  /** With all seven parameters zero the transform is the identity, in both directions. */
  lemma ZeroParamsIdentity(p: Point, toHub: bool)
    ensures ConvertCoordinates(p, ZeroParams, toHub) == p
  {
    TranslationOnly(p, ZeroParams, toHub);
  }

  /** The origin under a pure shift d = (25, -141, -80) lands on d. */
  lemma ShiftedOriginExample()
    ensures ConvertCoordinates(Origin, Params(25.0, -141.0, -80.0, 0.0, 0.0, 0.0, 0.0), true)
            == Point(25.0, -141.0, -80.0)
  {
    TranslationOnly(Origin, Params(25.0, -141.0, -80.0, 0.0, 0.0, 0.0, 0.0), true);
  }

  /** The matrix used away from the hub is the transpose of the one used towards it. */
  lemma InverseRotationIsTranspose(h: Params)
    ensures Rotation(Negated(h)) == Transpose(Rotation(h))
    ensures Skew(Negated(h)) == Transpose(Skew(h))
  {
  }

  lemma DotLinear(r: Point, a: Point, b: Point, k: real)
    ensures Dot(r, Plus(a, b)) == Dot(r, a) + Dot(r, b)
    ensures Dot(r, Minus(a, b)) == Dot(r, a) - Dot(r, b)
    ensures Dot(r, Scale(k, a)) == k * Dot(r, a)
  {
    assert r.x * (a.x + b.x) == r.x * a.x + r.x * b.x;
    assert r.y * (a.y + b.y) == r.y * a.y + r.y * b.y;
    assert r.z * (a.z + b.z) == r.z * a.z + r.z * b.z;
    assert r.x * (a.x - b.x) == r.x * a.x - r.x * b.x;
    assert r.y * (a.y - b.y) == r.y * a.y - r.y * b.y;
    assert r.z * (a.z - b.z) == r.z * a.z - r.z * b.z;
    assert r.x * (k * a.x) == k * (r.x * a.x);
    assert r.y * (k * a.y) == k * (r.y * a.y);
    assert r.z * (k * a.z) == k * (r.z * a.z);
  }

  /** Multiplying by a matrix distributes over sums, differences and scaling. */
  lemma ApplyLinear(mat: Matrix3, a: Point, b: Point, k: real)
    ensures Apply(mat, Plus(a, b)) == Plus(Apply(mat, a), Apply(mat, b))
    ensures Apply(mat, Minus(a, b)) == Minus(Apply(mat, a), Apply(mat, b))
    ensures Apply(mat, Scale(k, a)) == Scale(k, Apply(mat, a))
  {
    DotLinear(mat.r0, a, b, k);
    DotLinear(mat.r1, a, b, k);
    DotLinear(mat.r2, a, b, k);
  }

  lemma ScaleMinus(k: real, a: Point, b: Point)
    ensures Scale(k, Minus(a, b)) == Minus(Scale(k, a), Scale(k, b))
  {
    assert k * (a.x - b.x) == k * a.x - k * b.x;
    assert k * (a.y - b.y) == k * a.y - k * b.y;
    assert k * (a.z - b.z) == k * a.z - k * b.z;
  }

  lemma ShiftCancels(a: Point, b: Point, t: Point)
    ensures Minus(Plus(a, t), Plus(b, t)) == Minus(a, b)
  {
  }

  /**
   * The transform is affine: the translation cancels out of the difference of
   * two transformed points, which is the difference of the inputs rotated and
   * scaled.
   */
  lemma DifferencesAreRotatedAndScaled(p: Point, q: Point, h: Params, toHub: bool)
    ensures var e := Effective(h, toHub);
            Minus(ConvertCoordinates(p, h, toHub), ConvertCoordinates(q, h, toHub))
            == Scale(1.0 + e.m, Apply(Rotation(e), Minus(p, q)))
  {
    var e := Effective(h, toHub);
    var k := 1.0 + e.m;
    var rp, rq := Apply(Rotation(e), p), Apply(Rotation(e), q);
    ApplyLinear(Rotation(e), p, q, k);
    ShiftCancels(Scale(k, rp), Scale(k, rq), Translation(e));
    ScaleMinus(k, rp, rq);
  }

  /** The skew part of a matrix with negated angles is the negated skew part. */
  lemma SkewNegated(h: Params, q: Point)
    ensures Apply(Skew(Negated(h)), q) == Scale(-1.0, Apply(Skew(h), q))
  {
    var n := Negated(h);
    assert Dot(Skew(n).r0, q) == -Dot(Skew(h).r0, q);
    assert Dot(Skew(n).r1, q) == -Dot(Skew(h).r1, q);
    assert Dot(Skew(n).r2, q) == -Dot(Skew(h).r2, q);
  }

  lemma RotationSplit(h: Params, p: Point)
    ensures Apply(Rotation(h), p) == Plus(p, Apply(Skew(h), p))
  {
  }

  /**
   * Negating the parameters is only a first-order inverse: going to the hub and
   * back with the same parameters returns
   *   (1 - m^2) (I - S^2) p - m d - (1 - m) S d,
   * where S is the skew part of the rotation and d the translation, which
   * differs from p by terms of second order in m and S, and by m d.
   */
  lemma RoundTripDefect(p: Point, h: Params)
    ensures var sp := Apply(Skew(h), p);
            var d := Translation(h);
            ConvertCoordinates(ConvertCoordinates(p, h, true), h, false)
            == Minus(Minus(Scale(1.0 - h.m * h.m, Minus(p, Apply(Skew(h), sp))), Scale(h.m, d)),
                     Scale(1.0 - h.m, Apply(Skew(h), d)))
  {
    var s := Skew(h);
    var sp := Apply(s, p);
    var d := Translation(h);
    var q := ConvertCoordinates(p, h, true);
    ForwardSplit(p, h);
    InverseSplit(q, h);
    SkewOfForward(s, p, d, 1.0 + h.m);
    RoundTripAlgebra(p, sp, Apply(s, sp), d, Apply(s, d), h.m, 1.0 + h.m, 1.0 - h.m, 1.0 - h.m * h.m);
  }

  /** Towards the hub: (1 + m) (p + S p) + d. */
  lemma ForwardSplit(p: Point, h: Params)
    ensures ConvertCoordinates(p, h, true)
            == Plus(Scale(1.0 + h.m, Plus(p, Apply(Skew(h), p))), Translation(h))
  {
    RotationSplit(h, p);
  }

  /** Away from the hub: (1 - m) (q - S q) - d. */
  lemma InverseSplit(q: Point, h: Params)
    ensures ConvertCoordinates(q, h, false)
            == Minus(Scale(1.0 - h.m, Minus(q, Apply(Skew(h), q))), Translation(h))
  {
    var n := Negated(h);
    RotationSplit(n, q);
    SkewNegated(h, q);
  }

  lemma SkewOfForward(s: Matrix3, p: Point, d: Point, k: real)
    ensures Apply(s, Plus(Scale(k, Plus(p, Apply(s, p))), d))
            == Plus(Scale(k, Plus(Apply(s, p), Apply(s, Apply(s, p)))), Apply(s, d))
  {
    var u := Plus(p, Apply(s, p));
    ApplyLinear(s, Scale(k, u), d, k);
    ApplyLinear(s, u, d, k);
    ApplyLinear(s, p, Apply(s, p), k);
  }

  /**
   * The vector algebra behind RoundTripDefect, with the matrix products named
   * and the scale factors k1 = 1 + m, k2 = 1 - m, k3 = 1 - m^2. Each step is a
   * lemma of its own, so that no proof obligation mixes the three coordinates
   * with the products of the scale factors.
   */
  lemma RoundTripAlgebra(p: Point, sp: Point, ssp: Point, d: Point, sd: Point, m: real, k1: real, k2: real, k3: real)
    requires k1 == 1.0 + m && k2 == 1.0 - m && k3 == 1.0 - m * m
    ensures var q := Plus(Scale(k1, Plus(p, sp)), d);
            var sq := Plus(Scale(k1, Plus(sp, ssp)), sd);
            Minus(Scale(k2, Minus(q, sq)), d)
            == Minus(Minus(Scale(k3, Minus(p, ssp)), Scale(m, d)), Scale(k2, sd))
  {
    var u, v := Plus(p, sp), Plus(sp, ssp);
    ShiftsSeparate(Scale(k1, u), Scale(k1, v), d, sd);
    ScaleMinus(k1, u, v);
    SkewTermsCancel(p, sp, ssp);
    assert k3 == k2 * k1 by { ScaleFactorsMultiply(m, k1, k2, k3); }
    ScaleTwice(k1, k2, k3, Minus(p, ssp), Minus(d, sd));
    TranslationResidue(Scale(k3, Minus(p, ssp)), d, sd, m, k2);
  }

  lemma ShiftsSeparate(a: Point, b: Point, d: Point, e: Point)
    ensures Minus(Plus(a, d), Plus(b, e)) == Plus(Minus(a, b), Minus(d, e))
  {
  }

  lemma SkewTermsCancel(p: Point, sp: Point, ssp: Point)
    ensures Minus(Plus(p, sp), Plus(sp, ssp)) == Minus(p, ssp)
  {
  }

  lemma ScaleFactorsMultiply(m: real, k1: real, k2: real, k3: real)
    requires k1 == 1.0 + m && k2 == 1.0 - m && k3 == 1.0 - m * m
    ensures k3 == k2 * k1
  {
  }

  /** k2 (k1 w + t) = k3 w + k2 t when k3 = k2 k1. */
  lemma ScaleTwice(k1: real, k2: real, k3: real, w: Point, t: Point)
    requires k3 == k2 * k1
    ensures Scale(k2, Plus(Scale(k1, w), t)) == Plus(Scale(k3, w), Scale(k2, t))
  {
    ScaleTwiceScalar(k1, k2, k3, w.x, t.x);
    ScaleTwiceScalar(k1, k2, k3, w.y, t.y);
    ScaleTwiceScalar(k1, k2, k3, w.z, t.z);
  }

  lemma ScaleTwiceScalar(k1: real, k2: real, k3: real, w: real, t: real)
    requires k3 == k2 * k1
    ensures k2 * (k1 * w + t) == k3 * w + k2 * t
  {
    assert k2 * (k1 * w + t) == k2 * (k1 * w) + k2 * t;
    assert k2 * (k1 * w) == (k2 * k1) * w;
  }

  /** a + (1 - m) (d - sd) - d = a - m d - (1 - m) sd. */
  lemma TranslationResidue(a: Point, d: Point, sd: Point, m: real, k2: real)
    requires k2 == 1.0 - m
    ensures Minus(Plus(a, Scale(k2, Minus(d, sd))), d) == Minus(Minus(a, Scale(m, d)), Scale(k2, sd))
  {
    TranslationResidueScalar(a.x, d.x, sd.x, m, k2);
    TranslationResidueScalar(a.y, d.y, sd.y, m, k2);
    TranslationResidueScalar(a.z, d.z, sd.z, m, k2);
  }

  lemma TranslationResidueScalar(a: real, t: real, u: real, m: real, k2: real)
    requires k2 == 1.0 - m
    ensures a + k2 * (t - u) - t == a - m * t - k2 * u
  {
    assert k2 * (t - u) == k2 * t - k2 * u;
    assert k2 * t == t - m * t;
  }

  /** Without rotation and scale, going to the hub and back is exact. */
  lemma RoundTripTranslationOnly(p: Point, h: Params)
    requires h.m == 0.0 && h.wx == 0.0 && h.wy == 0.0 && h.wz == 0.0
    ensures ConvertCoordinates(ConvertCoordinates(p, h, true), h, false) == p
  {
    TranslationOnly(p, h, true);
    TranslationOnly(Plus(p, Translation(h)), h, false);
  }
}

/**
 * Points of a short Weierstrass curve, as ecdsa/recover.js computes with them:
 * Jacobian formulas over the integers modulo p, proved to compute the affine
 * chord-and-tangent sum.
 */
module Curve {
  import opened Bytes
  import opened NumberTheory

  datatype Aff = Aff(x: int, y: int)
  datatype Jac = Jac(X: int, Y: int, Z: int)
  type pos = n: nat | n > 0 witness 1

  datatype Curve = Curve(p: pos, a: int, b: int, order: pos, G: Aff)

  /** None is the point at infinity. */
  type Point = Option<Aff>

  // ---- the code's formulas -------------------------------------------------

  function ModMul(a: int, b: int, p: nat): int
    requires p > 0
  {
    (a * b) % p
  }

  function JacDouble(pt: Option<Jac>, c: Curve): Option<Jac>
  {
    if pt.None? || pt.value.Z == 0 || pt.value.Y == 0 then None
    else
      var (X, Y, Z, p) := (pt.value.X, pt.value.Y, pt.value.Z, c.p);
      var yy := ModMul(Y, Y, p);
      var s := ModMul(4, ModMul(X, yy, p), p);
      var m := (ModMul(3, ModMul(X, X, p), p) + ModMul(c.a, PowMod(Z, 4, p), p)) % p;
      Some(Doubled(s, m, ModMul(8, ModMul(yy, yy, p), p), ModMul(2, ModMul(Y, Z, p), p), p))
  }

  /** The coordinates that jacDouble returns, from its intermediate values. */
  function Doubled(s: int, m: int, y4: int, z3: int, p: nat): Jac
    requires p > 0
  {
    var x3 := (ModMul(m, m, p) - 2 * s) % p;
    Jac(x3, (ModMul(m, (s - x3) % p, p) - y4) % p, z3)
  }

  /** The difference of scaled abscissae, h in jacAddMixed. */
  function MixedH(J: Jac, Q: Aff, p: nat): int
    requires p > 0
  {
    (ModMul(Q.x, ModMul(J.Z, J.Z, p), p) - J.X) % p
  }

  /** The difference of scaled ordinates, r in jacAddMixed. */
  function MixedR(J: Jac, Q: Aff, p: nat): int
    requires p > 0
  {
    (ModMul(Q.y, ModMul(ModMul(J.Z, J.Z, p), J.Z, p), p) - J.Y) % p
  }

  function JacAddMixed(pt: Option<Jac>, aff: Point, c: Curve): Option<Jac>
  {
    if aff.None? then pt
    else if pt.None? || pt.value.Z == 0 then Some(Jac(aff.value.x, aff.value.y, 1))
    else
      var (X, Y, Z, p) := (pt.value.X, pt.value.Y, pt.value.Z, c.p);
      var h := MixedH(pt.value, aff.value, p);
      var r := MixedR(pt.value, aff.value, p);
      if h == 0 then
        if r != 0 then None else JacDouble(pt, c)
      else
        var h2 := ModMul(h, h, p);
        var h3 := ModMul(h, h2, p);
        var u1h2 := ModMul(X, h2, p);
        var x3 := (ModMul(r, r, p) - h3 - 2 * u1h2) % p;
        var y3 := (ModMul(r, (u1h2 - x3) % p, p) - ModMul(Y, h3, p)) % p;
        Some(Jac(x3, y3, ModMul(Z, h, p)))
  }

  function FromJac(pt: Option<Jac>, p: nat): Point
    requires p > 0
  {
    if pt.None? || pt.value.Z == 0 then None
    else match ModInv(pt.value.Z, p)
      case None => None
      case Some(inv) =>
        var z2 := ModMul(inv, inv, p);
        var z3 := ModMul(z2, inv, p);
        Some(Aff(ModMul(pt.value.X, z2, p), ModMul(pt.value.Y, z3, p)))
  }

  /** The right-hand side of the curve equation at x. */
  function Rhs(x: int, c: Curve): int
  {
    (ModMul(x, ModMul(x, x, c.p), c.p) + ModMul(c.a, x, c.p) + c.b) % c.p
  }

  predicate OnCurve(pt: Aff, c: Curve)
  {
    ModMul(pt.y, pt.y, c.p) == Rhs(pt.x, c)
  }

  // ---- the affine sum ------------------------------------------------------

  predicate Reduced(pt: Aff, p: nat) { 0 <= pt.x < p && 0 <= pt.y < p }

  /** A finite point of the curve or infinity. */
  predicate IsPoint(pt: Point, c: Curve)
  {
    pt.Some? ==> Reduced(pt.value, c.p) && OnCurve(pt.value, c)
  }

  /** Tangent or chord slope. */
  function Slope(P: Aff, Q: Aff, c: Curve): int
  {
    if P.x == Q.x then (3 * (P.x * P.x) + c.a) * PowMod(2 * P.y, c.p - 2, c.p)
    else (Q.y - P.y) * PowMod(Q.x - P.x, c.p - 2, c.p)
  }

  /** The third intersection, reflected. */
  function ThroughSlope(P: Aff, Q: Aff, slope: int, p: nat): Aff
    requires p > 0
  {
    var x3 := (slope * slope - P.x - Q.x) % p;
    Aff(x3, (slope * (P.x - x3) - P.y) % p)
  }

  /** Chord-and-tangent addition. */
  function Add(P: Point, Q: Point, c: Curve): Point
  {
    if P.None? then Q
    else if Q.None? then P
    else if P.value.x == Q.value.x && (P.value.y + Q.value.y) % c.p == 0 then None
    else Some(ThroughSlope(P.value, Q.value, Slope(P.value, Q.value, c), c.p))
  }

  function Negate(P: Point, c: Curve): Point
  {
    if P.None? then None else Some(Aff(P.value.x, (c.p - P.value.y) % c.p))
  }

  function Times(k: nat, P: Point, c: Curve): Point
  {
    if k == 0 then None else Add(Times(k - 1, P, c), P, c)
  }

  // ---- Jacobian coordinates represent affine points ------------------------

  predicate Represents(j: Option<Jac>, P: Point, p: nat)
    requires p > 0
  {
    match (j, P)
    case (None, None) => true
    case (Some(J), Some(A)) =>
      && 0 <= J.X < p && 0 <= J.Y < p && 0 < J.Z < p && Reduced(A, p)
      && Cong(J.X, A.x * (J.Z * J.Z), p)
      && Cong(J.Y, A.y * (J.Z * J.Z * J.Z), p)
    case _ => false
  }

  lemma {:induction false} ModMulCong(a: int, a': int, b: int, b': int, p: nat)
    requires p > 0 && Cong(a, a', p) && Cong(b, b', p)
    ensures Cong(ModMul(a, b, p), a' * b', p)
  {
    CongMul(a, a', b, b', p);
    CongMod(a * b, p);
  }

  lemma {:induction false} ModSubCong(a: int, a': int, b: int, b': int, p: nat)
    requires p > 0 && Cong(a, a', p) && Cong(b, b', p)
    ensures Cong((a - b) % p, a' - b', p)
  {
    CongSub(a, a', b, b', p);
    CongMod(a - b, p);
  }

  /** The new coordinates, once slope, start and scale are known modulo p. */
  lemma {:induction false} NewCoordinates(
    r: int, u: int, w: int, v: int, x3: int, y3: int, slope: int, x: int, y: int, xs: int, T: int, p: nat)
    requires p > 0
    requires Cong(r, slope * T, p) && Cong(u, x * (T * T), p)
    requires Cong(w, xs * (T * T), p) && Cong(v, y * (T * T * T), p)
    requires x3 == (ModMul(r, r, p) - w) % p
    requires y3 == (ModMul(r, (u - x3) % p, p) - v) % p
    ensures Cong(x3, (slope * slope - xs) * (T * T), p)
    ensures Cong(y3, (slope * (x - (slope * slope - xs)) - y) * (T * T * T), p)
  {
    hide Cong, ModMul;
    var X := slope * slope - xs;
    ModMulCong(r, slope * T, r, slope * T, p);
    ModSubCong(ModMul(r, r, p), (slope * T) * (slope * T), w, xs * (T * T), p);
    ScaledAbscissa(slope, T, xs);
    ModSubCong(u, x * (T * T), x3, X * (T * T), p);
    ModMulCong(r, slope * T, (u - x3) % p, x * (T * T) - X * (T * T), p);
    ModSubCong(
      ModMul(r, (u - x3) % p, p), (slope * T) * (x * (T * T) - X * (T * T)), v, y * (T * T * T), p);
    Scale(slope, T, x, X, y);
  }

  lemma {:induction false} ScaledAbscissa(slope: int, T: int, xs: int)
    ensures (slope * T) * (slope * T) - xs * (T * T) == (slope * slope - xs) * (T * T)
  {
    Interchange(slope, T, slope, T);
  }

  lemma {:induction false} Scale(slope: int, T: int, x: int, X: int, y: int)
    ensures (slope * T) * (x * (T * T) - X * (T * T)) - y * (T * T * T) == (slope * (x - X) - y) * (T * T * T)
  {
    assert x * (T * T) - X * (T * T) == (x - X) * (T * T);
    Interchange(slope, T, x - X, T * T);
  }

  /** Coordinates that scale the affine sum represent it. */
  lemma {:induction false} RepresentsSum(x3: int, y3: int, z3: int, P: Aff, Q: Aff, slope: int, T: int, p: nat)
    requires p > 0 && 0 <= x3 < p && 0 <= y3 < p && 0 < z3 < p && Cong(z3, T, p)
    requires Cong(x3, (slope * slope - (P.x + Q.x)) * (T * T), p)
    requires Cong(y3, (slope * (P.x - (slope * slope - (P.x + Q.x))) - P.y) * (T * T * T), p)
    ensures Represents(Some(Jac(x3, y3, z3)), Some(ThroughSlope(P, Q, slope, p)), p)
  {
    hide Cong;
    var X := slope * slope - (P.x + Q.x);
    var S := ThroughSlope(P, Q, slope, p);
    CongRefl(P.x, p);
    CongRefl(slope, p);
    CongRefl(P.y, p);
    CongMod(X, p);
    CongSub(P.x, P.x, S.x, X, p);
    CongMul(slope, slope, P.x - S.x, P.x - X, p);
    CongSub(slope * (P.x - S.x), slope * (P.x - X), P.y, P.y, p);
    CongMod(slope * (P.x - S.x) - P.y, p);
    CongTrans(S.y, slope * (P.x - S.x) - P.y, slope * (P.x - X) - P.y, p);
    CongMul(z3, T, z3, T, p);
    CongMul(z3 * z3, T * T, z3, T, p);
    CongMul(S.x, X, z3 * z3, T * T, p);
    CongMul(S.y, slope * (P.x - X) - P.y, z3 * z3 * z3, T * T * T, p);
    CongMeet(x3, S.x * (z3 * z3), X * (T * T), p);
    CongMeet(y3, S.y * (z3 * z3 * z3), (slope * (P.x - X) - P.y) * (T * T * T), p);
  }

  /** A denominator prime to p: the slope satisfies its equation. */
  lemma {:induction false} SlopeEquation(num: int, den: int, p: nat)
    requires Prime(p) && den % p != 0
    ensures Cong((num * PowMod(den, p - 2, p)) * den, num, p)
  {
    hide Prime, PowMod, Cong;
    PrimeBound(p);
    ModInvPrime(den, p);
    CongRefl(num, p);
    var inv := PowMod(den, p - 2, p);
    InverseIsPower(den, p);
    InverseCong(inv, den, p);
    CongMul(num, num, inv * den, 1, p);
    Reassociate(num, inv, den);
  }

  lemma {:induction false} Reassociate(a: int, b: int, c: int)
    ensures (a * b) * c == a * (b * c) == (a * c) * b
  {
  }

  lemma {:induction false} InverseCong(inv: int, a: int, p: nat)
    requires p >= 2 && (inv * a) % p == 1
    ensures Cong(inv * a, 1, p)
  {
    Remainder(1, 0, 1, p);
  }

  lemma {:induction false} InverseIsPower(den: int, p: nat)
    requires Prime(p) && den % p != 0
    ensures ModInv(den, p) == Some(PowMod(den, p - 2, p))
  {
    hide PowMod;
    ModInvPrime(den, p);
  }

  // ---- doubling ------------------------------------------------------------

  lemma {:induction false} DoubleScale(X: int, Y: int, Z: int, x: int, y: int, p: nat)
    requires p > 0 && Cong(X, x * (Z * Z), p) && Cong(Y, y * (Z * Z * Z), p)
    ensures var T := 2 * y * (Z * Z * Z * Z);
            var yy := ModMul(Y, Y, p);
            && Cong(ModMul(2, ModMul(Y, Z, p), p), T, p)
            && Cong(ModMul(4, ModMul(X, yy, p), p), x * (T * T), p)
            && Cong(ModMul(8, ModMul(yy, yy, p), p), y * (T * T * T), p)
  {
    hide Cong, ModMul;
    var z2, z3 := Z * Z, Z * Z * Z;
    var T := 2 * y * (Z * Z * Z * Z);
    CongRefl(2, p);
    CongRefl(4, p);
    CongRefl(8, p);
    CongRefl(Z, p);
    ModMulCong(Y, y * z3, Z, Z, p);
    ModMulCong(2, 2, ModMul(Y, Z, p), (y * z3) * Z, p);
    ModMulCong(Y, y * z3, Y, y * z3, p);
    var yy := ModMul(Y, Y, p);
    ModMulCong(X, x * z2, yy, (y * z3) * (y * z3), p);
    ModMulCong(4, 4, ModMul(X, yy, p), (x * z2) * ((y * z3) * (y * z3)), p);
    ModMulCong(yy, (y * z3) * (y * z3), yy, (y * z3) * (y * z3), p);
    ModMulCong(8, 8, ModMul(yy, yy, p), ((y * z3) * (y * z3)) * ((y * z3) * (y * z3)), p);
    DoublePolynomials(x, y, Z);
  }

  lemma {:induction false} DoublePolynomials(x: int, y: int, Z: int)
    ensures var z2, z3, T := Z * Z, Z * Z * Z, 2 * y * (Z * Z * Z * Z);
            && 2 * ((y * z3) * Z) == T
            && 4 * ((x * z2) * ((y * z3) * (y * z3))) == x * (T * T)
            && 8 * (((y * z3) * (y * z3)) * ((y * z3) * (y * z3))) == y * (T * T * T)
  {
    var z2, z3, z4 := Z * Z, Z * Z * Z, Z * Z * Z * Z;
    PowersOfZ(Z);
    Interchange(y, z3, y, z3);
    Interchange(x, z2, y * y, z3 * z3);
    Interchange(2 * y, z4, 2 * y, z4);
    assert x * ((2 * y * z4) * (2 * y * z4)) == x * (((2 * y) * (2 * y)) * (z4 * z4));
    assert 4 * ((x * (y * y)) * (z2 * (z3 * z3))) == x * (((2 * y) * (2 * y)) * (z4 * z4));
    Interchange(y * y, z3 * z3, y * y, z3 * z3);
    Interchange((2 * y) * (2 * y), z4 * z4, 2 * y, z4);
    assert 8 * (((y * y) * (y * y)) * ((z3 * z3) * (z3 * z3)))
        == y * ((((2 * y) * (2 * y)) * (2 * y)) * ((z4 * z4) * z4));
  }

  lemma {:induction false} PowersOfZ(Z: int)
    ensures var z2, z3, z4 := Z * Z, Z * Z * Z, Z * Z * Z * Z;
            && z3 * Z == z4
            && z2 * (z3 * z3) == z4 * z4
            && (z3 * z3) * (z3 * z3) == (z4 * z4) * z4
  {
    var z2, z4 := Z * Z, Z * Z * Z * Z;
    assert z4 == z2 * z2;
    assert (Z * Z * Z) * (Z * Z * Z) == z2 * z2 * z2;
    assert (z2 * z2 * z2) * (z2 * z2 * z2) == ((z2 * z2) * (z2 * z2)) * (z2 * z2);
  }

  lemma {:induction false} DoubleSlope(X: int, Z: int, x: int, y: int, a: int, slope: int, p: nat)
    requires p > 0 && Cong(X, x * (Z * Z), p)
    requires Cong(slope * (2 * y), 3 * (x * x) + a, p)
    ensures Cong(
      (ModMul(3, ModMul(X, X, p), p) + ModMul(a, PowMod(Z, 4, p), p)) % p,
      slope * (2 * y * (Z * Z * Z * Z)), p)
  {
    hide Cong, ModMul, PowMod;
    var z2, z4 := Z * Z, Z * Z * Z * Z;
    CongRefl(3, p);
    CongRefl(a, p);
    CongRefl(z4, p);
    ModMulCong(X, x * z2, X, x * z2, p);
    ModMulCong(3, 3, ModMul(X, X, p), (x * z2) * (x * z2), p);
    PowModCong(Z, 4, p);
    PowFour(Z);
    ModMulCong(a, a, PowMod(Z, 4, p), z4, p);
    var m := ModMul(3, ModMul(X, X, p), p) + ModMul(a, PowMod(Z, 4, p), p);
    CongAdd(ModMul(3, ModMul(X, X, p), p), 3 * ((x * z2) * (x * z2)), ModMul(a, PowMod(Z, 4, p), p), a * z4, p);
    DoubleSlopeTerms(x, z2, a, z4);
    CongMod(m, p);
    CongTrans(m % p, m, (3 * (x * x) + a) * z4, p);
    CongMul(slope * (2 * y), 3 * (x * x) + a, z4, z4, p);
    Reassociate(slope, 2 * y, z4);
    CongMeet2(m % p, (3 * (x * x) + a) * z4, slope * (2 * y * z4), p);
  }

  lemma {:induction false} DoubleSlopeTerms(x: int, z2: int, a: int, z4: int)
    requires z4 == z2 * z2
    ensures 3 * ((x * z2) * (x * z2)) + a * z4 == (3 * (x * x) + a) * z4
  {
    Interchange(x, z2, x, z2);
  }

  lemma {:induction false} CongMeet2(a: int, b: int, c: int, p: nat)
    requires p > 0 && Cong(a, b, p) && Cong(c, b, p)
    ensures Cong(a, c, p)
  {
  }

  lemma {:induction false} PowFour(Z: int)
    ensures Pow(Z, 4) == Z * Z * Z * Z
  {
    assert Pow(Z, 1) == Z * 1;
    assert Pow(Z, 2) == Z * Z;
    assert Pow(Z, 3) == Z * (Z * Z);
    assert Pow(Z, 4) == Z * (Z * (Z * Z));
  }

  lemma {:induction false} NonZeroProduct(a: int, b: int, p: nat)
    requires Prime(p)
    ensures (a * b) % p != 0 <==> a % p != 0 && b % p != 0
  {
    hide Prime;
    PrimeBound(p);
    if (a * b) % p == 0 {
      Euclid(a, b, p);
    }
    if a % p == 0 {
      var k := CongTo(a, 0, p);
      CongFrom(a * b, 0, k * b, p);
    }
    if b % p == 0 {
      var k := CongTo(b, 0, p);
      CongFrom(a * b, 0, a * k, p);
    }
  }

  /** A reduced residue is zero modulo p only if it is zero. */
  lemma {:induction false} ReducedZero(a: int, p: nat)
    requires 0 <= a < p
    ensures a % p == 0 <==> a == 0
  {
    Remainder(a, 0, a, p);
  }

  lemma {:induction false} ScaledZero(Y: int, y: int, Z: int, p: nat)
    requires Prime(p) && 0 < Z < p && 0 <= y < p && 0 <= Y < p
    requires Cong(Y, y * (Z * Z * Z), p)
    ensures Y == 0 <==> y == 0
    ensures (y + y) % p == 0 <==> p == 2 || y == 0
    ensures p != 2 && y != 0 ==> (2 * y) % p != 0 && (2 * y * (Z * Z * Z * Z)) % p != 0
  {
    hide Prime;
    PrimeBound(p);
    ReducedZero(Z, p);
    ReducedZero(y, p);
    ReducedZero(Y, p);
    NonZeroProduct(Z, Z, p);
    NonZeroProduct(Z * Z, Z, p);
    NonZeroProduct(Z * Z * Z, Z, p);
    NonZeroProduct(y, Z * Z * Z, p);
    assert y + y == 2 * y;
    NonZeroProduct(2, y, p);
    if p != 2 {
      ReducedZero(2, p);
      NonZeroProduct(2 * y, Z * Z * Z * Z, p);
    }
  }

  /** jacDouble computes P + P. */
  lemma {:induction false} DoubleRepresents(j: Option<Jac>, P: Point, c: Curve)
    requires Prime(c.p) && c.p != 2 && Represents(j, P, c.p)
    ensures Represents(JacDouble(j, c), Add(P, P, c), c.p)
  {
    hide Prime, PowMod;
    if P.Some? {
      var (J, A, p) := (j.value, P.value, c.p);
      ScaledZero(J.Y, A.y, J.Z, p);
      if A.y == 0 {
        ReducedZero(0, p);
      } else {
        DoubleFinite(J, A, c);
      }
    }
  }

  lemma {:induction false} DoubleFinite(J: Jac, A: Aff, c: Curve)
    requires Prime(c.p) && c.p != 2 && Represents(Some(J), Some(A), c.p) && A.y != 0
    ensures Represents(JacDouble(Some(J), c), Some(ThroughSlope(A, A, Slope(A, A, c), c.p)), c.p)
  {
    hide Prime, PowMod, Cong, ModMul;
    PrimeBound(c.p);
    var (X, Y, Z, p) := (J.X, J.Y, J.Z, c.p);
    ScaledZero(Y, A.y, Z, p);
    var T, slope := 2 * A.y * (Z * Z * Z * Z), Slope(A, A, c);
    SlopeEquation(3 * (A.x * A.x) + c.a, 2 * A.y, p);
    DoubleScale(X, Y, Z, A.x, A.y, p);
    DoubleSlope(X, Z, A.x, A.y, c.a, slope, p);
    var D := JacDouble(Some(J), c).value;
    var yy := ModMul(Y, Y, p);
    var s := ModMul(4, ModMul(X, yy, p), p);
    var m := (ModMul(3, ModMul(X, X, p), p) + ModMul(c.a, PowMod(Z, 4, p), p)) % p;
    var v := ModMul(8, ModMul(yy, yy, p), p);
    CongAdd(s, A.x * (T * T), s, A.x * (T * T), p);
    assert A.x * (T * T) + A.x * (T * T) == (A.x + A.x) * (T * T);
    assert s + s == 2 * s;
    NewCoordinates(m, s, 2 * s, v, D.X, D.Y, slope, A.x, A.y, A.x + A.x, T, p);
    CongNonZero(D.Z, T, p);
    ModMulRange(2, ModMul(Y, Z, p), p);
    RepresentsSum(D.X, D.Y, D.Z, A, A, slope, T, p);
  }

  lemma {:induction false} CongNonZero(a: int, b: int, p: nat)
    requires p > 0 && Cong(a, b, p) && b % p != 0
    ensures a % p != 0
  {
  }

  lemma {:induction false} ModMulRange(a: int, b: int, p: nat)
    requires p > 0
    ensures 0 <= ModMul(a, b, p) < p
    ensures ModMul(a, b, p) % p != 0 ==> ModMul(a, b, p) > 0
  {
    Remainder(0, 0, 0, p);
  }

  // ---- mixed addition ------------------------------------------------------

  lemma {:induction false} AddScale(J: Jac, P: Aff, Q: Aff, p: nat)
    requires p > 0 && Cong(J.X, P.x * (J.Z * J.Z), p) && Cong(J.Y, P.y * (J.Z * J.Z * J.Z), p)
    ensures Cong(MixedH(J, Q, p), (Q.x - P.x) * (J.Z * J.Z), p)
    ensures Cong(MixedR(J, Q, p), (Q.y - P.y) * (J.Z * J.Z * J.Z), p)
  {
    hide Cong, ModMul;
    var Z := J.Z;
    CongRefl(Z, p);
    ModMulCong(Z, Z, Z, Z, p);
    ModMulCong(ModMul(Z, Z, p), Z * Z, Z, Z, p);
    ScaledDifference(ModMul(Z, Z, p), Z * Z, Q.x, P.x, J.X, p);
    ScaledDifference(ModMul(ModMul(Z, Z, p), Z, p), Z * Z * Z, Q.y, P.y, J.Y, p);
  }

  lemma {:induction false} ScaledDifference(zm: int, z: int, q: int, x: int, X: int, p: nat)
    requires p > 0 && Cong(zm, z, p) && Cong(X, x * z, p)
    ensures Cong((ModMul(q, zm, p) - X) % p, (q - x) * z, p)
  {
    hide Cong, ModMul;
    CongRefl(q, p);
    ModMulCong(q, q, zm, z, p);
    ModSubCong(ModMul(q, zm, p), q * z, X, x * z, p);
    assert q * z - x * z == (q - x) * z;
  }

  lemma {:induction false} AddPowers(X: int, Y: int, Z: int, h: int, P: Aff, d: int, p: nat)
    requires p > 0 && Cong(X, P.x * (Z * Z), p) && Cong(Y, P.y * (Z * Z * Z), p)
    requires Cong(h, d * (Z * Z), p)
    ensures var T := d * (Z * Z * Z);
            var h2 := ModMul(h, h, p);
            var h3 := ModMul(h, h2, p);
            && Cong(ModMul(Z, h, p), T, p)
            && Cong(ModMul(X, h2, p), P.x * (T * T), p)
            && Cong(h3, d * (T * T), p)
            && Cong(ModMul(Y, h3, p), P.y * (T * T * T), p)
  {
    hide Cong, ModMul;
    var w, z3 := d * (Z * Z), Z * Z * Z;
    CongRefl(Z, p);
    ModMulCong(Z, Z, h, w, p);
    ModMulCong(h, w, h, w, p);
    var h2 := ModMul(h, h, p);
    ModMulCong(X, P.x * (Z * Z), h2, w * w, p);
    ModMulCong(h, w, h2, w * w, p);
    var h3 := ModMul(h, h2, p);
    ModMulCong(Y, P.y * z3, h3, w * (w * w), p);
    AddPolynomials(P.x, P.y, d, Z);
  }

  lemma {:induction false} AddPolynomials(x: int, y: int, d: int, Z: int)
    ensures var w, z3, T := d * (Z * Z), Z * Z * Z, d * (Z * Z * Z);
            && Z * w == T
            && (x * (Z * Z)) * (w * w) == x * (T * T)
            && w * (w * w) == d * (T * T)
            && (y * z3) * (w * (w * w)) == y * (T * T * T)
  {
    var z2, z3 := Z * Z, Z * Z * Z;
    assert z2 * z2 * z2 == z3 * z3;
  }

  /** The chord's slope, scaled. */
  lemma {:induction false} ChordSlope(r: int, dy: int, d: int, slope: int, z3: int, p: nat)
    requires p > 0 && Cong(r, dy * z3, p) && Cong(slope * d, dy, p)
    ensures Cong(r, slope * (d * z3), p)
  {
    hide Cong;
    CongRefl(z3, p);
    CongMul(slope * d, dy, z3, z3, p);
    Reassociate(slope, d, z3);
    CongMeet2(r, dy * z3, (slope * d) * z3, p);
  }

  /** What the new abscissa subtracts from the slope's square. */
  lemma {:induction false} ChordAbscissae(h3: int, u: int, x1: int, x2: int, t2: int, p: nat)
    requires p > 0 && Cong(h3, (x2 - x1) * t2, p) && Cong(u, x1 * t2, p)
    ensures Cong(h3 + 2 * u, (x1 + x2) * t2, p)
  {
    hide Cong;
    CongAdd(u, x1 * t2, u, x1 * t2, p);
    CongAdd(h3, (x2 - x1) * t2, u + u, x1 * t2 + x1 * t2, p);
    assert (x2 - x1) * t2 + (x1 * t2 + x1 * t2) == (x1 + x2) * t2;
  }

  /** What jacAddMixed returns when h is not zero. */
  lemma {:induction false} MixedFormula(J: Jac, Q: Aff, c: Curve) returns (S: Jac)
    requires J.Z != 0 && MixedH(J, Q, c.p) != 0
    ensures JacAddMixed(Some(J), Some(Q), c) == Some(S)
    ensures var (h, r, p) := (MixedH(J, Q, c.p), MixedR(J, Q, c.p), c.p);
            var h2 := ModMul(h, h, p);
            var h3, u := ModMul(h, h2, p), ModMul(J.X, h2, p);
            && S.X == (ModMul(r, r, p) - (h3 + 2 * u)) % p
            && S.Y == (ModMul(r, (u - S.X) % p, p) - ModMul(J.Y, h3, p)) % p
            && S.Z == ModMul(J.Z, h, p)
  {
    hide ModMul, MixedH, MixedR;
    S := JacAddMixed(Some(J), Some(Q), c).value;
  }

  /** jacAddMixed off the exceptional branch. */
  lemma {:induction false} AddFinite(J: Jac, P: Aff, Q: Aff, c: Curve)
    requires Prime(c.p) && Represents(Some(J), Some(P), c.p) && Reduced(Q, c.p) && P.x != Q.x
    ensures MixedH(J, Q, c.p) != 0
    ensures Represents(JacAddMixed(Some(J), Some(Q), c), Some(ThroughSlope(P, Q, Slope(P, Q, c), c.p)), c.p)
  {
    hide Prime, PowMod, Cong, ModMul, ThroughSlope, JacAddMixed, MixedH, MixedR;
    PrimeBound(c.p);
    var (Z, p) := (J.Z, c.p);
    var d, slope, z3 := Q.x - P.x, Slope(P, Q, c), Z * Z * Z;
    DifferentAbscissae(P.x, Q.x, Z, p);
    SlopeEquation(Q.y - P.y, d, p);
    AddScale(J, P, Q, p);
    var (h, r) := (MixedH(J, Q, p), MixedR(J, Q, p));
    MixedHRange(J, Q, p);
    CongNonZero(h, d * (Z * Z), p);
    ReducedZero(h, p);
    AddPowers(J.X, J.Y, Z, h, P, d, p);
    ChordSlope(r, Q.y - P.y, d, slope, z3, p);
    var h2 := ModMul(h, h, p);
    var h3, u := ModMul(h, h2, p), ModMul(J.X, h2, p);
    ChordAbscissae(h3, u, P.x, Q.x, (d * z3) * (d * z3), p);
    var S := MixedFormula(J, Q, c);
    ModMulRange(Z, h, p);
    AddLands(S, P, Q, r, u, h3 + 2 * u, ModMul(J.Y, h3, p), slope, d * z3, p);
  }

  lemma {:induction false} MixedHRange(J: Jac, Q: Aff, p: nat)
    requires p > 0
    ensures 0 <= MixedH(J, Q, p) < p && 0 <= MixedR(J, Q, p) < p
  {
    hide ModMul;
  }

  /** The coordinates jacAddMixed returns represent the sum once the scaled parts are known. */
  lemma {:induction false} AddLands(
    S: Jac, P: Aff, Q: Aff, r: int, u: int, w: int, v: int, slope: int, T: int, p: nat)
    requires p > 0 && T % p != 0
    requires Cong(r, slope * T, p) && Cong(u, P.x * (T * T), p)
    requires Cong(w, (P.x + Q.x) * (T * T), p) && Cong(v, P.y * (T * T * T), p)
    requires S.X == (ModMul(r, r, p) - w) % p
    requires S.Y == (ModMul(r, (u - S.X) % p, p) - v) % p
    requires 0 <= S.Z < p && Cong(S.Z, T, p)
    ensures Represents(Some(S), Some(ThroughSlope(P, Q, slope, p)), p)
  {
    hide Cong, ModMul, ThroughSlope;
    NewCoordinates(r, u, w, v, S.X, S.Y, slope, P.x, P.y, P.x + Q.x, T, p);
    CongNonZero(S.Z, T, p);
    ReducedZero(S.Z, p);
    RepresentsSum(S.X, S.Y, S.Z, P, Q, slope, T, p);
  }

  lemma {:induction false} DifferentAbscissae(x1: int, x2: int, Z: int, p: nat)
    requires Prime(p) && 0 <= x1 < p && 0 <= x2 < p && x1 != x2 && 0 < Z < p
    ensures (x2 - x1) % p != 0
    ensures ((x2 - x1) * (Z * Z)) % p != 0 && ((x2 - x1) * (Z * Z * Z)) % p != 0
  {
    hide Prime;
    PrimeBound(p);
    if (x2 - x1) % p == 0 {
      var k := CongTo(x2 - x1, 0, p);
      SmallMultiple(k, p);
    }
    ReducedZero(Z, p);
    NonZeroProduct(Z, Z, p);
    NonZeroProduct(Z * Z, Z, p);
    NonZeroProduct(x2 - x1, Z * Z, p);
    NonZeroProduct(x2 - x1, Z * Z * Z, p);
  }

  lemma {:induction false} EqualSquares(P: Aff, Q: Aff, c: Curve)
    requires OnCurve(P, c) && OnCurve(Q, c) && P.x == Q.x
    ensures Cong(P.y * P.y, Q.y * Q.y, c.p)
  {
    hide Rhs;
  }

  /** Two points over one x are equal or opposite. */
  lemma {:induction false} SameAbscissa(P: Aff, Q: Aff, c: Curve)
    requires Prime(c.p) && IsPoint(Some(P), c) && IsPoint(Some(Q), c) && P.x == Q.x
    ensures (P.y + Q.y) % c.p == 0 || P == Q
  {
    hide Prime, OnCurve, Cong;
    PrimeBound(c.p);
    EqualSquares(P, Q, c);
    TwoRoots(P.y, Q.y, c.p);
    EqualOrOpposite(P.y, Q.y, c.p);
  }

  lemma {:induction false} EqualOrOpposite(a: int, b: int, p: nat)
    requires 0 <= a < p && 0 <= b < p && (Cong(a, b, p) || Cong(a, -b, p))
    ensures a == b || (a + b) % p == 0
  {
    if Cong(a, b, p) {
      Remainder(a, 0, a, p);
      Remainder(b, 0, b, p);
    } else {
      var k := CongTo(a, -b, p);
      Remainder(a + b, k, 0, p);
    }
  }

  /** The exceptional branch: h is zero when the abscissae agree, and then r tells P from -P. */
  lemma {:induction false} AddSameAbscissa(J: Jac, P: Aff, Q: Aff, c: Curve)
    requires Prime(c.p) && Represents(Some(J), Some(P), c.p) && Reduced(Q, c.p) && P.x == Q.x
    ensures MixedH(J, Q, c.p) == 0
    ensures MixedR(J, Q, c.p) == 0 <==> P.y == Q.y
  {
    hide Prime, ModMul, MixedH, MixedR;
    PrimeBound(c.p);
    var p, Z := c.p, J.Z;
    AddScale(J, P, Q, p);
    assert (Q.x - P.x) * (Z * Z) == 0;
    Remainder(0, 0, 0, p);
    MixedHRange(J, Q, p);
    ReducedZero(MixedH(J, Q, p), p);
    ReducedZero(MixedR(J, Q, p), p);
    if P.y == Q.y {
      assert (Q.y - P.y) * (Z * Z * Z) == 0;
    } else {
      DifferentAbscissae(P.y, Q.y, Z, p);
    }
  }

  /**
   * The affine sum that jacAddMixed computes for any coordinates: over one abscissa,
   * ordinates that differ give infinity, as if they were opposite.
   */
  function MixedSum(P: Point, Q: Point, c: Curve): Point
  {
    if P.Some? && Q.Some? && P.value.x == Q.value.x && P.value.y != Q.value.y then None else Add(P, Q, c)
  }

  /** jacAddMixed represents that sum, on the curve or off it. */
  lemma {:induction false} AddRepresents(j: Option<Jac>, P: Point, Q: Point, c: Curve)
    requires Prime(c.p) && c.p != 2 && Represents(j, P, c.p) && (Q.Some? ==> Reduced(Q.value, c.p))
    ensures Represents(JacAddMixed(j, Q, c), MixedSum(P, Q, c), c.p)
  {
    hide Prime, OnCurve, JacDouble, ModMul;
    PrimeBound(c.p);
    if Q.Some? && P.None? {
      assert Q.value.x * (1 * 1) == Q.value.x && Q.value.y * (1 * 1 * 1) == Q.value.y;
    } else if Q.Some? {
      var (J, A, B) := (j.value, P.value, Q.value);
      if A.x != B.x {
        AddFinite(J, A, B, c);
      } else {
        AddSameAbscissa(J, A, B, c);
        if A.y == B.y {
          DoubleRepresents(j, P, c);
        }
      }
    }
  }

  /** It is the chord-and-tangent sum exactly where ordinates over one abscissa are equal or opposite. */
  lemma {:induction false} MixedSumExact(P: Point, Q: Point, c: Curve)
    ensures MixedSum(P, Q, c) == Add(P, Q, c)
       <==> !(P.Some? && Q.Some? && P.value.x == Q.value.x && P.value.y != Q.value.y
              && (P.value.y + Q.value.y) % c.p != 0)
  {
    hide Slope, ThroughSlope;
  }

  /** So it is for points of the curve. */
  lemma {:induction false} MixedSumOnCurve(P: Point, Q: Point, c: Curve)
    requires Prime(c.p) && IsPoint(P, c) && IsPoint(Q, c)
    ensures MixedSum(P, Q, c) == Add(P, Q, c)
  {
    MixedSumExact(P, Q, c);
    hide Prime, OnCurve, Add;
    if P.Some? && Q.Some? && P.value.x == Q.value.x {
      SameAbscissa(P.value, Q.value, c);
    }
  }

  /** h is zero exactly when the abscissae agree. */
  lemma {:induction false} MixedHZero(J: Jac, P: Aff, Q: Aff, c: Curve)
    requires Prime(c.p) && Represents(Some(J), Some(P), c.p) && Reduced(Q, c.p)
    ensures MixedH(J, Q, c.p) == 0 <==> P.x == Q.x
  {
    hide Prime, Represents, JacAddMixed, MixedH, ModMul;
    if P.x == Q.x {
      AddSameAbscissa(J, P, Q, c);
    } else {
      AddFinite(J, P, Q, c);
    }
  }

  lemma {:induction false} MixedSumReduced(P: Point, Q: Point, c: Curve)
    requires (P.Some? ==> Reduced(P.value, c.p)) && (Q.Some? ==> Reduced(Q.value, c.p))
    ensures MixedSum(P, Q, c).Some? ==> Reduced(MixedSum(P, Q, c).value, c.p)
    ensures Add(P, Q, c).Some? ==> Reduced(Add(P, Q, c).value, c.p)
  {
    hide Slope;
  }

  /** fromJac finds the affine point. */
  lemma {:induction false} FromJacRepresents(j: Option<Jac>, P: Point, p: nat)
    requires Prime(p) && Represents(j, P, p)
    ensures FromJac(j, p) == P
  {
    hide Prime, PowMod;
    PrimeBound(p);
    if P.Some? {
      var (J, A) := (j.value, P.value);
      ReducedZero(J.Z, p);
      ModInvPrime(J.Z, p);
      hide ModInv, ModMul, Cong;
      var inv := ModInv(J.Z, p).value;
      InverseScales(inv, J.Z, p);
      var z2 := ModMul(inv, inv, p);
      ModMulCong(J.X, A.x * (J.Z * J.Z), z2, inv * inv, p);
      UnscaledBy(ModMul(J.X, z2, p), A.x, J.Z * J.Z, inv * inv, p);
      ModMulCong(J.Y, A.y * (J.Z * J.Z * J.Z), ModMul(z2, inv, p), inv * inv * inv, p);
      UnscaledBy(ModMul(J.Y, ModMul(z2, inv, p), p), A.y, J.Z * J.Z * J.Z, inv * inv * inv, p);
      ModMulRange(J.X, z2, p);
      ModMulRange(J.Y, ModMul(z2, inv, p), p);
    }
  }

  lemma {:induction false} InverseScales(inv: int, Z: int, p: nat)
    requires p >= 2 && (inv * Z) % p == 1
    ensures Cong((Z * Z) * (inv * inv), 1, p)
    ensures Cong((Z * Z * Z) * (inv * inv * inv), 1, p)
    ensures Cong(ModMul(inv, inv, p), inv * inv, p)
    ensures Cong(ModMul(ModMul(inv, inv, p), inv, p), inv * inv * inv, p)
  {
    hide ModMul;
    CongRefl(inv, p);
    ModMulCong(inv, inv, inv, inv, p);
    ModMulCong(ModMul(inv, inv, p), inv * inv, inv, inv, p);
    Remainder(1, 0, 1, p);
    CongMul(inv * Z, 1, inv * Z, 1, p);
    CongMul((inv * Z) * (inv * Z), 1, inv * Z, 1, p);
    Interchange(Z, Z, inv, inv);
    Interchange(Z * Z, Z, inv * inv, inv);
    Interchange(inv, Z, inv, Z);
    Interchange(inv * inv, Z * Z, inv, Z);
  }

  lemma {:induction false} UnscaledBy(m: int, v: int, z: int, i: int, p: nat)
    requires p > 0 && Cong(z * i, 1, p) && Cong(m, (v * z) * i, p) && 0 <= v < p && 0 <= m < p
    ensures m == v
  {
    CongMul(v, v, z * i, 1, p);
    assert (v * z) * i == v * (z * i);
    Remainder(v, 0, v, p);
    Remainder(m, 0, m, p);
  }

  // ---- the sum is a point of the curve -------------------------------------

  /** The curve equation on integers, modulo p. */
  predicate OnCubic(x: int, y: int, c: Curve) { Cong(y * y, x * (x * x) + c.a * x + c.b, c.p) }

  lemma {:induction false} OnCurveIsOnCubic(pt: Aff, c: Curve)
    ensures OnCurve(pt, c) <==> OnCubic(pt.x, pt.y, c)
  {
    hide Cong, ModMul;
    var (x, y, p) := (pt.x, pt.y, c.p);
    CongRefl(x, p);
    CongRefl(y, p);
    CongRefl(c.a, p);
    CongRefl(c.b, p);
    ModMulCong(y, y, y, y, p);
    ModMulCong(x, x, x, x, p);
    ModMulCong(x, x, ModMul(x, x, p), x * x, p);
    ModMulCong(c.a, c.a, x, x, p);
    CongAdd(ModMul(x, ModMul(x, x, p), p), x * (x * x), ModMul(c.a, x, p), c.a * x, p);
    var sum := ModMul(x, ModMul(x, x, p), p) + ModMul(c.a, x, p);
    CongAdd(sum, x * (x * x) + c.a * x, c.b, c.b, p);
    CongMod(sum + c.b, p);
    CongTrans(Rhs(x, c), sum + c.b, x * (x * x) + c.a * x + c.b, p);
    ModMulRange(y, y, p);
    SameResidue(ModMul(y, y, p), Rhs(x, c), y * y, x * (x * x) + c.a * x + c.b, p);
  }

  /** Residues are equal exactly when what they are residues of is congruent. */
  lemma {:induction false} SameResidue(a: int, b: int, a': int, b': int, p: nat)
    requires p > 0 && Cong(a, a', p) && Cong(b, b', p) && 0 <= a < p && 0 <= b < p
    ensures a == b <==> Cong(a', b', p)
  {
    Remainder(a, 0, a, p);
    Remainder(b, 0, b, p);
  }

  lemma {:induction false} OnCubicCong(x: int, x': int, y: int, y': int, c: Curve)
    requires Cong(x, x', c.p) && Cong(y, y', c.p) && OnCubic(x', y', c)
    ensures OnCubic(x, y, c)
  {
    hide Cong;
    var p := c.p;
    CongRefl(c.a, p);
    CongRefl(c.b, p);
    CongMul(y, y', y, y', p);
    CongMul(x, x', x, x', p);
    CongMul(x, x', x * x, x' * x', p);
    CongMul(c.a, c.a, x, x', p);
    CongAdd(x * (x * x), x' * (x' * x'), c.a * x, c.a * x', p);
    CongAdd(x * (x * x) + c.a * x, x' * (x' * x') + c.a * x', c.b, c.b, p);
    CongTrans(y * y, y' * y', x' * (x' * x') + c.a * x' + c.b, p);
    CongMeet(y * y, x * (x * x) + c.a * x + c.b, x' * (x' * x') + c.a * x' + c.b, p);
  }

  /** A root of a monic cubic, by its symmetric functions. */
  lemma {:induction false} CubicRoot(x: int, y: int, z: int)
    ensures x * (x * x) - (x + y + z) * (x * x) + (x * y + x * z + y * z) * x - (x * y) * z == 0
  {
    assert (x + y + z) * (x * x) == x * (x * x) + y * (x * x) + z * (x * x);
    assert (x * y + x * z + y * z) * x == (x * y) * x + (x * z) * x + (y * z) * x;
    assert (x * y) * x == y * (x * x) && (x * z) * x == z * (x * x) && (y * z) * x == (x * y) * z;
  }

  lemma {:induction false} LineSquared(L: int, x: int, w: int)
    ensures (L * x + w) * (L * x + w) == (L * L) * (x * x) + (2 * (L * w)) * x + w * w
  {
    Interchange(L, x, L, x);
    assert (L * x + w) * (L * x + w) == (L * x) * (L * x) + 2 * ((L * x) * w) + w * w;
    assert (L * x) * w == (L * w) * x;
  }

  /**
   * Where the line y = L x + w has three abscissae with L^2 for their sum, the cubic less
   * the line's square is linear at each of them.
   */
  lemma {:induction false} CubicLessLine(x: int, y: int, z: int, L: int, w: int, a: int, b: int)
    requires L * L == x + y + z
    ensures x * (x * x) + a * x + b - (L * x + w) * (L * x + w)
         == (a - 2 * (L * w) - (x * y + x * z + y * z)) * x + (b - w * w + (x * y) * z)
  {
    CubicRoot(x, y, z);
    LineSquared(L, x, w);
    var s2 := x * y + x * z + y * z;
    assert (a - 2 * (L * w) - s2) * x == a * x - (2 * (L * w)) * x - s2 * x;
  }

  /** A linear form that vanishes at two abscissae apart modulo p vanishes everywhere. */
  lemma {:induction false} LineVanishes(A: int, B: int, x1: int, x2: int, x3: int, p: nat)
    requires Prime(p) && (x2 - x1) % p != 0
    requires Cong(A * x1 + B, 0, p) && Cong(A * x2 + B, 0, p)
    ensures Cong(A * x3 + B, 0, p)
  {
    hide Prime, Cong;
    PrimeBound(p);
    CongSub(A * x2 + B, 0, A * x1 + B, 0, p);
    assert A * x2 + B - (A * x1 + B) == (x2 - x1) * A;
    ZeroCong((x2 - x1) * A, p);
    Euclid(x2 - x1, A, p);
    ZeroCong(A, p);
    FlatVanishes(A, B, x1, x3, p);
  }

  /** A constant that vanishes somewhere vanishes everywhere. */
  lemma {:induction false} FlatVanishes(A: int, B: int, x1: int, x3: int, p: nat)
    requires p > 0 && Cong(A, 0, p) && Cong(A * x1 + B, 0, p)
    ensures Cong(A * x3 + B, 0, p)
  {
    hide Cong;
    CongRefl(x3 - x1, p);
    CongMul(A, 0, x3 - x1, x3 - x1, p);
    CongAdd(A * x1 + B, 0, A * (x3 - x1), 0 * (x3 - x1), p);
    assert A * x1 + B + A * (x3 - x1) == A * x3 + B;
  }

  lemma {:induction false} ZeroCong(a: int, p: nat)
    requires p > 0
    ensures Cong(a, 0, p) <==> a % p == 0
  {
    Remainder(0, 0, 0, p);
  }

  /** The third abscissa of a line through x1 and x2, and what stays linear there. */
  lemma {:induction false} ThirdPoint(x1: int, y1: int, x2: int, L: int, c: Curve) returns (A: int, B: int)
    ensures var x3, w := L * L - x1 - x2, y1 - L * x1;
            && A == c.a - 2 * (L * w) - (x1 * x2 + x1 * x3 + x2 * x3)
            && x1 * (x1 * x1) + c.a * x1 + c.b - y1 * y1 == A * x1 + B
            && x2 * (x2 * x2) + c.a * x2 + c.b - (L * x2 + w) * (L * x2 + w) == A * x2 + B
            && x3 * (x3 * x3) + c.a * x3 + c.b - (L * x3 + w) * (L * x3 + w) == A * x3 + B
  {
    var x3, w := L * L - x1 - x2, y1 - L * x1;
    A := c.a - 2 * (L * w) - (x1 * x2 + x1 * x3 + x2 * x3);
    B := c.b - w * w + (x1 * x2) * x3;
    CubicLessLine(x1, x2, x3, L, w, c.a, c.b);
    CubicLessLine(x2, x1, x3, L, w, c.a, c.b);
    CubicLessLine(x3, x1, x2, L, w, c.a, c.b);
    Symmetric(x1, x2, x3);
    assert L * x1 + w == y1;
  }

  lemma {:induction false} Symmetric(x: int, y: int, z: int)
    ensures y * x + y * z + x * z == x * y + x * z + y * z && (y * x) * z == (x * y) * z
    ensures z * x + z * y + x * y == x * y + x * z + y * z && (z * x) * y == (x * y) * z
  {
  }

  /** A point and a slope that make the linear remainder vanish at the third abscissa. */
  lemma {:induction false} ThirdOnCurve(P: Aff, Q: Aff, L: int, A: int, B: int, c: Curve)
    requires var x3, w := L * L - P.x - Q.x, P.y - L * P.x;
             && x3 * (x3 * x3) + c.a * x3 + c.b - (L * x3 + w) * (L * x3 + w) == A * x3 + B
             && Cong(A * x3 + B, 0, c.p)
    ensures OnCurve(ThroughSlope(P, Q, L, c.p), c)
  {
    hide Cong, OnCurve, OnCubic, ThroughSlope;
    var x3, w := L * L - P.x - Q.x, P.y - L * P.x;
    VanishedOnCubic(x3, L * x3 + w, A * x3 + B, c);
    ReflectedOrdinate(P, Q, L, c.p);
    ReflectedLine(L, P.x, P.y, x3);
    SumOnCubic(ThroughSlope(P, Q, L, c.p), x3, -(L * x3 + w), c);
  }

  lemma {:induction false} ReflectedLine(L: int, x: int, y: int, x3: int)
    ensures L * (x - x3) - y == -(L * x3 + (y - L * x))
  {
  }

  lemma {:induction false} SumOnCubic(S: Aff, x: int, y: int, c: Curve)
    requires Cong(S.x, x, c.p) && Cong(S.y, y, c.p) && OnCubic(x, y, c)
    ensures OnCurve(S, c)
  {
    hide Cong, OnCurve, OnCubic;
    OnCubicCong(S.x, x, S.y, y, c);
    OnCurveIsOnCubic(S, c);
  }

  /** The cubic and the line's square agree where their difference vanishes. */
  lemma {:induction false} VanishedOnCubic(x: int, v: int, r: int, c: Curve)
    requires x * (x * x) + c.a * x + c.b - v * v == r && Cong(r, 0, c.p)
    ensures OnCubic(x, -v, c)
  {
    hide Cong;
    CongRefl(v * v, c.p);
    CongAdd(v * v, v * v, r, 0, c.p);
    CongSym(x * (x * x) + c.a * x + c.b, v * v, c.p);
    assert (-v) * (-v) == v * v;
  }

  /** The computed sum stands over the third abscissa, with the line's ordinate reflected. */
  lemma {:induction false} ReflectedOrdinate(P: Aff, Q: Aff, L: int, p: pos)
    ensures var x3, S := L * L - P.x - Q.x, ThroughSlope(P, Q, L, p);
            Cong(S.x, x3, p) && Cong(S.y, L * (P.x - x3) - P.y, p)
  {
    hide Cong;
    var x3, S := L * L - P.x - Q.x, ThroughSlope(P, Q, L, p);
    CongMod(x3, p);
    CongRefl(P.x, p);
    CongRefl(L, p);
    CongRefl(P.y, p);
    CongSub(P.x, P.x, S.x, x3, p);
    CongMul(L, L, P.x - S.x, P.x - x3, p);
    CongSub(L * (P.x - S.x), L * (P.x - x3), P.y, P.y, p);
    CongMod(L * (P.x - S.x) - P.y, p);
    CongTrans(S.y, L * (P.x - S.x) - P.y, L * (P.x - x3) - P.y, p);
  }

  lemma {:induction false} CongSym(a: int, b: int, p: nat)
    requires p > 0 && Cong(a, b, p)
    ensures Cong(b, a, p)
  {
  }

  /** A point of the curve makes the linear remainder vanish at its abscissa. */
  lemma {:induction false} RemainderVanishes(x: int, y: int, y': int, r: int, c: Curve)
    requires OnCubic(x, y, c) && Cong(y', y, c.p) && r == x * (x * x) + c.a * x + c.b - y' * y'
    ensures Cong(r, 0, c.p)
  {
    hide Cong;
    var (p, rhs) := (c.p, x * (x * x) + c.a * x + c.b);
    CongMul(y', y, y', y, p);
    CongTrans(y' * y', y * y, rhs, p);
    CongRefl(rhs, p);
    CongSub(rhs, rhs, y' * y', rhs, p);
  }

  /** The chord through two points of the curve meets it again in a point of the curve. */
  lemma {:induction false} ChordOnCurve(P: Aff, Q: Aff, L: int, c: Curve)
    requires Prime(c.p) && OnCurve(P, c) && OnCurve(Q, c) && (Q.x - P.x) % c.p != 0
    requires Cong(L * (Q.x - P.x), Q.y - P.y, c.p)
    ensures OnCurve(ThroughSlope(P, Q, L, c.p), c)
  {
    hide Prime, Cong, OnCurve, OnCubic;
    var (p, w) := (c.p, P.y - L * P.x);
    OnCurveIsOnCubic(P, c);
    OnCurveIsOnCubic(Q, c);
    var A, B := ThirdPoint(P.x, P.y, Q.x, L, c);
    CongRefl(P.y, p);
    RemainderVanishes(P.x, P.y, P.y, A * P.x + B, c);
    CongAdd(L * (Q.x - P.x), Q.y - P.y, P.y, P.y, p);
    assert L * (Q.x - P.x) + P.y == L * Q.x + w;
    RemainderVanishes(Q.x, Q.y, L * Q.x + w, A * Q.x + B, c);
    LineVanishes(A, B, P.x, Q.x, L * L - P.x - Q.x, p);
    ThirdOnCurve(P, Q, L, A, B, c);
  }

  /** So does the tangent at one point. */
  lemma {:induction false} TangentOnCurve(P: Aff, L: int, c: Curve)
    requires OnCurve(P, c) && Cong(L * (2 * P.y), 3 * (P.x * P.x) + c.a, c.p)
    ensures OnCurve(ThroughSlope(P, P, L, c.p), c)
  {
    hide Cong, OnCurve, OnCubic;
    var (p, x) := (c.p, P.x);
    OnCurveIsOnCubic(P, c);
    var A, B := ThirdPoint(x, P.y, x, L, c);
    CongRefl(P.y, p);
    RemainderVanishes(x, P.y, P.y, A * x + B, c);
    TangentRemainder(x, P.y, L, c.a);
    CongRefl(3 * (x * x) + c.a, p);
    CongSub(3 * (x * x) + c.a, 3 * (x * x) + c.a, L * (2 * P.y), 3 * (x * x) + c.a, p);
    FlatVanishes(A, B, x, L * L - x - x, p);
    ThirdOnCurve(P, P, L, A, B, c);
  }

  /** The linear coefficient at a double abscissa is the derivative. */
  lemma {:induction false} TangentRemainder(x: int, y: int, L: int, a: int)
    ensures var x3, w := L * L - x - x, y - L * x;
            a - 2 * (L * w) - (x * x + x * x3 + x * x3) == 3 * (x * x) + a - L * (2 * y)
  {
    assert L * (y - L * x) == L * y - (L * L) * x;
    assert x * (L * L - x - x) == (L * L) * x - 2 * (x * x);
  }

  /** Chord-and-tangent addition stays on the curve. */
  lemma {:induction false} AddCloses(P: Point, Q: Point, c: Curve)
    requires Prime(c.p) && c.p != 2 && IsPoint(P, c) && IsPoint(Q, c)
    ensures IsPoint(Add(P, Q, c), c)
  {
    hide Prime, OnCurve, Slope, ThroughSlope, PowMod;
    if P.Some? && Q.Some? && Add(P, Q, c).Some? {
      SumReduced(P.value, Q.value, Slope(P.value, Q.value, c), c.p);
      if P.value.x == Q.value.x {
        SameAbscissa(P.value, Q.value, c);
        DoubleCloses(P.value, c);
      } else {
        ChordCloses(P.value, Q.value, c);
      }
    }
  }

  lemma {:induction false} SumReduced(P: Aff, Q: Aff, L: int, p: pos)
    ensures Reduced(ThroughSlope(P, Q, L, p), p)
  {
  }

  lemma {:induction false} DoubleCloses(P: Aff, c: Curve)
    requires Prime(c.p) && c.p != 2 && IsPoint(Some(P), c) && (P.y + P.y) % c.p != 0
    ensures OnCurve(ThroughSlope(P, P, Slope(P, P, c), c.p), c)
  {
    hide Prime, OnCurve, ThroughSlope, PowMod, Cong;
    assert P.y + P.y == 2 * P.y;
    SlopeEquation(3 * (P.x * P.x) + c.a, 2 * P.y, c.p);
    TangentOnCurve(P, Slope(P, P, c), c);
  }

  lemma {:induction false} ChordCloses(P: Aff, Q: Aff, c: Curve)
    requires Prime(c.p) && IsPoint(Some(P), c) && IsPoint(Some(Q), c) && P.x != Q.x
    ensures OnCurve(ThroughSlope(P, Q, Slope(P, Q, c), c.p), c)
  {
    hide Prime, OnCurve, ThroughSlope, PowMod, Cong;
    PrimeBound(c.p);
    DifferentAbscissae(P.x, Q.x, 1, c.p);
    SlopeEquation(Q.y - P.y, Q.x - P.x, c.p);
    ChordOnCurve(P, Q, Slope(P, Q, c), c);
  }

  // ---- coordinates that are not reduced ------------------------------------

  /** The same point with both coordinates taken modulo p. */
  function Reduce(P: Point, p: nat): Point
    requires p > 0
  {
    if P.None? then None else Some(Aff(P.value.x % p, P.value.y % p))
  }

  /** As Represents, but X and Y may be any integers, and infinity may also be a zero Z. */
  predicate Stands(j: Option<Jac>, P: Point, p: nat)
    requires p > 0
  {
    match (j, P)
    case (None, None) => true
    case (Some(J), None) => J.Z == 0
    case (Some(J), Some(A)) => Represents(Some(Jac(J.X % p, J.Y % p, J.Z)), P, p)
    case _ => false
  }

  lemma {:induction false} RepresentsStands(j: Option<Jac>, P: Point, p: nat)
    requires p > 0 && Represents(j, P, p)
    ensures Stands(j, P, p)
  {
    hide Cong;
    if j.Some? {
      Remainder(j.value.X, 0, j.value.X, p);
      Remainder(j.value.Y, 0, j.value.Y, p);
    }
  }

  lemma {:induction false} StartRepresents(P: Aff, p: nat)
    requires p >= 2 && Reduced(P, p)
    ensures Represents(Some(Jac(P.x, P.y, 1)), Some(P), p)
  {
    assert P.x * (1 * 1) == P.x && P.y * (1 * 1 * 1) == P.y;
  }

  /** Any affine coordinates stand for the reduced point. */
  lemma {:induction false} StartStands(P: Aff, p: nat)
    requires p >= 2
    ensures Stands(Some(Jac(P.x, P.y, 1)), Reduce(Some(P), p), p)
  {
    hide Represents;
    StartRepresents(Aff(P.x % p, P.y % p), p);
  }

  lemma {:induction false} ModMulReduced(a: int, b: int, p: nat)
    requires p > 0
    ensures ModMul(a % p, b, p) == ModMul(a, b, p)
    ensures ModMul(a % p, a % p, p) == ModMul(a, a, p)
  {
    CongMod(a, p);
    CongRefl(b, p);
    CongMul(a % p, a, b, b, p);
    CongMul(a % p, a, a % p, a, p);
  }

  /** fromJac reduces. */
  lemma {:induction false} FromJacStands(j: Option<Jac>, P: Point, p: nat)
    requires Prime(p) && Stands(j, P, p)
    ensures FromJac(j, p) == P
  {
    hide Prime, Represents, ModInv, ModMul;
    PrimeBound(p);
    if P.Some? {
      var J := j.value;
      var red := Some(Jac(J.X % p, J.Y % p, J.Z));
      FromJacRepresents(red, P, p);
      if J.Z != 0 && ModInv(J.Z, p).Some? {
        var inv := ModInv(J.Z, p).value;
        var z2 := ModMul(inv, inv, p);
        ModMulReduced(J.X, z2, p);
        ModMulReduced(J.Y, ModMul(z2, inv, p), p);
      }
    }
  }

  /** The doubling formulas see X and Y modulo p only, except for the test of Y against 0. */
  lemma {:induction false} DoubleReduces(J: Jac, c: Curve)
    requires J.Y % c.p != 0
    ensures JacDouble(Some(J), c) == JacDouble(Some(Jac(J.X % c.p, J.Y % c.p, J.Z)), c)
  {
    hide ModMul, PowMod, Doubled;
    var p := c.p;
    assert J.Y != 0 by { Remainder(0, 0, 0, p); }
    ModMulReduced(J.Y, J.Z, p);
    ModMulReduced(J.X, ModMul(J.Y, J.Y, p), p);
  }

  /** Where Y is a non-zero multiple of p, doubling returns a zero Z in place of null. */
  lemma {:induction false} DoubleOfMultiple(J: Jac, c: Curve)
    requires J.Y % c.p == 0
    ensures JacDouble(Some(J), c).Some? ==> JacDouble(Some(J), c).value.Z == 0
  {
    hide PowMod;
    ZeroFactor(J.Y, J.Z, c.p);
    Remainder(0, 0, 0, c.p);
  }

  /** jacDouble computes the double of the reduced point for any coordinates. */
  lemma {:induction false} DoubleStands(j: Option<Jac>, P: Point, c: Curve)
    requires Prime(c.p) && c.p != 2 && Stands(j, P, c.p)
    ensures Stands(JacDouble(j, c), Add(P, P, c), c.p)
  {
    hide Prime, Represents, Add;
    PrimeBound(c.p);
    if P.Some? {
      hide JacDouble;
      var J := j.value;
      var red := Some(Jac(J.X % c.p, J.Y % c.p, J.Z));
      DoubleRepresents(red, P, c);
      if J.Y % c.p == 0 {
        DoubleOfMultiple(J, c);
        NullAtZeroY(red.value, Add(P, P, c), c);
      } else {
        DoubleReduces(J, c);
        RepresentsStands(JacDouble(red, c), Add(P, P, c), c.p);
      }
    } else {
      NothingDoubles(j, c);
    }
  }

  lemma {:induction false} NothingDoubles(j: Option<Jac>, c: Curve)
    requires j.Some? ==> j.value.Z == 0
    ensures JacDouble(j, c) == None && Add(None, None, c) == None
  {
  }

  lemma {:induction false} NullAtZeroY(J: Jac, D: Point, c: Curve)
    requires J.Y == 0 && Represents(JacDouble(Some(J), c), D, c.p)
    ensures D == None
  {
  }
}

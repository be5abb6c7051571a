/**
 * Scalar multiplication (ecdsa/recover.js pointMultiply) on a curve whose addition
 * associates and whose odd prime order kills every point: what is taken as given of it.
 */
module CurveGroup {
  import opened Bytes
  import opened NumberTheory
  import opened Curve

  // ---- what is assumed of a curve ------------------------------------------

  ghost predicate Associates(P: Point, Q: Point, R: Point, c: Curve)
  {
    IsPoint(P, c) && IsPoint(Q, c) && IsPoint(R, c) ==>
      Add(Add(P, Q, c), R, c) == Add(P, Add(Q, R, c), c)
  }

  ghost predicate HasOrder(P: Point, c: Curve)
  {
    IsPoint(P, c) ==> Times(c.order, P, c) == None
  }

  /**
   * p is a prime 3 mod 4, chord-and-tangent addition associates, an odd prime order takes
   * every point to infinity (cofactor 1), the base point is on the curve, and both numbers
   * fit 32 bytes. True of both curves in ecdsa/curves.js; not proved here.
   */
  ghost predicate ValidCurve(c: Curve) {
    && Prime(c.p) && c.p % 4 == 3 && Prime(c.order) && c.order % 2 == 1
    && FitsWords(c)
    && IsPoint(Some(c.G), c)
    && (forall P, Q, R :: Associates(P, Q, R, c))
    && (forall P :: HasOrder(P, c))
  }

  /** Coordinates and scalars fit 32 bytes. */
  ghost predicate FitsWords(c: Curve) {
    c.p <= Pow256(32) && c.order <= Pow256(32)
  }

  lemma {:induction false} CurveNumbers(c: Curve)
    requires ValidCurve(c)
    ensures Prime(c.p) && c.p >= 3 && c.p % 2 == 1 && c.p % 4 == 3
    ensures Prime(c.order) && c.order >= 3 && c.order % 2 == 1
    ensures FitsWords(c)
    ensures IsPoint(Some(c.G), c)
  {
    hide FitsWords;
  }

  lemma {:induction false} GroupLaw(P: Point, Q: Point, R: Point, c: Curve)
    requires ValidCurve(c) && IsPoint(P, c) && IsPoint(Q, c) && IsPoint(R, c)
    ensures IsPoint(Add(P, Q, c), c)
    ensures Add(Add(P, Q, c), R, c) == Add(P, Add(Q, R, c), c)
  {
    hide Prime, OnCurve, Add, IsPoint, FitsWords;
    AddCloses(P, Q, c);
    assert Associates(P, Q, R, c);
  }

  lemma {:induction false} GroupOrder(P: Point, c: Curve)
    requires ValidCurve(c) && IsPoint(P, c)
    ensures Times(c.order, P, c) == None
  {
    hide Prime, OnCurve, Add, IsPoint, Times, FitsWords;
    assert HasOrder(P, c);
  }

  // ---- multiples -----------------------------------------------------------

  lemma {:induction false} TimesIsPoint(k: nat, P: Point, c: Curve)
    requires ValidCurve(c) && IsPoint(P, c)
    ensures IsPoint(Times(k, P, c), c)
  {
    hide ValidCurve, FitsWords, Add, OnCurve;
    CurveNumbers(c);
    if k != 0 {
      TimesIsPoint(k - 1, P, c);
      GroupLaw(Times(k - 1, P, c), P, P, c);
    }
  }

  lemma {:induction false} TimesSum(j: nat, k: nat, P: Point, c: Curve)
    requires ValidCurve(c) && IsPoint(P, c)
    ensures Times(j + k, P, c) == Add(Times(j, P, c), Times(k, P, c), c)
  {
    hide ValidCurve, FitsWords, OnCurve, IsPoint;
    CurveNumbers(c);
    if k != 0 {
      hide Add;
      TimesSum(j, k - 1, P, c);
      TimesIsPoint(j, P, c);
      TimesIsPoint(k - 1, P, c);
      GroupLaw(Times(j, P, c), Times(k - 1, P, c), P, c);
    }
  }

  /** Multiplication of naturals, as one term. */
  function Mul(a: nat, b: nat): (r: nat)
    ensures r == a * b
  {
    a * b
  }

  lemma {:induction false} TimesProduct(j: nat, k: nat, P: Point, c: Curve)
    requires ValidCurve(c) && IsPoint(P, c)
    ensures Times(Mul(j, k), P, c) == Times(j, Times(k, P, c), c)
  {
    hide ValidCurve, FitsWords, OnCurve, IsPoint, Add;
    CurveNumbers(c);
    if j != 0 {
      LastFactor(j, k);
      TimesProduct(j - 1, k, P, c);
      TimesSum(Mul(j - 1, k), k, P, c);
    } else {
      assert Mul(0, k) == 0;
    }
  }

  lemma {:induction false} LastFactor(j: nat, k: nat)
    requires j > 0
    ensures Mul(j - 1, k) + k == Mul(j, k)
  {
  }

  lemma {:induction false} TimesOfNone(k: nat, c: Curve)
    ensures Times(k, None, c) == None
  {
    if k != 0 {
      TimesOfNone(k - 1, c);
    }
  }

  lemma {:induction false} TimesOne(P: Point, c: Curve)
    ensures Times(1, P, c) == P
  {
    assert Times(0, P, c) == None;
  }

  lemma {:induction false} TimesDropsOrder(k: nat, q: nat, r: nat, P: Point, c: Curve)
    requires k == q * c.order + r && ValidCurve(c) && IsPoint(P, c)
    ensures Times(k, P, c) == Times(r, P, c)
  {
    hide ValidCurve, FitsWords, OnCurve, IsPoint, Prime, Times;
    TimesSum(q * c.order, r, P, c);
    TimesProduct(q, c.order, P, c);
    GroupOrder(P, c);
    TimesOfNone(q, c);
  }

  /** Multiples depend on the scalar modulo the order only. */
  lemma {:induction false} TimesMod(k: nat, P: Point, c: Curve)
    requires ValidCurve(c) && IsPoint(P, c)
    ensures Times(k, P, c) == Times(k % c.order, P, c)
  {
    hide ValidCurve, FitsWords, OnCurve, IsPoint, Prime, Times;
    var q, r := k / c.order, k % c.order;
    assert k == q * c.order + r;
    TimesDropsOrder(k, q, r, P, c);
  }

  lemma {:induction false} TimesCong(j: nat, k: nat, P: Point, c: Curve)
    requires ValidCurve(c) && IsPoint(P, c) && Cong(j, k, c.order)
    ensures Times(j, P, c) == Times(k, P, c)
  {
    hide ValidCurve, FitsWords, OnCurve, IsPoint, Prime, Times;
    TimesMod(j, P, c);
    TimesMod(k, P, c);
  }

  /** A scalar prime to the order can be undone. */
  lemma {:induction false} TimesUndone(k: nat, P: Point, c: Curve) returns (inv: nat)
    requires ValidCurve(c) && IsPoint(P, c) && k % c.order != 0
    ensures Times(inv, Times(k, P, c), c) == P
  {
    hide ValidCurve, FitsWords, OnCurve, IsPoint, Prime, Times, ModInv;
    CurveNumbers(c);
    ModInvPrime(k, c.order);
    inv := ModInv(k, c.order).value;
    UndoneBy(inv, k, P, c);
  }

  lemma {:induction false} UndoneBy(inv: nat, k: nat, P: Point, c: Curve)
    requires ValidCurve(c) && IsPoint(P, c) && (inv * k) % c.order == 1
    ensures Times(inv, Times(k, P, c), c) == P
  {
    hide ValidCurve, FitsWords, OnCurve, IsPoint, Prime, Times;
    TimesProduct(inv, k, P, c);
    TimesMod(inv * k, P, c);
    TimesOne(P, c);
  }

  /** A multiple of a finite point is infinity exactly for multiples of the order. */
  lemma {:induction false} TimesZero(k: nat, P: Point, c: Curve)
    requires ValidCurve(c) && IsPoint(P, c) && P.Some?
    ensures Times(k, P, c) == None <==> k % c.order == 0
  {
    hide ValidCurve, FitsWords, OnCurve, IsPoint, Prime, Times;
    if k % c.order == 0 {
      TimesMod(k, P, c);
      TimesNothing(P, c);
    } else {
      var inv := TimesUndone(k, P, c);
      TimesOfNone(inv, c);
    }
  }

  lemma {:induction false} TimesNothing(P: Point, c: Curve)
    ensures Times(0, P, c) == None
  {
  }

  lemma {:induction false} AddNegate(P: Point, c: Curve)
    requires ValidCurve(c) && IsPoint(P, c)
    ensures IsPoint(Negate(P, c), c)
    ensures Add(P, Negate(P, c), c) == None && Add(Negate(P, c), P, c) == None
  {
    hide ValidCurve, FitsWords, Rhs;
    CurveNumbers(c);
    if P.Some? {
      OppositeOrdinate(P.value.y, c.p);
    }
  }

  lemma {:induction false} OppositeOrdinate(y: int, p: nat)
    requires 0 <= y < p
    ensures var o := (p - y) % p;
            && 0 <= o < p && (y + o) % p == 0 && (o + y) % p == 0
            && o == (if y == 0 then 0 else p - y)
            && (o * o) % p == (y * y) % p
  {
    var o := (p - y) % p;
    Remainder(0, 0, 0, p);
    Remainder(p, 1, 0, p);
    if y != 0 {
      Remainder(p - y, 0, p - y, p);
      assert (p - y) * (p - y) == y * y + (p - 2 * y) * p;
      CongFrom((p - y) * (p - y), y * y, p - 2 * y, p);
    }
  }

  /** The opposite of P is (order - 1) P. */
  lemma {:induction false} NegateIsTimes(P: Point, c: Curve)
    requires ValidCurve(c) && IsPoint(P, c)
    ensures Negate(P, c) == Times(c.order - 1, P, c)
  {
    hide ValidCurve, FitsWords, OnCurve, IsPoint, Prime, Times, Negate;
    CurveNumbers(c);
    var last := c.order - 1;
    AddNegate(P, c);
    TimesIsPoint(last, P, c);
    GroupLaw(Times(last, P, c), P, Negate(P, c), c);
    TimesSum(last, 1, P, c);
    TimesOne(P, c);
    GroupOrder(P, c);
  }

  lemma {:induction false} NegateTimes(k: nat, e: nat, P: Point, c: Curve)
    requires e == (c.order - 1) * k && ValidCurve(c) && IsPoint(P, c)
    ensures Negate(Times(k, P, c), c) == Times(e, P, c)
  {
    hide ValidCurve, FitsWords, OnCurve, IsPoint, Prime, Times, Negate;
    CurveNumbers(c);
    TimesIsPoint(k, P, c);
    NegateIsTimes(Times(k, P, c), c);
    TimesProduct(c.order - 1, k, P, c);
  }

  /** Equal multiples of a finite point have scalars equal modulo the order. */
  lemma {:induction false} TimesInjective(j: nat, k: nat, P: Point, c: Curve)
    requires ValidCurve(c) && IsPoint(P, c) && P.Some? && Times(j, P, c) == Times(k, P, c)
    ensures Cong(j, k, c.order)
  {
    hide ValidCurve, FitsWords, OnCurve, IsPoint, Prime, Times, Add;
    var e := Opposite(k, c.order);
    TimesInjectiveVia(j, k, e, P, c);
    Difference(j, k, e, c.order);
  }

  lemma {:induction false} Opposite(k: nat, n: pos) returns (e: nat)
    ensures k + e == k * n && (k + e) % n == 0
  {
    LessOne(k, n);
    e := k * (n - 1);
    Remainder(k * n, k, 0, n);
  }

  lemma {:induction false} LessOne(k: nat, n: nat)
    requires n > 0
    ensures k * (n - 1) >= 0 && k + k * (n - 1) == k * n
  {
  }

  lemma {:induction false} TimesInjectiveVia(j: nat, k: nat, e: nat, P: Point, c: Curve)
    requires ValidCurve(c) && IsPoint(P, c) && P.Some? && Times(j, P, c) == Times(k, P, c)
    requires (k + e) % c.order == 0
    ensures (j + e) % c.order == 0
  {
    hide ValidCurve, FitsWords, OnCurve, IsPoint, Prime, Times, Add;
    TimesSum(j, e, P, c);
    TimesSum(k, e, P, c);
    TimesZero(k + e, P, c);
    TimesZero(j + e, P, c);
  }

  lemma {:induction false} Difference(j: int, k: int, e: int, n: nat)
    requires n > 0 && k + e == k * n && (j + e) % n == 0
    ensures Cong(j, k, n)
  {
    var q := CongTo(j + e, 0, n);
    assert j == k + (q - k) * n;
    CongFrom(j, k, q - k, n);
  }

  /** No point of an odd-order curve is its own opposite. */
  lemma {:induction false} NoOrderTwo(P: Aff, c: Curve)
    requires ValidCurve(c) && IsPoint(Some(P), c)
    ensures P.y != 0
  {
    hide ValidCurve, FitsWords, OnCurve, Prime, Times, Add;
    CurveNumbers(c);
    if P.y == 0 {
      OwnOpposite(P, c);
      TimesSum(1, 1, Some(P), c);
      TimesOne(Some(P), c);
      TimesZero(2, Some(P), c);
      Remainder(2, 0, 2, c.order);
    }
  }

  lemma {:induction false} OwnOpposite(P: Aff, c: Curve)
    requires P.y == 0
    ensures Add(Some(P), Some(P), c) == None
  {
    Remainder(0, 0, 0, c.p);
  }

  // ---- pointMultiply -------------------------------------------------------

  /** k times a point, and null for a null point or a multiple of the order. */
  function ScalarMultiply(aff: Point, k: int, c: Curve): Point
  {
    if aff.None? || k % c.order == 0 then None else Times(k % c.order, aff, c)
  }

  /** Scalar multiplication by any scalar is the multiple by its residue; null exactly at 0. */
  lemma {:induction false} ScalarMultiplyIsTimes(P: Point, k: nat, c: Curve)
    requires ValidCurve(c) && IsPoint(P, c)
    ensures ScalarMultiply(P, k, c) == Times(k, P, c)
    ensures P.Some? ==> (ScalarMultiply(P, k, c) == None <==> k % c.order == 0)
  {
    hide ValidCurve, FitsWords, OnCurve, Prime, Add;
    CurveNumbers(c);
    TimesMod(k, P, c);
    if P.None? {
      TimesOfNone(k, c);
    } else {
      TimesZero(k, P, c);
    }
  }

  /** A scalar strictly between 0 and the order never reaches infinity. */
  lemma {:induction false} BelowOrder(k: nat, P: Point, c: Curve)
    requires ValidCurve(c) && IsPoint(P, c) && P.Some? && 0 < k < c.order
    ensures Times(k, P, c).Some?
  {
    hide ValidCurve, FitsWords, OnCurve, IsPoint, Prime, Times;
    TimesZero(k, P, c);
    Remainder(k, 0, k, c.order);
  }

  /**
   * While the accumulator holds jP and the base 2^i P with j < 2^i and
   * j + 2^i below the order, they never share an abscissa: jacAddMixed never
   * takes its h = 0 branches inside pointMultiply.
   */
  lemma {:induction false} AccumulatorApart(P: Aff, j: nat, b: nat, c: Curve)
    requires ValidCurve(c) && IsPoint(Some(P), c)
    requires 0 < j < b && j + b < c.order
    ensures var A, B := Times(j, Some(P), c), Times(b, Some(P), c);
            A.Some? && B.Some? && A.value.x != B.value.x
  {
    hide ValidCurve, FitsWords, IsPoint, Prime, Times, Cong;
    CurveNumbers(c);
    var n, G := c.order, Some(P);
    TimesIsPoint(j, G, c);
    TimesIsPoint(b, G, c);
    BelowOrder(j, G, c);
    BelowOrder(b, G, c);
    BelowOrder(j + b, G, c);
    TimesSum(j, b, G, c);
    if Times(j, G, c).value.x == Times(b, G, c).value.x {
      OneAbscissa(Times(j, G, c).value, Times(b, G, c).value, c);
      TimesInjective(j, b, G, c);
      ReducedScalars(j, b, n);
    }
  }

  /** Over one abscissa, points whose sum is finite are equal. */
  lemma {:induction false} OneAbscissa(A: Aff, B: Aff, c: Curve)
    requires Prime(c.p) && IsPoint(Some(A), c) && IsPoint(Some(B), c) && A.x == B.x
    requires Add(Some(A), Some(B), c).Some?
    ensures A == B
  {
    SameAbscissa(A, B, c);
    hide Prime, IsPoint, Slope, ThroughSlope;
  }

  lemma {:induction false} ReducedScalars(j: nat, k: nat, n: nat)
    requires j < n && k < n && Cong(j, k, n)
    ensures j == k
  {
    Remainder(j, 0, j, n);
    Remainder(k, 0, k, n);
  }

  /** Double and add on affine points, lowest bit first, with the loop's early exit. */
  function DoubleAndAdd(n: nat, acc: Point, base: Point, c: Curve): Point
  {
    if n == 0 then acc
    else
      var acc' := if n % 2 == 1 then MixedSum(acc, base, c) else acc;
      var base' := Add(base, base, c);
      if base'.None? && n > 1 then None else DoubleAndAdd(n / 2, acc', base', c)
  }

  /** Whether some addition along the way meets two summands over one abscissa. */
  predicate Meets(n: nat, acc: Point, base: Point, c: Curve)
  {
    n != 0 && (
      || (n % 2 == 1 && acc.Some? && base.Some? && acc.value.x == base.value.x)
      || (!(Add(base, base, c).None? && n > 1)
          && Meets(n / 2, if n % 2 == 1 then MixedSum(acc, base, c) else acc, Add(base, base, c), c)))
  }

  /** pointMultiply on any coordinates. */
  function FastMultiply(aff: Point, k: int, c: Curve): Point
  {
    if aff.None? || k % c.order == 0 then None else DoubleAndAdd(k % c.order, None, aff, c)
  }

  predicate IsReduced(P: Point, p: nat) { P.Some? ==> Reduced(P.value, p) }

  /** What double-and-add still has to return, once a null base has ended it or not. */
  function Remaining(n: nat, acc: Point, base: Point, c: Curve): Point
  {
    if base.None? && n > 0 then None else DoubleAndAdd(n, acc, base, c)
  }

  predicate StillMeets(n: nat, acc: Point, base: Point, c: Curve)
  {
    !(base.None? && n > 0) && Meets(n, acc, base, c)
  }

  /**
   * pointMultiply: the loop over Jacobian points is double-and-add on affine ones, from
   * the point's coordinates taken modulo p. `met` says whether jacAddMixed found h = 0.
   */
  method PointMultiply(aff: Point, k: int, c: Curve) returns (r: Point, ghost met: bool)
    requires Prime(c.p) && c.p != 2
    ensures r == FastMultiply(Reduce(aff, c.p), k, c)
    ensures met <==> aff.Some? && k % c.order != 0 && Meets(k % c.order, None, Reduce(aff, c.p), c)
  {
    hide Prime, Represents, Stands, FromJac, JacDouble, JacAddMixed, MixedSum, Add, DoubleAndAdd, Meets;
    met := false;
    if aff.None? || k == 0 {
      Remainder(0, 0, 0, c.order);
      return None, met;
    }
    var n := k % c.order;
    if n == 0 {
      return None, met;
    }
    PrimeBound(c.p);
    var acc: Option<Jac> := None;
    var base: Option<Jac> := Some(Jac(aff.value.x, aff.value.y, 1));
    ghost var start := Reduce(aff, c.p);
    ghost var A: Point, B: Point := None, start;
    StartStands(aff.value, c.p);
    NothingRepresents(c.p);
    while n > 0
      invariant 0 <= n
      invariant Represents(acc, A, c.p) && Stands(base, B, c.p)
      invariant IsReduced(A, c.p) && IsReduced(B, c.p)
      invariant Remaining(n, A, B, c) == DoubleAndAdd(k % c.order, None, start, c)
      invariant Meets(k % c.order, None, start, c) <==> met || StillMeets(n, A, B, c)
      decreases n
    {
      hide Reduce;
      BitStep(n, A, B, c);
      if n % 2 == 1 {
        FromJacStands(base, B, c.p);
        var addend := FromJac(base, c.p);
        if addend.None? {
          return None, met;
        }
        ghost var hit: bool;
        acc, hit := Accumulate(acc, addend, c, A);
        met := met || hit;
      }
      DoubleStands(base, B, c);
      MixedSumReduced(B, B, c);
      base := JacDouble(base, c);
      NothingDoubles(None, c);
      A, B := if n % 2 == 1 then MixedSum(A, B, c) else A, Add(B, B, c);
      NullStands(base, B, c.p);
      if base.None? && n > 1 {
        return None, met;
      }
      n := n / 2;
    }
    BitsDone(A, B, c);
    FromJacRepresents(acc, A, c.p);
    r := FromJac(acc, c.p);
  }

  lemma {:induction false} BitStep(n: nat, A: Point, B: Point, c: Curve)
    requires n > 0
    ensures var (A', B') := (if n % 2 == 1 then MixedSum(A, B, c) else A, Add(B, B, c));
            && DoubleAndAdd(n, A, B, c) == (if B'.None? && n > 1 then None else DoubleAndAdd(n / 2, A', B', c))
            && (Meets(n, A, B, c) <==>
                  || (n % 2 == 1 && A.Some? && B.Some? && A.value.x == B.value.x)
                  || (!(B'.None? && n > 1) && Meets(n / 2, A', B', c)))
  {
    hide MixedSum, Add;
  }

  lemma {:induction false} BitsDone(A: Point, B: Point, c: Curve)
    ensures DoubleAndAdd(0, A, B, c) == A && !Meets(0, A, B, c)
  {
  }

  /** The addition of one bit, and whether it found h = 0. */
  method Accumulate(acc: Option<Jac>, addend: Point, c: Curve, ghost A: Point)
    returns (acc': Option<Jac>, ghost hit: bool)
    requires Prime(c.p) && c.p != 2 && addend.Some? && IsReduced(A, c.p) && IsReduced(addend, c.p)
    requires Represents(acc, A, c.p)
    ensures Represents(acc', MixedSum(A, addend, c), c.p)
    ensures IsReduced(MixedSum(A, addend, c), c.p)
    ensures hit <==> A.Some? && A.value.x == addend.value.x
  {
    hide Prime, Represents, FromJac, JacDouble, JacAddMixed, MixedSum, Add, MixedH;
    hit := false;
    NullTogether(acc, A, c.p);
    MixedSumReduced(A, addend, c);
    if acc.Some? {
      hit := MixedH(acc.value, addend.value, c.p) == 0;
      MixedHZero(acc.value, A.value, addend.value, c);
    }
    AddRepresents(acc, A, addend, c);
    acc' := JacAddMixed(acc, addend, c);
  }

  lemma {:induction false} NullTogether(j: Option<Jac>, P: Point, p: nat)
    requires p > 0 && Represents(j, P, p)
    ensures j.None? <==> P.None?
  {
  }

  lemma {:induction false} NullStands(j: Option<Jac>, P: Point, p: nat)
    requires p > 0 && Stands(j, P, p)
    ensures j.None? ==> P.None?
  {
  }

  lemma {:induction false} NothingRepresents(p: nat)
    requires p > 0
    ensures Represents(None, None, p)
  {
  }

  /** Reduced coordinates are taken as they are. */
  lemma {:induction false} ReduceReduced(P: Point, p: nat)
    requires p > 0 && IsReduced(P, p)
    ensures Reduce(P, p) == P
  {
    if P.Some? {
      Remainder(P.value.x, 0, P.value.x, p);
      Remainder(P.value.y, 0, P.value.y, p);
    }
  }

  // ---- on the curve --------------------------------------------------------

  /** The sums of one bit: with jP and wP at hand, the accumulator may take (j + w)P, the base 2wP. */
  lemma {:induction false} OneBit(P: Aff, done: nat, weight: nat, c: Curve)
    requires ValidCurve(c) && IsPoint(Some(P), c) && done < weight && done + weight < c.order
    ensures var A, B := Times(done, Some(P), c), Times(weight, Some(P), c);
            && MixedSum(A, B, c) == Times(done + weight, Some(P), c)
            && Add(B, B, c) == Times(2 * weight, Some(P), c)
            && !(A.Some? && B.Some? && A.value.x == B.value.x)
  {
    hide ValidCurve, FitsWords, OnCurve, IsPoint, Prime, Times, Add, MixedSum;
    CurveNumbers(c);
    var G := Some(P);
    TimesIsPoint(done, G, c);
    TimesIsPoint(weight, G, c);
    MixedSumOnCurve(Times(done, G, c), Times(weight, G, c), c);
    TimesSum(done, weight, G, c);
    TimesSum(weight, weight, G, c);
    if done > 0 {
      AccumulatorApart(P, done, weight, c);
    } else {
      TimesNothing(G, c);
    }
  }

  /**
   * With jP accumulated and 2^i P at the base, double-and-add reaches the multiple that
   * remains and no addition meets two summands over one abscissa.
   */
  lemma {:induction false} BitsMultiply(n: nat, P: Aff, done: nat, weight: nat, c: Curve)
    requires ValidCurve(c) && IsPoint(Some(P), c) && n > 0
    requires done < weight && Fitting(n, done, weight) < c.order
    ensures DoubleAndAdd(n, Times(done, Some(P), c), Times(weight, Some(P), c), c)
         == Times(Fitting(n, done, weight), Some(P), c)
    ensures !Meets(n, Times(done, Some(P), c), Times(weight, Some(P), c), c)
    decreases n
  {
    hide ValidCurve, OnCurve, IsPoint, Times, Add, MixedSum, DoubleAndAdd, Meets, Fitting;
    var G := Some(P);
    var done' := if n % 2 == 1 then done + weight else done;
    FittingStep(n, done, weight);
    BitStep(n, Times(done, G, c), Times(weight, G, c), c);
    OneBit(P, done, weight, c);
    if n == 1 {
      BitsDone(Times(done', G, c), Times(2 * weight, G, c), c);
    } else {
      BelowOrder(2 * weight, G, c);
      BitsMultiply(n / 2, P, done', 2 * weight, c);
    }
  }

  /** What is left to add on top of what is done. */
  function Fitting(n: nat, done: nat, weight: nat): nat { n * weight + done }

  lemma {:induction false} FittingStep(n: nat, done: nat, weight: nat)
    requires n >= 1
    ensures weight + done <= Fitting(n, done, weight)
    ensures n > 1 ==> 2 * weight <= Fitting(n, done, weight)
    ensures Fitting(n / 2, if n % 2 == 1 then done + weight else done, 2 * weight) == Fitting(n, done, weight)
    ensures n == 1 ==> Fitting(n, done, weight) == done + weight
  {
    WeightBounded(n, weight, done, n * weight + done);
  }

  /**
   * For a point of the curve pointMultiply is scalar multiplication, and jacAddMixed
   * never takes its h = 0 branches.
   */
  lemma {:induction false} FastIsScalar(aff: Point, k: int, c: Curve)
    requires ValidCurve(c) && IsPoint(aff, c)
    ensures FastMultiply(aff, k, c) == ScalarMultiply(aff, k, c)
    ensures aff.Some? && k % c.order != 0 ==> !Meets(k % c.order, None, aff, c)
    ensures Reduce(aff, c.p) == aff
  {
    ReduceReduced(aff, c.p);
    hide ValidCurve, FitsWords, OnCurve, IsPoint, Prime, Times, Add, DoubleAndAdd, Meets;
    CurveNumbers(c);
    if aff.Some? && k % c.order != 0 {
      TimesNothing(aff, c);
      TimesOne(aff, c);
      BitsMultiply(k % c.order, aff.value, 0, 1, c);
    }
  }

  lemma {:induction false} WeightBounded(n: nat, weight: nat, done: nat, total: nat)
    requires n >= 1 && n * weight + done == total
    ensures weight + done <= total
    ensures n > 1 ==> 2 * weight <= total
    ensures (n / 2) * (2 * weight) + (if n % 2 == 1 then done + weight else done) == total
  {
    assert (n - 1) * weight >= 0;
    assert n > 1 ==> (n - 2) * weight >= 0;
    assert n == 2 * (n / 2) + n % 2;
    assert (n / 2) * (2 * weight) + (n % 2) * weight == n * weight;
  }

  // ---- the assumption is consistent ----------------------------------------

  /** y^2 = x^3 + 4 over the integers modulo 7 has three points. */
  const TOY := Curve(7, 0, 4, 3, Aff(0, 2))

  function ToyPoint(k: nat): Point
    requires k < 3
  {
    if k == 0 then None else Some(Aff(0, if k == 1 then 2 else 5))
  }

  lemma {:induction false} SquaresMod7(y: nat)
    requires y < 7
    ensures ModMul(y, y, 7) == [0, 1, 4, 2, 2, 4, 1][y]
  {
  }

  lemma {:induction false} ToyRhs(x: nat)
    requires x < 7
    ensures Rhs(x, TOY) == [4, 5, 5, 3, 5, 3, 3][x]
  {
    SquaresMod7(x);
    var cubes := [0, 1, 1, 6, 1, 6, 6];
    assert ModMul(x, ModMul(x, x, 7), 7) == cubes[x] by { CubesMod7(x); }
    hide ModMul;
    assert ModMul(0, x, 7) == 0 by { ZeroProduct(x); }
  }

  lemma {:induction false} CubesMod7(x: nat)
    requires x < 7
    ensures ModMul(x, [0, 1, 4, 2, 2, 4, 1][x], 7) == [0, 1, 1, 6, 1, 6, 6][x]
  {
  }

  lemma {:induction false} ZeroProduct(x: int)
    ensures ModMul(0, x, 7) == 0
  {
  }

  /** 3 and 5 are no squares modulo 7, and only x = 0 gives anything else. */
  lemma {:induction false} ToyOnCurve(pt: Aff)
    requires Reduced(pt, 7)
    ensures OnCurve(pt, TOY) <==> pt.x == 0 && (pt.y == 2 || pt.y == 5)
  {
    hide ModMul, Rhs;
    SquaresMod7(pt.y);
    ToyRhs(pt.x);
  }

  /** The tangents are flat. */
  lemma {:induction false} ToyTangent(P: Aff, Q: Aff)
    requires P.x == Q.x == 0
    ensures ThroughSlope(P, Q, Slope(P, Q, TOY), 7) == Aff(0, -P.y % 7)
  {
    hide PowMod;
    assert Slope(P, Q, TOY) == 0 * PowMod(2 * P.y, TOY.p - 2, TOY.p);
  }

  lemma {:induction false} ToyAdd(i: nat, j: nat)
    requires i < 3 && j < 3
    ensures Add(ToyPoint(i), ToyPoint(j), TOY) == ToyPoint((i + j) % 3)
  {
    hide Slope, ThroughSlope;
    if i != 0 && j != 0 {
      ToyTangent(ToyPoint(i).value, ToyPoint(j).value);
    }
  }

  lemma {:induction false} ToyIndex(P: Point) returns (k: nat)
    requires IsPoint(P, TOY)
    ensures k < 3 && P == ToyPoint(k)
  {
    hide OnCurve;
    k := if P.None? then 0 else if P.value.y == 2 then 1 else 2;
    if P.Some? {
      ToyOnCurve(P.value);
    }
  }

  lemma {:induction false} ToyIsPoint(k: nat)
    requires k < 3
    ensures IsPoint(ToyPoint(k), TOY)
  {
    hide OnCurve;
    if k != 0 {
      ToyOnCurve(ToyPoint(k).value);
    }
  }

  lemma {:induction false} ToyOrder(k: nat)
    requires k < 3
    ensures Times(3, ToyPoint(k), TOY) == None
  {
    hide Add;
    ToyAdd(0, k);
    ToyAdd(k, k);
    ToyAdd((k + k) % 3, k);
    var P := ToyPoint(k);
    assert Times(1, P, TOY) == Add(Times(0, P, TOY), P, TOY) == P;
    assert Times(2, P, TOY) == Add(P, P, TOY);
  }

  lemma {:induction false} WordsAreBig(n: nat)
    requires n >= 1
    ensures Pow256(n) >= 256
  {
  }

  lemma {:induction false} ToyFits()
    ensures FitsWords(TOY)
  {
    hide Pow256;
    WordsAreBig(32);
  }

  lemma {:induction false} ToyBase()
    ensures ToyPoint(1) == Some(TOY.G)
  {
  }

  /** Some curve meets every assumption. */
  lemma {:induction false} ValidCurveExists()
    ensures ValidCurve(TOY)
  {
    hide ToyPoint, Add, Times, FitsWords, IsPoint, Pow256;
    ToyFits();
    ToyIsPoint(1);
    ToyBase();
    forall P, Q, R ensures Associates(P, Q, R, TOY) {
      if IsPoint(P, TOY) && IsPoint(Q, TOY) && IsPoint(R, TOY) {
        var i := ToyIndex(P);
        var j := ToyIndex(Q);
        var k := ToyIndex(R);
        ToyAdd(i, j);
        ToyAdd(j, k);
        ToyAdd((i + j) % 3, k);
        ToyAdd(i, (j + k) % 3);
      }
    }
    forall P ensures HasOrder(P, TOY) {
      if IsPoint(P, TOY) {
        var k := ToyIndex(P);
        ToyOrder(k);
      }
    }
  }
}

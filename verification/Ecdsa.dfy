/**
 * Raw-digest signing (ecdsa/sign.js), public-key recovery and y-parity by trial
 * (ecdsa/recover.js), and the proof that recovery undoes signing at one parity only.
 */
module Ecdsa {
  import opened Bytes
  import opened NumberTheory
  import opened Curve
  import opened CurveGroup
  import Der

  // ---- what the code computes ----------------------------------------------

  function EncodePoint(pt: Aff): bytes
    requires pt.x >= 0 && pt.y >= 0
  {
    [4] + ToBytes(pt.x, 32) + ToBytes(pt.y, 32)
  }

  datatype SignError = BadDigest | ScalarOutOfRange | BadNonce

  datatype Signature = Signature(r: bytes, s: bytes, yParity: int, der: bytes, raw: bytes)

  /** publicPoint: the encoded point of a private scalar. */
  function PublicPoint(d: int, c: Curve): Result<bytes, SignError>
    requires ValidCurve(c)
  {
    if d <= 0 || d >= c.order then Err(ScalarOutOfRange)
    else
      TimesIsPoint(d % c.order, Some(c.G), c);
      match ScalarMultiply(Some(c.G), d, c)
      case None => Err(ScalarOutOfRange)
      case Some(Q) => Ok(EncodePoint(Q))
  }

  /** The unflipped s, given the inverse of the nonce. */
  function SolveS(kInv: int, z: int, r: int, d: int, n: pos): (s: nat)
    ensures s < n
  {
    (kInv * ((z + (r * d) % n) % n)) % n
  }

  /** The unflipped s: (z + r d) / k modulo the order. */
  function RawS(z: int, r: int, d: int, k: int, n: pos): (s: nat)
    ensures s < n
  {
    SolveS(PowMod(k, n - 2, n), z, r, d, n)
  }

  /** r, the low s, and the parity of the point that recovery must use. */
  function SignScalars(digest: bytes, d: int, k: int, c: Curve): Result<(nat, nat, int), SignError>
    requires ValidCurve(c)
  {
    if |digest| != 32 then Err(BadDigest)
    else if d <= 0 || d >= c.order || k <= 0 || k >= c.order then Err(ScalarOutOfRange)
    else match ScalarMultiply(Some(c.G), k, c)
      case None => Err(BadNonce)
      case Some(R) =>
        if R.x <= 0 || R.x >= c.order then Err(BadNonce)
        else
          var s := RawS(Big(digest) % c.order, R.x, d, k, c.order);
          if s == 0 then Err(BadNonce)
          else if s > c.order / 2 then Ok((R.x, c.order - s, 1 - R.y % 2))
          else Ok((R.x, s, R.y % 2))
  }

  /** signRawDigest. */
  function SignRawDigest(digest: bytes, d: int, k: int, c: Curve): Result<Signature, SignError>
    requires ValidCurve(c)
  {
    match SignScalars(digest, d, k, c)
    case Err(e) => Err(e)
    case Ok((r, s, yParity)) =>
      var (rBytes, sBytes) := (ToBytes(r, 32), ToBytes(s, 32));
      match Der.DerSeq(rBytes, sBytes)
      case Err(_) => Err(ScalarOutOfRange)
      case Ok(der) => Ok(Signature(rBytes, sBytes, yParity, der, rBytes + sBytes))
  }

  /** The ordinate over x with the wanted parity, or null. */
  function Lift(x: int, yParity: int, c: Curve): Option<int> {
    match ModSqrt(Rhs(x, c), c.p)
    case None => None
    case Some(y) => Some(if y % 2 != yParity then (c.p - y) % c.p else y)
  }

  /** s R - z G over r, from a lifted point R. */
  function RecoverFrom(R: Aff, z: int, s: int, rInv: int, c: Curve): Point {
    match ScalarMultiply(Some(R), s, c)
    case None => None
    case Some(sR) =>
      if z == 0 then ScalarMultiply(Some(sR), rInv, c)
      else match ScalarMultiply(Some(c.G), z, c)
        case None => None
        case Some(zG) =>
          var sum := Add(Some(sR), Negate(Some(zG), c), c);
          if sum.None? then None else ScalarMultiply(sum, rInv, c)
  }

  /** recoverPublicKey. */
  function RecoverPublicKey(digest: bytes, rBytes: bytes, sBytes: bytes, yParity: int, c: Curve): Option<bytes> {
    if yParity != 0 && yParity != 1 then None
    else if |digest| != 32 || |rBytes| != 32 || |sBytes| != 32 then None
    else
      var (r, s, n) := (Big(rBytes), Big(sBytes), c.order);
      if r <= 0 || r >= n || s <= 0 || s >= n || r >= c.p then None
      else match Lift(r, yParity, c)
        case None => None
        case Some(y) =>
          if !OnCurve(Aff(r, y), c) then None
          else match ModInv(r, n)
            case None => None
            case Some(rInv) =>
              match RecoverFrom(Aff(r, y), Big(digest) % n, s, rInv, c)
              case None => None
              case Some(Q) =>
                if !OnCurve(Q, c) || Q.x < 0 || Q.y < 0 then None else Some(EncodePoint(Q))
  }

  datatype ParityError = Unmatched | BadPublicKey

  /** A 65-byte point, or 64 bytes without the format byte. */
  function UncompressedPoint(publicKey: bytes): Option<bytes> {
    if |publicKey| == 65 && publicKey[0] == 4 then Some(publicKey)
    else if |publicKey| == 64 then Some([4] + publicKey)
    else None
  }

  /** yParityByTrial: the one parity whose recovery gives the key. */
  function YParityByTrial(digest: bytes, sig: bytes, publicKey: bytes, c: Curve): Result<int, ParityError> {
    if |sig| != 64 then Err(Unmatched)
    else match UncompressedPoint(publicKey)
      case None => Err(BadPublicKey)
      case Some(want) =>
        var hit0 := RecoverPublicKey(digest, sig[..32], sig[32..], 0, c) == Some(want);
        var hit1 := RecoverPublicKey(digest, sig[..32], sig[32..], 1, c) == Some(want);
        if hit0 && !hit1 then Ok(0) else if hit1 && !hit0 then Ok(1) else Err(Unmatched)
  }

  // ---- lifting -------------------------------------------------------------

  /** The lift, given a root. */
  function ByParity(root: int, parity: int, p: pos): int {
    if root % 2 != parity then (p - root) % p else root
  }

  lemma {:induction false} LiftByRoot(x: int, parity: int, root: int, c: Curve)
    requires ModSqrt(Rhs(x, c), c.p) == Some(root)
    ensures Lift(x, parity, c) == Some(ByParity(root, parity, c.p))
  {
    hide ModSqrt, Rhs;
  }

  /** Over the abscissa of a point, the two parities lift to it and to its opposite. */
  lemma {:induction false} LiftOfPoint(R: Aff, parity: int, c: Curve)
    requires ValidCurve(c) && IsPoint(Some(R), c) && (parity == 0 || parity == 1)
    ensures Lift(R.x, parity, c).Some?
    ensures var P := Some(Aff(R.x, Lift(R.x, parity, c).value));
            P == if R.y % 2 == parity then Some(R) else Negate(Some(R), c)
  {
    hide ValidCurve, FitsWords, Prime, ModSqrt, Rhs, Cong, Lift, ByParity;
    CurveNumbers(c);
    NoOrderTwo(R, c);
    RhsIsSquare(R, c);
    ModSqrtOfSquare(Rhs(R.x, c), R.y, c.p);
    var root := ModSqrt(Rhs(R.x, c), c.p).value;
    LiftByRoot(R.x, parity, root, c);
    RootIsOrdinate(root, R.y, c.p);
    RootOfParity(root, R.y, parity, c.p);
  }

  /** Of the two roots of an odd prime modulus, one has each parity. */
  lemma {:induction false} RootOfParity(root: int, y: int, parity: int, p: pos)
    requires 0 < y < p && p % 2 == 1 && (root == y || root == p - y) && (parity == 0 || parity == 1)
    ensures ByParity(root, parity, p) == if y % 2 == parity then y else (p - y) % p
  {
    Remainder(p - root, 0, p - root, p);
    Remainder(p - y, 0, p - y, p);
    OddFlips(y, p);
  }

  lemma {:induction false} OddFlips(y: int, p: int)
    requires p % 2 == 1
    ensures (p - y) % 2 != y % 2
  {
  }

  lemma {:induction false} RhsIsSquare(R: Aff, c: Curve)
    requires OnCurve(R, c)
    ensures Cong(Rhs(R.x, c), R.y * R.y, c.p)
  {
    hide Rhs;
    CongMod(R.y * R.y, c.p);
  }

  lemma {:induction false} RootIsOrdinate(root: int, y: int, p: pos)
    requires 0 <= root < p && 0 < y < p && (Cong(root, y, p) || Cong(root, -y, p))
    ensures root == y || root == p - y
  {
    if Cong(root, y, p) {
      Remainder(root, 0, root, p);
      Remainder(y, 0, y, p);
    } else {
      Remainder(root, 0, root, p);
      Remainder(-y, -1, p - y, p);
    }
  }

  // ---- recovery from a known multiple --------------------------------------

  /** s R - z G is the multiple s t - z of the base point, when R = tG. */
  lemma {:induction false} DifferenceOfMultiples(t: nat, z: nat, s: nat, st: nat, opp: nat, c: Curve)
    requires st == s * t && opp == (c.order - 1) * z && ValidCurve(c)
    ensures var G := Some(c.G);
            Add(Times(s, Times(t, G, c), c), Negate(Times(z, G, c), c), c) == Times(st + opp, G, c)
  {
    hide ValidCurve, FitsWords, OnCurve, Prime, Times, Add, Negate;
    CurveNumbers(c);
    var G := Some(c.G);
    TimesProduct(s, t, G, c);
    NegateTimes(z, opp, G, c);
    TimesSum(st, opp, G, c);
  }

  /** Recovery from R = tG computes the multiple e = (s t - z) / r of the base point. */
  lemma {:induction false} RecoverFromMultiple(t: nat, z: nat, s: nat, rInv: nat, st: nat, opp: nat, e: nat, c: Curve)
    requires st == s * t && opp == (c.order - 1) * z && e == rInv * (st + opp)
    requires 0 < s < c.order && z < c.order && ValidCurve(c) && Times(t, Some(c.G), c).Some?
    ensures RecoverFrom(Times(t, Some(c.G), c).value, z, s, rInv, c) == Times(e, Some(c.G), c)
  {
    hide ValidCurve, FitsWords, OnCurve, Prime, Times, ScalarMultiply, Add, Negate;
    CurveNumbers(c);
    var G := Some(c.G);
    var R := Times(t, G, c);
    TimesIsPoint(t, G, c);
    ScalarMultiplyIsTimes(R, s, c);
    Remainder(s, 0, s, c.order);
    DifferenceOfMultiples(t, z, s, st, opp, c);
    TimesIsPoint(st + opp, G, c);
    ScalarMultiplyIsTimes(Times(st + opp, G, c), rInv, c);
    TimesProduct(rInv, st + opp, G, c);
    TimesOfNone(rInv, c);
    if z == 0 {
      NoOpposite(c.order, opp);
      TimesProduct(s, t, G, c);
    } else {
      ScalarMultiplyIsTimes(G, z, c);
      Remainder(z, 0, z, c.order);
    }
  }

  lemma {:induction false} NoOpposite(n: nat, opp: nat)
    requires opp == (n - 1) * 0
    ensures opp == 0
  {
  }

  /** Different finite points have different encodings. */
  lemma {:induction false} EncodeInjective(P: Aff, Q: Aff, c: Curve)
    requires ValidCurve(c) && IsPoint(Some(P), c) && IsPoint(Some(Q), c)
    ensures EncodePoint(P) == EncodePoint(Q) ==> P == Q
  {
    hide ValidCurve, OnCurve, Prime, Pow256, ToBytes, Big;
    CurveNumbers(c);
    BigOfToBytes(P.x, 32);
    BigOfToBytes(P.y, 32);
    BigOfToBytes(Q.x, 32);
    BigOfToBytes(Q.y, 32);
    var e, f := EncodePoint(P), EncodePoint(Q);
    assert e[1..33] == ToBytes(P.x, 32) && e[33..] == ToBytes(P.y, 32);
    assert f[1..33] == ToBytes(Q.x, 32) && f[33..] == ToBytes(Q.y, 32);
  }

  /** The encoding of a multiple of the base point, if it is finite. */
  function EncodeMultiple(k: nat, c: Curve): Option<bytes>
    requires ValidCurve(c)
  {
    TimesIsPoint(k, Some(c.G), c);
    match Times(k, Some(c.G), c)
    case None => None
    case Some(Q) => Some(EncodePoint(Q))
  }

  /** recoverPublicKey at a parity that lifts to tG. */
  lemma {:induction false} RecoverAtParity(
    digest: bytes, r: nat, s: nat, parity: int, t: nat, z: nat, rInv: nat, st: nat, opp: nat, e: nat, c: Curve)
    requires st == s * t && opp == (c.order - 1) * z && e == rInv * (st + opp)
    requires |digest| == 32 && z == Big(digest) % c.order && (parity == 0 || parity == 1)
    requires 0 < r < c.order && 0 < s < c.order && r < c.p
    requires ValidCurve(c) && Lift(r, parity, c).Some?
    requires Times(t, Some(c.G), c) == Some(Aff(r, Lift(r, parity, c).value))
    requires ModInv(r, c.order) == Some(rInv)
    ensures RecoverPublicKey(digest, ToBytes(r, 32), ToBytes(s, 32), parity, c) == EncodeMultiple(e, c)
  {
    hide ValidCurve, FitsWords, OnCurve, Prime, Pow256, ToBytes, Big, Times, RecoverFrom, Lift, ModInv, EncodePoint;
    CurveNumbers(c);
    ScalarBytes(r, s, c);
    TimesIsPoint(t, Some(c.G), c);
    RecoverFromMultiple(t, z, s, rInv, st, opp, e, c);
    TimesIsPoint(e, Some(c.G), c);
    hide IsPoint;
    RecoverPassed(digest, ToBytes(r, 32), ToBytes(s, 32), parity, rInv, c);
  }

  lemma {:induction false} ScalarBytes(r: nat, s: nat, c: Curve)
    requires r < c.order && s < c.order && FitsWords(c)
    ensures Big(ToBytes(r, 32)) == r && Big(ToBytes(s, 32)) == s
  {
    hide Big, ToBytes, Pow256;
    BigOfToBytes(r, 32);
    BigOfToBytes(s, 32);
  }

  /** recoverPublicKey once its guards have passed. */
  lemma {:induction false} RecoverPassed(digest: bytes, rBytes: bytes, sBytes: bytes, parity: int, rInv: nat, c: Curve)
    requires |digest| == 32 && |rBytes| == 32 && |sBytes| == 32 && (parity == 0 || parity == 1)
    requires 0 < Big(rBytes) < c.order && 0 < Big(sBytes) < c.order && Big(rBytes) < c.p
    requires Lift(Big(rBytes), parity, c).Some?
    requires OnCurve(Aff(Big(rBytes), Lift(Big(rBytes), parity, c).value), c)
    requires ModInv(Big(rBytes), c.order) == Some(rInv)
    requires var R := Aff(Big(rBytes), Lift(Big(rBytes), parity, c).value);
             IsPoint(RecoverFrom(R, Big(digest) % c.order, Big(sBytes), rInv, c), c)
    ensures var R := Aff(Big(rBytes), Lift(Big(rBytes), parity, c).value);
            RecoverPublicKey(digest, rBytes, sBytes, parity, c)
            == match RecoverFrom(R, Big(digest) % c.order, Big(sBytes), rInv, c)
               case None => None
               case Some(Q) => Some(EncodePoint(Q))
  {
    hide OnCurve, Big, RecoverFrom, Lift, ModInv, EncodePoint;
  }

  // ---- scalars modulo the order --------------------------------------------

  /** What a signature's scalars satisfy: s t = z + r d for the point tG they use. */
  lemma {:induction false} SignEquation(z: int, r: int, d: int, k: int, n: pos)
    requires Prime(n) && 0 < k < n
    ensures Cong(RawS(z, r, d, k, n) * k, z + r * d, n)
  {
    hide Prime, PowMod, Cong;
    PrimeBound(n);
    Remainder(k, 0, k, n);
    InverseIsPower(k, n);
    ModInvPrime(k, n);
    var kInv := PowMod(k, n - 2, n);
    var w := r * d;
    var e := (z + w % n) % n;
    InverseCong(kInv, k, n);
    CongRefl(z, n);
    CongMod(w, n);
    CongAdd(z, z, w % n, w, n);
    CongMod(z + w % n, n);
    CongTrans(e, z + w % n, z + w, n);
    SolvedBy(RawS(z, r, d, k, n), kInv, k, e, z + w, n);
  }

  lemma {:induction false} SolvedBy(s: int, kInv: int, k: int, e: int, w: int, n: pos)
    requires s == (kInv * e) % n && Cong(kInv * k, 1, n) && Cong(e, w, n)
    ensures Cong(s * k, w, n)
  {
    hide Cong;
    CongRefl(k, n);
    CongMod(kInv * e, n);
    CongMul(s, kInv * e, k, k, n);
    assert (kInv * e) * k == (kInv * k) * e;
    CongMul(kInv * k, 1, e, w, n);
    CongTrans(s * k, (kInv * k) * e, 1 * w, n);
  }

  /** Flipping both s and the point keeps the equation. */
  lemma {:induction false} FlippedEquation(s: int, k: int, w: int, n: pos)
    requires Cong(s * k, w, n)
    ensures Cong((n - s) * (n - k), w, n)
  {
    assert (n - s) * (n - k) == s * k + (n - s - k) * n;
    CongFrom((n - s) * (n - k), s * k, n - s - k, n);
  }

  /** At the right parity the recovered scalar is d. */
  lemma {:induction false} RecoveredScalar(st: int, z: int, r: int, d: int, rInv: int, opp: int, n: pos)
    requires n >= 2 && Cong(st, z + r * d, n) && opp == (n - 1) * z && (rInv * r) % n == 1
    ensures Cong(rInv * (st + opp), d, n)
  {
    assert z + r * d + opp == r * d + z * n;
    CongFrom(z + r * d + opp, r * d, z, n);
    CongAdd(st, z + r * d, opp, opp, n);
    CongMul(rInv, rInv, st + opp, r * d, n);
    assert rInv * (r * d) == (rInv * r) * d;
    Remainder(1, 0, 1, n);
    CongMul(rInv * r, 1, d, d, n);
  }

  // ---- the two parities never recover one key ------------------------------

  lemma {:induction false} NegateOfTimes(k: nat, P: Point, c: Curve)
    requires ValidCurve(c) && IsPoint(P, c)
    ensures IsPoint(Negate(P, c), c) && Times(k, Negate(P, c), c) == Negate(Times(k, P, c), c)
  {
    hide ValidCurve, FitsWords, OnCurve, IsPoint, Prime, Times, Negate;
    CurveNumbers(c);
    AddNegate(P, c);
    NegateIsTimes(P, c);
    LessOne(k, c.order);
    NegateVia(k, k * (c.order - 1), P, c);
  }

  lemma {:induction false} NegateVia(k: nat, e: nat, P: Point, c: Curve)
    requires e == k * (c.order - 1) && ValidCurve(c) && IsPoint(P, c)
    ensures Times(k, Times(c.order - 1, P, c), c) == Negate(Times(k, P, c), c)
  {
    hide ValidCurve, FitsWords, OnCurve, IsPoint, Prime, Times, Negate;
    TimesProduct(k, c.order - 1, P, c);
    NegateTimes(k, e, P, c);
  }

  /** A scalar prime to the order can be cancelled. */
  lemma {:induction false} TimesCancel(k: nat, A: Point, B: Point, c: Curve)
    requires ValidCurve(c) && IsPoint(A, c) && IsPoint(B, c) && k % c.order != 0
    requires Times(k, A, c) == Times(k, B, c)
    ensures A == B
  {
    hide ValidCurve, FitsWords, OnCurve, IsPoint, Prime, Times, ModInv;
    CurveNumbers(c);
    ModInvPrime(k, c.order);
    var inv: nat := ModInv(k, c.order).value;
    UndoneBy(inv, k, A, c);
    UndoneBy(inv, k, B, c);
  }

  lemma {:induction false} NotOwnOpposite(X: Point, c: Curve)
    requires ValidCurve(c) && IsPoint(X, c) && X.Some?
    ensures X != Negate(X, c)
  {
    hide ValidCurve, FitsWords, OnCurve, Prime;
    CurveNumbers(c);
    NoOrderTwo(X.value, c);
    OddHalves(X.value.y, c.p);
  }

  lemma {:induction false} OddHalves(y: int, p: nat)
    requires 0 < y < p && p % 2 == 1
    ensures (p - y) % p != y
  {
    Remainder(p - y, 0, p - y, p);
  }

  /** Adding one point to a finite point and to its opposite gives two points. */
  lemma {:induction false} SumsDiffer(X: Point, W: Point, c: Curve)
    requires ValidCurve(c) && IsPoint(X, c) && IsPoint(W, c) && X.Some?
    ensures Add(X, W, c) != Add(Negate(X, c), W, c)
  {
    hide ValidCurve, FitsWords, OnCurve, IsPoint, Prime, Add, Negate;
    CurveNumbers(c);
    AddNone(X, c);
    AddNegate(X, c);
    AddNone(Negate(X, c), c);
    AddNegate(W, c);
    NotOwnOpposite(X, c);
    GroupLaw(X, W, Negate(W, c), c);
    GroupLaw(Negate(X, c), W, Negate(W, c), c);
  }

  lemma {:induction false} AddNone(P: Point, c: Curve)
    ensures Add(P, None, c) == P
  {
  }

  /** Recovery from a point and from its opposite never agree on a key. */
  lemma {:induction false} RecoveriesDiffer(R: Aff, z: nat, s: nat, rInv: nat, c: Curve)
    requires ValidCurve(c) && IsPoint(Some(R), c) && 0 < s < c.order && z < c.order && rInv % c.order != 0
    requires Negate(Some(R), c).Some?
    ensures var Q := RecoverFrom(R, z, s, rInv, c);
            Q.None? || Q != RecoverFrom(Negate(Some(R), c).value, z, s, rInv, c)
  {
    hide ValidCurve, FitsWords, OnCurve, IsPoint, Prime, Times, ScalarMultiply, Add, Negate;
    CurveNumbers(c);
    var G, P := Some(c.G), Some(R);
    NegateOfTimes(s, P, c);
    ScalarMultiplyIsTimes(P, s, c);
    ScalarMultiplyIsTimes(Negate(P, c), s, c);
    Remainder(s, 0, s, c.order);
    TimesIsPoint(s, P, c);
    var X := Times(s, P, c);
    AddNegate(X, c);
    ScalarMultiplyIsTimes(X, rInv, c);
    ScalarMultiplyIsTimes(Negate(X, c), rInv, c);
    if z == 0 {
      NotOwnOpposite(X, c);
      CancelApart(rInv, X, Negate(X, c), c);
    } else {
      ScalarMultiplyIsTimes(G, z, c);
      Remainder(z, 0, z, c.order);
      TimesIsPoint(z, G, c);
      var W := Negate(Times(z, G, c), c);
      AddNegate(Times(z, G, c), c);
      GroupLaw(X, W, W, c);
      GroupLaw(Negate(X, c), W, W, c);
      SumsDiffer(X, W, c);
      var A, B := Add(X, W, c), Add(Negate(X, c), W, c);
      ScalarMultiplyIsTimes(A, rInv, c);
      ScalarMultiplyIsTimes(B, rInv, c);
      CancelApart(rInv, A, B, c);
    }
  }

  lemma {:induction false} CancelApart(k: nat, A: Point, B: Point, c: Curve)
    requires ValidCurve(c) && IsPoint(A, c) && IsPoint(B, c) && k % c.order != 0 && A != B
    ensures Times(k, A, c) != Times(k, B, c)
  {
    if Times(k, A, c) == Times(k, B, c) {
      TimesCancel(k, A, B, c);
    }
  }

  /** When a lift lies on the curve, the other parity lifts to its opposite. */
  lemma {:induction false} LiftsOpposite(r: nat, c: Curve)
    requires ValidCurve(c) && r < c.p && Lift(r, 0, c).Some? && OnCurve(Aff(r, Lift(r, 0, c).value), c)
    ensures IsPoint(Some(Aff(r, Lift(r, 0, c).value)), c)
    ensures Lift(r, 1, c).Some?
    ensures Some(Aff(r, Lift(r, 1, c).value)) == Negate(Some(Aff(r, Lift(r, 0, c).value)), c)
  {
    hide ValidCurve, FitsWords, OnCurve, Prime, Lift, Negate;
    CurveNumbers(c);
    LiftRange(r, 0, c);
    var R := Aff(r, Lift(r, 0, c).value);
    LiftOfPoint(R, 0, c);
    LiftOfPoint(R, 1, c);
    NotOwnOpposite(Some(R), c);
  }

  /**
   * For every digest and every r, s, made by the signer or not: the two parities never
   * recover one key.
   */
  lemma {:induction false} ParitiesDiffer(digest: bytes, rBytes: bytes, sBytes: bytes, c: Curve)
    requires ValidCurve(c)
    ensures var key := RecoverPublicKey(digest, rBytes, sBytes, 0, c);
            key.None? || key != RecoverPublicKey(digest, rBytes, sBytes, 1, c)
  {
    hide ValidCurve, FitsWords, OnCurve, Prime, Pow256, ToBytes, Big, RecoverFrom, Lift, ModInv, EncodePoint;
    CurveNumbers(c);
    if RecoverPublicKey(digest, rBytes, sBytes, 0, c).Some? {
      var (r, s, n) := (Big(rBytes), Big(sBytes), c.order);
      var z, rInv := Big(digest) % n, ModInv(r, n).value;
      InverseOfR(r, n);
      LiftsOpposite(r, c);
      var R := Aff(r, Lift(r, 0, c).value);
      RecoveriesDiffer(R, z, s, rInv, c);
      RecoveredOnCurve(R, z, s, rInv, c);
      AddNegate(Some(R), c);
      RecoveredOnCurve(Aff(r, Lift(r, 1, c).value), z, s, rInv, c);
      var Q, Q' := RecoverFrom(R, z, s, rInv, c), RecoverFrom(Aff(r, Lift(r, 1, c).value), z, s, rInv, c);
      if Q'.Some? {
        EncodeInjective(Q.value, Q'.value, c);
      }
    }
  }

  lemma {:induction false} RecoveredOnCurve(R: Aff, z: nat, s: nat, rInv: int, c: Curve)
    requires ValidCurve(c) && IsPoint(Some(R), c)
    ensures IsPoint(RecoverFrom(R, z, s, rInv, c), c)
  {
    hide ValidCurve, FitsWords, OnCurve, Prime, Times, ScalarMultiply, Add, Negate;
    CurveNumbers(c);
    MultipleIsPoint(Some(R), s, c);
    var sR, zG := ScalarMultiply(Some(R), s, c), ScalarMultiply(Some(c.G), z, c);
    MultipleIsPoint(Some(c.G), z, c);
    AddNegate(zG, c);
    GroupLaw(sR, Negate(zG, c), None, c);
    MultipleIsPoint(sR, rInv, c);
    MultipleIsPoint(Add(sR, Negate(zG, c), c), rInv, c);
  }

  /**
   * So two hits cannot happen, and yParityByTrial returns a parity exactly when that
   * parity recovers the key.
   */
  lemma {:induction false} TrialExactly(digest: bytes, sig: bytes, publicKey: bytes, parity: int, c: Curve)
    requires ValidCurve(c) && |sig| == 64 && UncompressedPoint(publicKey).Some? && (parity == 0 || parity == 1)
    ensures YParityByTrial(digest, sig, publicKey, c) == Ok(parity)
       <==> RecoverPublicKey(digest, sig[..32], sig[32..], parity, c) == UncompressedPoint(publicKey)
  {
    hide ValidCurve, RecoverPublicKey;
    ParitiesDiffer(digest, sig[..32], sig[32..], c);
  }

  // ---- recovery undoes signing ---------------------------------------------

  /** The scalar t of the point tG that recovery lifts for a fresh signature. */
  function SignedMultiple(digest: bytes, d: int, k: int, c: Curve): int
    requires ValidCurve(c) && SignScalars(digest, d, k, c).Ok?
  {
    var R := ScalarMultiply(Some(c.G), k, c).value;
    if RawS(Big(digest) % c.order, R.x, d, k, c.order) > c.order / 2 then c.order - k else k
  }

  /** s t = z + r d modulo the order. */
  predicate Signs(s: int, t: int, z: int, r: int, d: int, n: pos) { Cong(s * t, z + r * d, n) }

  /** What signing has computed when it returns scalars. */
  lemma {:induction false} SignScalarsForm(digest: bytes, d: int, k: int, c: Curve)
    requires ValidCurve(c) && SignScalars(digest, d, k, c).Ok?
    ensures |digest| == 32 && 0 < d < c.order && 0 < k < c.order && ScalarMultiply(Some(c.G), k, c).Some?
    ensures var n, R := c.order, ScalarMultiply(Some(c.G), k, c).value;
            var s0 := RawS(Big(digest) % n, R.x, d, k, n);
            && 0 < R.x < n && 0 < s0 < n
            && SignScalars(digest, d, k, c).value
               == (if s0 > n / 2 then (R.x, n - s0, 1 - R.y % 2) else (R.x, s0, R.y % 2))
  {
    hide ValidCurve, Big, PowMod, ScalarMultiply, RawS;
  }

  /** The equation, before and after the low-S flip. */
  lemma {:induction false} EitherEquation(z: int, r: int, d: int, k: int, n: pos)
    requires Prime(n) && 0 < k < n
    ensures var s0 := RawS(z, r, d, k, n); Signs(s0, k, z, r, d, n) && Signs(n - s0, n - k, z, r, d, n)
  {
    hide Prime, RawS, Cong;
    SignEquation(z, r, d, k, n);
    FlippedEquation(RawS(z, r, d, k, n), k, z + r * d, n);
  }

  /** A signature's s, parity and lifted point, before and after the low-S flip. */
  lemma {:induction false} SignedShape(digest: bytes, d: int, k: int, c: Curve)
    requires ValidCurve(c) && SignScalars(digest, d, k, c).Ok?
    ensures var (r, s, parity) := SignScalars(digest, d, k, c).value;
            var (n, t) := (c.order, SignedMultiple(digest, d, k, c));
            && |digest| == 32 && 0 < r < n && 0 < s <= n / 2 && r < c.p && (parity == 0 || parity == 1)
            && 0 < d < n && 0 < t < n
            && Signs(s, t, Big(digest) % n, r, d, n)
            && Lift(r, parity, c).Some?
            && Times(t, Some(c.G), c) == Some(Aff(r, Lift(r, parity, c).value))
  {
    hide ValidCurve, OnCurve, Prime, Pow256, Big, Times, Lift, RawS, Negate, FitsWords, Signs,
         SignScalars, ScalarMultiply;
    CurveNumbers(c);
    SignScalarsForm(digest, d, k, c);
    var G := Some(c.G);
    ScalarMultiplyIsTimes(G, k, c);
    TimesIsPoint(k, G, c);
    var R := Times(k, G, c).value;
    EitherEquation(Big(digest) % c.order, R.x, d, k, c.order);
    LiftOfPoint(R, 0, c);
    LiftOfPoint(R, 1, c);
    OppositeMultiple(k, c);
  }

  lemma {:induction false} OppositeMultiple(k: nat, c: Curve)
    requires ValidCurve(c) && 0 < k < c.order
    ensures Negate(Times(k, Some(c.G), c), c) == Times(c.order - k, Some(c.G), c)
  {
    hide ValidCurve, OnCurve, Prime, Times, Negate, FitsWords;
    CurveNumbers(c);
    var n, G := c.order, Some(c.G);
    var e := OppositeScalar(k, n);
    NegateTimes(k, e, G, c);
    TimesCong(e, n - k, G, c);
  }

  lemma {:induction false} OppositeScalar(k: nat, n: pos) returns (e: nat)
    requires 0 < k < n
    ensures e == (n - 1) * k && Cong(e, n - k, n)
  {
    LessOne(k, n);
    e := k * (n - 1);
    assert k * (n - 1) == (n - k) + (k - 1) * n;
    CongFrom(e, n - k, k - 1, n);
  }

  /** Whether a multiple of the base point is the public point. */
  lemma {:induction false} MultipleIsPublic(k: nat, d: nat, c: Curve)
    requires ValidCurve(c) && 0 < d < c.order
    ensures PublicPoint(d, c).Ok?
    ensures EncodeMultiple(k, c) == Some(PublicPoint(d, c).value) <==> Cong(k, d, c.order)
  {
    hide ValidCurve, OnCurve, Prime, Times, FitsWords, EncodePoint;
    CurveNumbers(c);
    var G := Some(c.G);
    ScalarMultiplyIsTimes(G, d, c);
    Remainder(d, 0, d, c.order);
    TimesIsPoint(d, G, c);
    TimesIsPoint(k, G, c);
    if Cong(k, d, c.order) {
      TimesCong(k, d, G, c);
    } else if EncodeMultiple(k, c) == Some(PublicPoint(d, c).value) {
      EncodeInjective(Times(k, G, c).value, Times(d, G, c).value, c);
      TimesInjective(k, d, G, c);
    }
  }

  /**
   * recoverPublicKey at the returned parity gives the signer's public point, and at
   * the other parity it does not, low-S flip included.
   */
  lemma {:induction false} RecoverUndoesSign(digest: bytes, d: int, k: int, c: Curve)
    requires ValidCurve(c) && SignScalars(digest, d, k, c).Ok?
    ensures PublicPoint(d, c).Ok?
    ensures var (r, s, parity) := SignScalars(digest, d, k, c).value;
            var (rBytes, sBytes, key) := (ToBytes(r, 32), ToBytes(s, 32), Some(PublicPoint(d, c).value));
            && RecoverPublicKey(digest, rBytes, sBytes, parity, c) == key
            && RecoverPublicKey(digest, rBytes, sBytes, 1 - parity, c) != key
  {
    hide ValidCurve, Times, SignScalars, SignedMultiple, RecoverPublicKey, PublicPoint, Lift, ToBytes, Big, Signs;
    SignedShape(digest, d, k, c);
    var (r, s, parity) := SignScalars(digest, d, k, c).value;
    var t := SignedMultiple(digest, d, k, c);
    AtRightParity(digest, d, r, s, parity, t, c);
    ParitiesDiffer(digest, ToBytes(r, 32), ToBytes(s, 32), c);
  }

  lemma {:induction false} InverseOfR(r: nat, n: pos)
    requires Prime(n) && 0 < r < n
    ensures ModInv(r, n).Some?
    ensures ModInv(r, n).value >= 0 && ModInv(r, n).value % n != 0 && (ModInv(r, n).value * r) % n == 1
  {
    hide Prime;
    Remainder(r, 0, r, n);
    ModInvPrime(r, n);
  }

  lemma {:induction false} AtRightParity(digest: bytes, d: nat, r: nat, s: nat, parity: int, t: nat, c: Curve)
    requires |digest| == 32 && (parity == 0 || parity == 1)
    requires 0 < r < c.order && 0 < s < c.order && r < c.p && 0 < d < c.order
    requires ValidCurve(c) && Lift(r, parity, c).Some?
    requires Times(t, Some(c.G), c) == Some(Aff(r, Lift(r, parity, c).value))
    requires Signs(s, t, Big(digest) % c.order, r, d, c.order)
    ensures PublicPoint(d, c).Ok?
    ensures RecoverPublicKey(digest, ToBytes(r, 32), ToBytes(s, 32), parity, c) == Some(PublicPoint(d, c).value)
  {
    hide ValidCurve, Times, RecoverPublicKey, PublicPoint, Lift, ToBytes, Big, ModInv, Prime, Mul;
    CurveNumbers(c);
    InverseOfR(r, c.order);
    var z, rInv: nat := Big(digest) % c.order, ModInv(r, c.order).value;
    var st, opp := Mul(s, t), Mul(c.order - 1, z);
    var e := Mul(rInv, st + opp);
    RightParity(digest, d, r, s, parity, t, z, rInv, st, opp, e, c);
  }

  lemma {:induction false} RightParity(
    digest: bytes, d: nat, r: nat, s: nat, parity: int, t: nat, z: nat, rInv: nat, st: nat, opp: nat, e: nat, c: Curve)
    requires st == s * t && opp == (c.order - 1) * z && e == rInv * (st + opp)
    requires |digest| == 32 && z == Big(digest) % c.order && (parity == 0 || parity == 1)
    requires 0 < r < c.order && 0 < s < c.order && r < c.p && 0 < d < c.order
    requires ValidCurve(c) && Lift(r, parity, c).Some?
    requires Times(t, Some(c.G), c) == Some(Aff(r, Lift(r, parity, c).value))
    requires ModInv(r, c.order) == Some(rInv) && (rInv * r) % c.order == 1
    requires Cong(st, z + r * d, c.order)
    ensures PublicPoint(d, c).Ok?
    ensures RecoverPublicKey(digest, ToBytes(r, 32), ToBytes(s, 32), parity, c) == Some(PublicPoint(d, c).value)
  {
    hide ValidCurve, Times, RecoverPublicKey, EncodeMultiple, PublicPoint, Lift, ToBytes, Big, ModInv;
    RecoverAtParity(digest, r, s, parity, t, z, rInv, st, opp, e, c);
    RecoveredScalar(st, z, r, d, rInv, opp, c.order);
    MultipleIsPublic(e, d, c);
  }

  /**
   * The checkpoint signer's whole path: from the high-S DER of a fresh signature,
   * strict DER and low-S give back the raw form, and trial recovery finds its parity.
   */
  lemma {:induction false} SignerPath(digest: bytes, d: int, k: int, c: Curve)
    requires ValidCurve(c) && SignScalars(digest, d, k, c).Ok?
    ensures c.order <= Pow256(32) && PublicPoint(d, c).Ok?
    ensures SignRawDigest(digest, d, k, c).Ok?
    ensures var sig := SignRawDigest(digest, d, k, c).value;
            && Der.RawSignature(sig.raw, c.order)
            && Der.NormalizeDer(sig.der, c.order) == Ok(sig.raw)
            && Der.HighSDer(sig.raw, c.order).Ok?
            && Der.NormalizeDer(Der.HighSDer(sig.raw, c.order).value, c.order) == Ok(sig.raw)
            && YParityByTrial(digest, sig.raw, PublicPoint(d, c).value, c) == Ok(sig.yParity)
  {
    hide Signs, ValidCurve, SignScalars, RecoverPublicKey, PublicPoint, ToBytes, Big, Lift, Times, Pow256,
         Der.DerSeq, Der.DerToRaw, Der.HighSDer;
    WordsFit(c);
    SignedShape(digest, d, k, c);
    RecoverUndoesSign(digest, d, k, c);
    PublicPointShape(d, c);
    var (r, s, parity) := SignScalars(digest, d, k, c).value;
    Der.RawHalves(r, s, c.order);
    var raw := ToBytes(r, 32) + ToBytes(s, 32);
    Der.DerToRawComplete(raw, c.order);
    Der.NormalizeHighS(raw, c.order);
  }

  lemma {:induction false} WordsFit(c: Curve)
    requires ValidCurve(c)
    ensures c.order <= Pow256(32) && c.p <= Pow256(32)
  {
    hide Pow256;
  }

  lemma {:induction false} PublicPointShape(d: int, c: Curve)
    requires ValidCurve(c) && PublicPoint(d, c).Ok?
    ensures |PublicPoint(d, c).value| == 65 && PublicPoint(d, c).value[0] == 4
  {
    hide ValidCurve, ToBytes, Times;
  }

  /** The widths of a signature's parts. */
  lemma {:induction false} SignedLengths(digest: bytes, d: int, k: int, c: Curve)
    requires ValidCurve(c) && SignRawDigest(digest, d, k, c).Ok?
    ensures var sig := SignRawDigest(digest, d, k, c).value;
            |digest| == 32 && |sig.r| == |sig.s| == 32 && sig.raw == sig.r + sig.s
  {
    hide ValidCurve, SignScalars, Der.DerSeq, ToBytes;
    SignScalarsForm(digest, d, k, c);
  }

  // ---- the code's statements -----------------------------------------------

  /** modSqrt and modInv through the power loop. */
  method LiftLoop(x: int, yParity: int, c: Curve) returns (r: Option<int>)
    ensures r == Lift(x, yParity, c)
  {
    hide Rhs;
    var rhs := Rhs(x, c);
    var aa := rhs % c.p;
    var y := 0;
    if aa != 0 {
      y := ModPow(aa, (c.p + 1) / 4, c.p);
      if (y * y) % c.p != aa {
        return None;
      }
    }
    if y % 2 != yParity {
      y := (c.p - y) % c.p;
    }
    return Some(y);
  }

  method ModInvLoop(a: int, m: pos) returns (r: Option<int>)
    ensures r == ModInv(a, m)
  {
    if a == 0 {
      return None;
    }
    var inv := ModPow(a, m - 2, m);
    if (inv * a) % m != 1 {
      return None;
    }
    return Some(inv);
  }

  method RecoverFromLoop(R: Aff, z: nat, s: nat, rInv: int, c: Curve) returns (r: Point)
    requires ValidCurve(c) && IsPoint(Some(R), c)
    ensures r == RecoverFrom(R, z, s, rInv, c)
    ensures IsPoint(r, c)
  {
    hide ValidCurve, FitsWords, Prime, OnCurve, Times, Add, ScalarMultiply, JacAddMixed, FromJac, Represents;
    CurveNumbers(c);
    var sR, _ := PointMultiply(Some(R), s, c);
    FastIsScalar(Some(R), s, c);
    MultipleIsPoint(Some(R), s, c);
    if sR.None? {
      return None;
    }
    var sum := sR;
    if z != 0 {
      var zG, _ := PointMultiply(Some(c.G), z, c);
      FastIsScalar(Some(c.G), z, c);
      MultipleIsPoint(Some(c.G), z, c);
      if zG.None? {
        return None;
      }
      var neg := Aff(zG.value.x, (c.p - zG.value.y) % c.p);
      AddNegate(zG, c);
      GroupLaw(sR, Some(neg), None, c);
      StartRepresents(sR.value, c.p);
      AddRepresents(Some(Jac(sR.value.x, sR.value.y, 1)), sR, Some(neg), c);
      MixedSumOnCurve(sR, Some(neg), c);
      var added := JacAddMixed(Some(Jac(sR.value.x, sR.value.y, 1)), Some(neg), c);
      FromJacRepresents(added, Add(sR, Some(neg), c), c.p);
      sum := FromJac(added, c.p);
      if sum.None? {
        return None;
      }
    }
    ghost var met: bool;
    r, met := PointMultiply(sum, rInv, c);
    FastIsScalar(sum, rInv, c);
    MultipleIsPoint(sum, rInv, c);
  }

  lemma {:induction false} MultipleIsPoint(P: Point, k: int, c: Curve)
    requires ValidCurve(c) && IsPoint(P, c)
    ensures IsPoint(ScalarMultiply(P, k, c), c)
  {
    hide ValidCurve, FitsWords, OnCurve;
    TimesIsPoint(k % c.order, P, c);
  }

  method RecoverPublicKeyLoop(digest: bytes, rBytes: bytes, sBytes: bytes, yParity: int, c: Curve)
    returns (key: Option<bytes>)
    requires ValidCurve(c)
    ensures key == RecoverPublicKey(digest, rBytes, sBytes, yParity, c)
  {
    hide ValidCurve, FitsWords, Prime, OnCurve, Lift, RecoverFrom, Big, ToBytes, ModInv, EncodePoint;
    CurveNumbers(c);
    if yParity != 0 && yParity != 1 { return None; }
    if |digest| != 32 || |rBytes| != 32 || |sBytes| != 32 { return None; }
    var r := BytesToBig(rBytes);
    var s := BytesToBig(sBytes);
    var n := c.order;
    if r <= 0 || r >= n || s <= 0 || s >= n || r >= c.p { return None; }
    var y := LiftLoop(r, yParity, c);
    if y.None? { return None; }
    var R := Aff(r, y.value);
    if !OnCurve(R, c) { return None; }
    LiftRange(r, yParity, c);
    var digestValue := BytesToBig(digest);
    var rInv := ModInvLoop(r, n);
    if rInv.None? { return None; }
    var Q := RecoverFromLoop(R, digestValue % n, s, rInv.value, c);
    if Q.None? || !OnCurve(Q.value, c) { return None; }
    return Some(EncodePoint(Q.value));
  }

  lemma {:induction false} LiftRange(x: int, yParity: int, c: Curve)
    requires c.p >= 2 && Lift(x, yParity, c).Some?
    ensures 0 <= Lift(x, yParity, c).value < c.p
  {
    hide Rhs, Pow;
  }

  method YParityByTrialLoop(digest: bytes, sig: bytes, publicKey: bytes, c: Curve)
    returns (parity: Result<int, ParityError>)
    requires ValidCurve(c)
    ensures parity == YParityByTrial(digest, sig, publicKey, c)
  {
    hide ValidCurve, RecoverPublicKey;
    if |sig| != 64 { return Err(Unmatched); }
    var want := UncompressedPoint(publicKey);
    if want.None? { return Err(BadPublicKey); }
    var r, s := sig[..32], sig[32..];
    var hits: seq<int> := [];
    for bit := 0 to 2
      invariant hits == Hits(digest, r, s, want.value, bit, c)
    {
      var got := RecoverPublicKeyLoop(digest, r, s, bit, c);
      if got == want {
        hits := hits + [bit];
      }
    }
    TwoTrials(digest, r, s, want.value, c);
    if |hits| != 1 { return Err(Unmatched); }
    return Ok(hits[0]);
  }

  /** The parities below `bits` whose recovery gives the key. */
  function Hits(digest: bytes, r: bytes, s: bytes, want: bytes, bits: nat, c: Curve): seq<int> {
    if bits == 0 then []
    else
      var hit := RecoverPublicKey(digest, r, s, bits - 1, c) == Some(want);
      Hits(digest, r, s, want, bits - 1, c) + (if hit then [bits - 1] else [])
  }

  lemma {:induction false} TwoTrials(digest: bytes, r: bytes, s: bytes, want: bytes, c: Curve)
    ensures Hits(digest, r, s, want, 2, c)
         == (if RecoverPublicKey(digest, r, s, 0, c) == Some(want) then [0] else [])
          + (if RecoverPublicKey(digest, r, s, 1, c) == Some(want) then [1] else [])
  {
    hide RecoverPublicKey;
    assert Hits(digest, r, s, want, 0, c) == [];
  }

  method SignScalarsLoop(digest: bytes, d: int, k: int, c: Curve) returns (r: Result<(nat, nat, int), SignError>)
    requires ValidCurve(c)
    ensures r == SignScalars(digest, d, k, c)
  {
    hide ValidCurve, FitsWords, Prime, OnCurve, Big, PowMod, ScalarMultiply, IsPoint, SolveS;
    CurveNumbers(c);
    if |digest| != 32 { return Err(BadDigest); }
    var n := c.order;
    if d <= 0 || d >= n || k <= 0 || k >= n { return Err(ScalarOutOfRange); }
    var R, _ := PointMultiply(Some(c.G), k, c);
    FastIsScalar(Some(c.G), k, c);
    if R.None? || R.value.x <= 0 || R.value.x >= n { return Err(BadNonce); }
    var x := R.value.x;
    var digestValue := BytesToBig(digest);
    var kInv := ModPow(k, n - 2, n);
    var s := SolveS(kInv, digestValue % n, x, d, n);
    if s == 0 { return Err(BadNonce); }
    var yParity := R.value.y % 2;
    if s > n / 2 {
      return Ok((x, n - s, 1 - yParity));
    }
    return Ok((x, s, yParity));
  }

  method SignRawDigestLoop(digest: bytes, d: int, k: int, c: Curve) returns (sig: Result<Signature, SignError>)
    requires ValidCurve(c)
    ensures sig == SignRawDigest(digest, d, k, c)
  {
    WordsFit(c);
    var scalars := SignScalarsLoop(digest, d, k, c);
    if scalars.Err? { return Err(scalars.error); }
    SignedShape(digest, d, k, c);
    hide ValidCurve, Times, Big, ToBytes, Pow256, SignScalars, Lift, SignedMultiple, Signs, Der.DerSeq;
    var (r, s, yParity) := scalars.value;
    var rBytes := BigToBytes(r, 32);
    var sBytes := BigToBytes(s, 32);
    ToBytesOfBig(rBytes.value);
    ToBytesOfBig(sBytes.value);
    var der := Der.DerSeq(rBytes.value, sBytes.value);
    if der.Err? { return Err(ScalarOutOfRange); }
    return Ok(Signature(rBytes.value, sBytes.value, yParity, der.value, rBytes.value + sBytes.value));
  }
}

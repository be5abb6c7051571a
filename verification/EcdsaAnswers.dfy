/**
 * What signing, key derivation, recovery and trial answer, told from the caller's values
 * and the group alone: when each succeeds, with what, and which error it gives when not.
 */
module EcdsaAnswers {
  import opened Bytes
  import opened NumberTheory
  import opened Curve
  import opened CurveGroup
  import opened Ecdsa
  import Der

  // ---- signing -------------------------------------------------------------

  /**
   * (r, s) is the low-S signature of the digest by d with nonce k, and v the parity it is
   * recovered at: r is the abscissa of R = kG, s is below half the order, and s k or its
   * opposite is z + r d; in the first case v is the parity of R's ordinate, else the other.
   */
  ghost predicate LowSignature(digest: bytes, d: int, k: int, r: int, s: int, v: int, c: Curve) {
    && |digest| == 32 && 0 < d < c.order && 0 < k < c.order
    && Times(k, Some(c.G), c).Some?
    && var R := Times(k, Some(c.G), c).value;
       && r == R.x && 0 < r < c.order && 0 < s && 2 * s < c.order
       && ((v == R.y % 2 && Cong(s * k, Big(digest) + r * d, c.order))
           || (v == 1 - R.y % 2 && Cong(-(s * k), Big(digest) + r * d, c.order)))
  }

  /** Signing returns exactly that. */
  lemma {:induction false} SignExactly(digest: bytes, d: int, k: int, r: nat, s: nat, v: int, c: Curve)
    requires ValidCurve(c)
    ensures SignScalars(digest, d, k, c) == Ok((r, s, v)) <==> LowSignature(digest, d, k, r, s, v, c)
  {
    hide ValidCurve, FitsWords, Prime, OnCurve, Times, Big, Cong, RawS;
    CurveNumbers(c);
    var n, G := c.order, Some(c.G);
    if |digest| == 32 && 0 < d < n && 0 < k < n {
      NonceMultiple(k, c);
      var R := Times(k, G, c).value;
      if 0 < s && 2 * s < n {
        LowOrFlipped(Big(digest), R.x, d, k, s, n);
      }
    }
  }

  /** k G is finite, and the fast multiplication computes it. */
  lemma {:induction false} NonceMultiple(k: nat, c: Curve)
    requires ValidCurve(c) && 0 < k < c.order
    ensures Times(k, Some(c.G), c).Some? && ScalarMultiply(Some(c.G), k, c) == Times(k, Some(c.G), c)
    ensures IsPoint(Times(k, Some(c.G), c), c)
  {
    hide ValidCurve, FitsWords, Prime, OnCurve, Times;
    CurveNumbers(c);
    BelowOrder(k, Some(c.G), c);
    ScalarMultiplyIsTimes(Some(c.G), k, c);
    TimesIsPoint(k, Some(c.G), c);
  }

  /** A low s solves the equation exactly when it is the unflipped s, its opposite when it is the flipped one. */
  lemma {:induction false} LowOrFlipped(z: nat, r: int, d: int, k: int, s: int, n: pos)
    requires Prime(n) && 0 < k < n && 0 < s < n
    ensures Cong(s * k, z + r * d, n) <==> RawS(z % n, r, d, k, n) == s
    ensures Cong(-(s * k), z + r * d, n) <==> RawS(z % n, r, d, k, n) == n - s
  {
    hide Prime, Cong, RawS;
    var s0 := RawS(z % n, r, d, k, n);
    RawSolves(z, r, d, k, n);
    SolutionUnique(s0, s, k, z + r * d, n);
    SolutionUnique(s0, n - s, k, z + r * d, n);
    FlippedProduct(s, k, n);
    Interchanged((n - s) * k, -(s * k), z + r * d, n);
  }

  lemma {:induction false} RawSolves(z: nat, r: int, d: int, k: int, n: pos)
    requires Prime(n) && 0 < k < n
    ensures Cong(RawS(z % n, r, d, k, n) * k, z + r * d, n)
  {
    hide Prime, Cong, RawS;
    SignEquation(z % n, r, d, k, n);
    CongMod(z, n);
    CongRefl(r * d, n);
    CongAdd(z % n, z, r * d, r * d, n);
    CongTrans(RawS(z % n, r, d, k, n) * k, z % n + r * d, z + r * d, n);
  }

  /** Modulo a prime, one residue solves s k = w. */
  lemma {:induction false} SolutionUnique(s0: nat, s: nat, k: int, w: int, n: pos)
    requires Prime(n) && 0 < k < n && s0 < n && s < n && Cong(s0 * k, w, n)
    ensures Cong(s * k, w, n) <==> s0 == s
  {
    hide Prime, Cong;
    if Cong(s * k, w, n) {
      Remainder(k, 0, k, n);
      CongMeet(k * s0, k * s, w, n);
      Cancel(k, s0, s, n);
      ReducedScalars(s0, s, n);
    }
  }

  lemma {:induction false} FlippedProduct(s: int, k: int, n: pos)
    ensures Cong((n - s) * k, -(s * k), n)
  {
    assert (n - s) * k == -(s * k) + k * n;
    CongFrom((n - s) * k, -(s * k), k, n);
  }

  lemma {:induction false} Interchanged(a: int, b: int, w: int, n: pos)
    requires Cong(a, b, n)
    ensures Cong(a, w, n) <==> Cong(b, w, n)
  {
  }

  /**
   * When signing succeeds, and which error each failing guard gives: the digest first, then
   * the scalars, then the nonce, which is bad exactly when its abscissa is no scalar or z + r d
   * vanishes.
   */
  lemma {:induction false} SignOutcomes(digest: bytes, d: int, k: int, c: Curve)
    requires ValidCurve(c)
    ensures SignScalars(digest, d, k, c) == Err(BadDigest) <==> |digest| != 32
    ensures SignScalars(digest, d, k, c) == Err(ScalarOutOfRange)
       <==> |digest| == 32 && !(0 < d < c.order && 0 < k < c.order)
    ensures |digest| == 32 && 0 < d < c.order && 0 < k < c.order ==>
              && Times(k, Some(c.G), c).Some?
              && var r := Times(k, Some(c.G), c).value.x;
                 && (SignScalars(digest, d, k, c).Ok? <==> 0 < r < c.order && (Big(digest) + r * d) % c.order != 0)
                 && (SignScalars(digest, d, k, c) == Err(BadNonce)
                     <==> !(0 < r < c.order) || (Big(digest) + r * d) % c.order == 0)
  {
    hide ValidCurve, FitsWords, Prime, OnCurve, Times, Big, RawS;
    CurveNumbers(c);
    if |digest| == 32 && 0 < d < c.order && 0 < k < c.order {
      NonceMultiple(k, c);
      RawSVanishes(Big(digest), Times(k, Some(c.G), c).value.x, d, k, c.order);
    }
  }

  lemma {:induction false} RawSVanishes(z: nat, r: int, d: int, k: int, n: pos)
    requires Prime(n) && 0 < k < n
    ensures RawS(z % n, r, d, k, n) == 0 <==> (z + r * d) % n == 0
  {
    hide Prime, Cong, RawS;
    RawSolves(z, r, d, k, n);
    SolutionUnique(RawS(z % n, r, d, k, n), 0, k, z + r * d, n);
    Vanishing(z + r * d, k, n);
  }

  lemma {:induction false} Vanishing(w: int, k: int, n: pos)
    ensures Cong(0 * k, w, n) <==> w % n == 0
  {
    Remainder(0, 0, 0, n);
  }

  /** The whole signer fails as its scalars do, and otherwise spells them, 32 bytes each. */
  lemma {:induction false} SignRawOutcomes(digest: bytes, d: int, k: int, c: Curve)
    requires ValidCurve(c)
    ensures SignScalars(digest, d, k, c).Err? ==>
              SignRawDigest(digest, d, k, c) == Err(SignScalars(digest, d, k, c).error)
    ensures SignScalars(digest, d, k, c).Ok? ==>
              && SignRawDigest(digest, d, k, c).Ok?
              && var (sig, (r, s, v)) := (SignRawDigest(digest, d, k, c).value, SignScalars(digest, d, k, c).value);
                 && |sig.r| == |sig.s| == 32 && Big(sig.r) == r && Big(sig.s) == s
                 && sig.yParity == v && sig.raw == sig.r + sig.s
  {
    hide ValidCurve, SignScalars, Der.DerSeq, ToBytes, Big, Pow256, Lift, Times, Signs;
    if SignScalars(digest, d, k, c).Ok? {
      SignerPath(digest, d, k, c);
      SignedShape(digest, d, k, c);
      var (r, s, _) := SignScalars(digest, d, k, c).value;
      WordsFit(c);
      BigOfToBytes(r, 32);
      BigOfToBytes(s, 32);
    }
  }

  // ---- public points -------------------------------------------------------

  /** The encoding is 4, then 32 bytes that spell the abscissa, then 32 that spell the ordinate. */
  lemma {:induction false} EncodePointSpelled(Q: Aff, c: Curve)
    requires ValidCurve(c) && IsPoint(Some(Q), c)
    ensures var key := EncodePoint(Q);
            |key| == 65 && key[0] == 4 && Big(key[1..33]) == Q.x && Big(key[33..65]) == Q.y
  {
    hide ValidCurve, OnCurve, Prime, Pow256, ToBytes, Big;
    CurveNumbers(c);
    BigOfToBytes(Q.x, 32);
    BigOfToBytes(Q.y, 32);
    var key := EncodePoint(Q);
    assert key[1..33] == ToBytes(Q.x, 32) && key[33..65] == ToBytes(Q.y, 32);
  }

  /** publicPoint refuses exactly the scalars out of range, and otherwise spells d G. */
  lemma {:induction false} PublicPointExactly(d: int, c: Curve)
    requires ValidCurve(c)
    ensures PublicPoint(d, c) == Err(ScalarOutOfRange) <==> !(0 < d < c.order)
    ensures PublicPoint(d, c).Ok? <==> 0 < d < c.order
    ensures 0 < d < c.order ==>
              && Times(d, Some(c.G), c).Some?
              && var key := PublicPoint(d, c).value;
                 && |key| == 65 && key[0] == 4
                 && Big(key[1..33]) == Times(d, Some(c.G), c).value.x
                 && Big(key[33..65]) == Times(d, Some(c.G), c).value.y
  {
    hide ValidCurve, OnCurve, Prime, Times, Big, EncodePoint, FitsWords, ScalarMultiply;
    CurveNumbers(c);
    if 0 < d < c.order {
      NonceMultiple(d, c);
      EncodePointSpelled(Times(d, Some(c.G), c).value, c);
    }
  }

  // ---- recovery ------------------------------------------------------------

  /** The verification equation at a point over abscissa r with ordinate parity v. */
  ghost predicate Verifies(digest: bytes, r: nat, s: nat, v: int, Q: Point, c: Curve) {
    exists R: Aff :: IsPoint(Some(R), c) && R.x == r && R.y % 2 == v && VerifiesAt(R, Big(digest), r, s, Q, c)
  }

  /** s R = r Q + z G. */
  predicate VerifiesAt(R: Aff, z: nat, r: nat, s: nat, Q: Point, c: Curve) {
    Times(s, Some(R), c) == Add(Times(r, Q, c), Times(z, Some(c.G), c), c)
  }

  /** What recoverPublicKey demands of its inputs. */
  predicate WellShaped(digest: bytes, rBytes: bytes, sBytes: bytes, v: int, c: Curve) {
    && (v == 0 || v == 1) && |digest| == 32 && |rBytes| == 32 && |sBytes| == 32
    && 0 < Big(rBytes) < c.order && 0 < Big(sBytes) < c.order && Big(rBytes) < c.p
  }

  /** Recovery is the multiple rInv (s R - z G) of whatever point was lifted. */
  lemma {:induction false} RecoverFromIs(R: Aff, z: nat, s: nat, rInv: nat, c: Curve)
    requires ValidCurve(c) && IsPoint(Some(R), c) && 0 < s < c.order && z < c.order
    ensures var D := Add(Times(s, Some(R), c), Negate(Times(z, Some(c.G), c), c), c);
            IsPoint(D, c) && RecoverFrom(R, z, s, rInv, c) == Times(rInv, D, c)
  {
    hide ValidCurve, FitsWords, OnCurve, IsPoint, Prime, Times, ScalarMultiply, Add, Negate;
    CurveNumbers(c);
    var G, P := Some(c.G), Some(R);
    ScalarMultiplyIsTimes(P, s, c);
    Remainder(s, 0, s, c.order);
    TimesIsPoint(s, P, c);
    TimesIsPoint(z, G, c);
    AddNegate(Times(z, G, c), c);
    var X, W := Times(s, P, c), Negate(Times(z, G, c), c);
    GroupLaw(X, W, W, c);
    ScalarMultiplyIsTimes(Add(X, W, c), rInv, c);
    TimesOfNone(rInv, c);
    if z == 0 {
      TimesNothing(G, c);
      NegateNone(c);
      AddNone(X, c);
    } else {
      ScalarMultiplyIsTimes(G, z, c);
      Remainder(z, 0, z, c.order);
    }
  }

  lemma {:induction false} NegateNone(c: Curve)
    ensures Negate(None, c) == None
  {
  }

  /** Solving s R = r Q + z G for Q. */
  lemma {:induction false} SolveForKey(R: Aff, z: nat, r: nat, s: nat, rInv: nat, Q: Point, c: Curve)
    requires ValidCurve(c) && IsPoint(Some(R), c) && IsPoint(Q, c) && (rInv * r) % c.order == 1
    ensures Times(rInv, Add(Times(s, Some(R), c), Negate(Times(z, Some(c.G), c), c), c), c) == Q
       <==> VerifiesAt(R, z, r, s, Q, c)
  {
    hide ValidCurve, FitsWords, OnCurve, IsPoint, Prime, Times, Add, Negate;
    CurveNumbers(c);
    var G, X := Some(c.G), Times(s, Some(R), c);
    TimesIsPoint(s, Some(R), c);
    TimesIsPoint(z, G, c);
    TimesIsPoint(r, Q, c);
    var Z := Times(z, G, c);
    AddNegate(Z, c);
    var D := Add(X, Negate(Z, c), c);
    GroupLaw(X, Negate(Z, c), Z, c);
    GroupLaw(Times(r, Q, c), Z, Negate(Z, c), c);
    AddNone(X, c);
    AddNone(Times(r, Q, c), c);
    assert rInv * r == r * rInv;
    UndoneBy(r, rInv, D, c);
    UndoneBy(rInv, r, Q, c);
  }

  /** A lift on the curve is the point over its abscissa with the wanted parity. */
  lemma {:induction false} LiftExactly(r: nat, v: int, c: Curve)
    requires ValidCurve(c) && r < c.p && (v == 0 || v == 1)
    requires Lift(r, v, c).Some? && OnCurve(Aff(r, Lift(r, v, c).value), c)
    ensures var R := Aff(r, Lift(r, v, c).value); IsPoint(Some(R), c) && R.y % 2 == v
  {
    hide ValidCurve, FitsWords, OnCurve, Prime, Lift, Negate;
    CurveNumbers(c);
    LiftRange(r, v, c);
    var R := Aff(r, Lift(r, v, c).value);
    LiftOfPoint(R, v, c);
    NotOwnOpposite(Some(R), c);
  }

  /** At a lifted point, recovery gives the key that verifies there. */
  lemma {:induction false} RecoverAt(digest: bytes, R: Aff, s: nat, rInv: nat, Q: Aff, c: Curve)
    requires ValidCurve(c) && IsPoint(Some(R), c) && IsPoint(Some(Q), c)
    requires R.x >= 0 && 0 < s < c.order && (rInv * R.x) % c.order == 1
    ensures RecoverFrom(R, Big(digest) % c.order, s, rInv, c) == Some(Q)
       <==> VerifiesAt(R, Big(digest), R.x, s, Some(Q), c)
  {
    hide ValidCurve, FitsWords, OnCurve, IsPoint, Prime, Times, RecoverFrom, Big, Add, Negate;
    CurveNumbers(c);
    RecoverFromIs(R, Big(digest) % c.order, s, rInv, c);
    SolveForKey(R, Big(digest) % c.order, R.x, s, rInv, Some(Q), c);
    TimesMod(Big(digest), Some(c.G), c);
  }

  /**
   * recoverPublicKey returns the encoding of Q exactly when its inputs are well shaped and
   * Q verifies the signature at a point over r with the asked parity.
   */
  lemma {:induction false} RecoverExactly(digest: bytes, rBytes: bytes, sBytes: bytes, v: int, Q: Aff, c: Curve)
    requires ValidCurve(c) && IsPoint(Some(Q), c)
    ensures RecoverPublicKey(digest, rBytes, sBytes, v, c) == Some(EncodePoint(Q))
       <==> WellShaped(digest, rBytes, sBytes, v, c)
            && Verifies(digest, Big(rBytes), Big(sBytes), v, Some(Q), c)
  {
    hide ValidCurve, FitsWords, OnCurve, Prime, Times, RecoverFrom, Big, Lift, ModInv, EncodePoint,
         RecoverPublicKey, VerifiesAt;
    CurveNumbers(c);
    if RecoverPublicKey(digest, rBytes, sBytes, v, c) == Some(EncodePoint(Q)) {
      RecoveredVerifies(digest, rBytes, sBytes, v, Q, c);
    }
    if WellShaped(digest, rBytes, sBytes, v, c) && Verifies(digest, Big(rBytes), Big(sBytes), v, Some(Q), c) {
      VerifiedRecovers(digest, rBytes, sBytes, v, Q, c);
    }
  }

  lemma {:induction false} RecoveredVerifies(digest: bytes, rBytes: bytes, sBytes: bytes, v: int, Q: Aff, c: Curve)
    requires ValidCurve(c) && IsPoint(Some(Q), c)
    requires RecoverPublicKey(digest, rBytes, sBytes, v, c) == Some(EncodePoint(Q))
    ensures WellShaped(digest, rBytes, sBytes, v, c)
    ensures Verifies(digest, Big(rBytes), Big(sBytes), v, Some(Q), c)
  {
    hide ValidCurve, FitsWords, OnCurve, Prime, Times, RecoverFrom, Big, Lift, ModInv, EncodePoint, VerifiesAt;
    CurveNumbers(c);
    var (r, s, n) := (Big(rBytes), Big(sBytes), c.order);
    InverseOfR(r, n);
    var R, rInv := Aff(r, Lift(r, v, c).value), ModInv(r, n).value;
    LiftExactly(r, v, c);
    RecoveredOnCurve(R, Big(digest) % n, s, rInv, c);
    var Q' := RecoverFrom(R, Big(digest) % n, s, rInv, c).value;
    EncodeInjective(Q, Q', c);
    RecoverAt(digest, R, s, rInv, Q, c);
  }

  lemma {:induction false} VerifiedRecovers(digest: bytes, rBytes: bytes, sBytes: bytes, v: int, Q: Aff, c: Curve)
    requires ValidCurve(c) && IsPoint(Some(Q), c) && WellShaped(digest, rBytes, sBytes, v, c)
    requires Verifies(digest, Big(rBytes), Big(sBytes), v, Some(Q), c)
    ensures RecoverPublicKey(digest, rBytes, sBytes, v, c) == Some(EncodePoint(Q))
  {
    hide ValidCurve, FitsWords, OnCurve, Prime, Times, RecoverFrom, Big, Lift, ModInv, EncodePoint, VerifiesAt,
         RecoverPublicKey, Negate;
    CurveNumbers(c);
    var (r, s, n) := (Big(rBytes), Big(sBytes), c.order);
    var R: Aff :| IsPoint(Some(R), c) && R.x == r && R.y % 2 == v
                  && VerifiesAt(R, Big(digest), r, s, Some(Q), c);
    LiftOfPoint(R, v, c);
    InverseOfR(r, n);
    var rInv := ModInv(r, n).value;
    RecoverAt(digest, R, s, rInv, Q, c);
    RecoverPassed(digest, rBytes, sBytes, v, rInv, c);
  }

  /** Whatever is recovered is the encoding of a point of the curve. */
  lemma {:induction false} RecoveredIsPoint(digest: bytes, rBytes: bytes, sBytes: bytes, v: int, c: Curve)
    returns (Q: Aff)
    requires ValidCurve(c) && RecoverPublicKey(digest, rBytes, sBytes, v, c).Some?
    ensures IsPoint(Some(Q), c) && RecoverPublicKey(digest, rBytes, sBytes, v, c) == Some(EncodePoint(Q))
  {
    hide ValidCurve, FitsWords, OnCurve, Prime, Times, RecoverFrom, Big, Lift, ModInv, EncodePoint;
    CurveNumbers(c);
    var (r, s, n) := (Big(rBytes), Big(sBytes), c.order);
    InverseOfR(r, n);
    var R, rInv := Aff(r, Lift(r, v, c).value), ModInv(r, n).value;
    LiftExactly(r, v, c);
    RecoveredOnCurve(R, Big(digest) % n, s, rInv, c);
    Q := RecoverFrom(R, Big(digest) % n, s, rInv, c).value;
  }

  // ---- trial ---------------------------------------------------------------

  /** Trial answers a parity exactly when the inputs have their shapes and that parity recovers the key. */
  lemma {:induction false} TrialOutcomes(digest: bytes, sig: bytes, publicKey: bytes, parity: int, c: Curve)
    requires ValidCurve(c)
    ensures YParityByTrial(digest, sig, publicKey, c) == Ok(parity)
       <==> && |sig| == 64 && (parity == 0 || parity == 1)
            && ((|publicKey| == 65 && publicKey[0] == 4) || |publicKey| == 64)
            && RecoverPublicKey(digest, sig[..32], sig[32..], parity, c)
               == Some(if |publicKey| == 65 then publicKey else [4] + publicKey)
    ensures YParityByTrial(digest, sig, publicKey, c) == Err(BadPublicKey)
       <==> |sig| == 64 && |publicKey| != 64 && !(|publicKey| == 65 && publicKey[0] == 4)
  {
    hide ValidCurve, RecoverPublicKey;
    if |sig| == 64 {
      ParitiesDiffer(digest, sig[..32], sig[32..], c);
    }
  }
}

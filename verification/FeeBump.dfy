/** Fee bumps (bumpFeeQuote in services/chit-sealer/kms-secp256k1.js) and why they end. */
module FeeBump {
  import opened Bytes
  import opened Anchor
  import opened NumberTheory

  /** 110% rounded down, plus one. */
  function Bump(v: nat): nat { v * 110 / 100 + 1 }

  function BumpFeeQuote(f: Fees, ceiling: Option<nat>): Result<Fees, AnchorError> {
    var next := Fees(f.gasLimit, Bump(f.maxFeePerGas), Bump(f.maxPriorityFeePerGas));
    if WithinCeiling(next, ceiling) then Ok(next) else Err(OverCeiling)
  }

  /** k bumps in a row, each accepted. */
  function BumpTimes(f: Fees, k: nat, ceiling: Option<nat>): Result<Fees, AnchorError> {
    if k == 0 then Ok(f)
    else match BumpTimes(f, k - 1, ceiling)
      case Err(e) => Err(e)
      case Ok(g) => BumpFeeQuote(g, ceiling)
  }

  /** Both per-gas fees rise to the least whole number that is more than 10% above. */
  predicate Outbids(next: Fees, f: Fees) {
    && next.gasLimit == f.gasLimit
    && 10 * (next.maxFeePerGas - 1) <= 11 * f.maxFeePerGas < 10 * next.maxFeePerGas
    && 10 * (next.maxPriorityFeePerGas - 1) <= 11 * f.maxPriorityFeePerGas < 10 * next.maxPriorityFeePerGas
  }

  /**
   * A bump outbids, keeps the tip under the max fee, and normalizes as a quote. It is
   * refused, as above the ceiling, exactly when the ceiling is not more than 10% above the max fee.
   */
  lemma {:induction false} BumpOutbids(f: Fees, ceiling: Option<nat>)
    requires f.gasLimit > 0 && f.maxPriorityFeePerGas <= f.maxFeePerGas
    ensures BumpFeeQuote(f, ceiling).Ok? <==> (ceiling.Some? ==> 11 * f.maxFeePerGas < 10 * ceiling.value)
    ensures BumpFeeQuote(f, ceiling).Err? ==> BumpFeeQuote(f, ceiling).error == OverCeiling
    ensures BumpFeeQuote(f, ceiling).Ok? ==>
              var next := BumpFeeQuote(f, ceiling).value;
              && Outbids(next, f) && WithinCeiling(next, ceiling)
              && next.maxPriorityFeePerGas <= next.maxFeePerGas
              && NormalizeFees(RawFees(next.gasLimit, next.maxFeePerGas, next.maxPriorityFeePerGas)) == Ok(next)
  {
  }

  lemma {:induction false} PowPositive(b: nat, k: nat)
    requires b >= 1
    ensures Pow(b, k) >= 1
  {
    if k != 0 {
      PowPositive(b, k - 1);
      assert b * Pow(b, k - 1) >= Pow(b, k - 1);
    }
  }

  /** k accepted bumps raise the max fee by more than (11/10)^k, and by at least k. */
  lemma {:induction false} BumpTimesGrows(f: Fees, k: nat, ceiling: Option<nat>)
    requires f.gasLimit > 0 && f.maxPriorityFeePerGas <= f.maxFeePerGas && BumpTimes(f, k, ceiling).Ok?
    ensures var g := BumpTimes(f, k, ceiling).value;
            && g.gasLimit == f.gasLimit && g.maxPriorityFeePerGas <= g.maxFeePerGas
            && Pow(11, k) * f.maxFeePerGas <= Pow(10, k) * g.maxFeePerGas
            && (k >= 1 ==> Pow(11, k) * f.maxFeePerGas < Pow(10, k) * g.maxFeePerGas)
            && f.maxFeePerGas + k <= g.maxFeePerGas
            && (k >= 1 ==> WithinCeiling(g, ceiling))
  {
    if k != 0 {
      BumpTimesGrows(f, k - 1, ceiling);
      var before, g := BumpTimes(f, k - 1, ceiling).value, BumpTimes(f, k, ceiling).value;
      BumpOutbids(before, ceiling);
      PowPositive(10, k - 1);
      GrowStep(Pow(11, k - 1), Pow(10, k - 1), f.maxFeePerGas, before.maxFeePerGas, g.maxFeePerGas);
    }
  }

  lemma {:induction false} GrowStep(p: int, q: int, f: int, m: int, g: int)
    requires q >= 1 && p * f <= q * m && 11 * m < 10 * g
    ensures (11 * p) * f < (10 * q) * g
  {
    assert (11 * p) * f == 11 * (p * f);
    assert 11 * (q * m) == q * (11 * m);
    assert q * (10 * g - 11 * m) >= 1;
    assert q * (10 * g - 11 * m) == (10 * q) * g - 11 * (q * m);
  }

  /**
   * Under a ceiling C, k >= 1 accepted bumps from max fee f give 11^k f < 10^k C and
   * k <= C - f, so every sequence of bumps is finite.
   */
  lemma {:induction false} BumpsAreBounded(f: Fees, k: nat, ceiling: nat)
    requires f.gasLimit > 0 && f.maxPriorityFeePerGas <= f.maxFeePerGas
    requires k >= 1 && BumpTimes(f, k, Some(ceiling)).Ok?
    ensures Pow(11, k) * f.maxFeePerGas < Pow(10, k) * ceiling
    ensures f.maxFeePerGas + k <= ceiling
  {
    hide Pow, BumpTimes;
    BumpTimesGrows(f, k, Some(ceiling));
    var g := BumpTimes(f, k, Some(ceiling)).value;
    PowPositive(10, k);
    assert Pow(10, k) * (ceiling - g.maxFeePerGas) >= 0;
    assert Pow(10, k) * (ceiling - g.maxFeePerGas) == Pow(10, k) * ceiling - Pow(10, k) * g.maxFeePerGas;
  }
}

/** Model of `swap` in cardano-offchain-stableswap/src/stable_swap_amm_actions.rs. */
module StableSwapSwap {
  import opened Arithmetic
  import opened StableSwapInvariant
  import opened StableSwapActions
  import opened StableSwapQuote

  datatype Swapped = Swapped(reserves: seq<nat>, fees: seq<nat>, d1: nat, d2: nat, received: nat)

  // ---- Fees ---------------------------------------------------------------

  function ProtocolFee(delta: nat, swapFee: nat, share: nat): nat {
    Quotient(Quotient(delta * swapFee, DENOM) * share, DENOM)
  }

  function LpFee(protocol: nat, share: nat): nat
    requires 1 <= share <= DENOM
  {
    Quotient(protocol * (DENOM - share), share)
  }

  /** The fee recomputed from the floored protocol part never exceeds the nominal fee. */
  lemma FeeWithinNominal(delta: nat, swapFee: nat, share: nat)
    requires 1 <= share <= DENOM
    ensures var protocol := ProtocolFee(delta, swapFee, share);
      protocol + LpFee(protocol, share) <= Quotient(delta * swapFee, DENOM)
  {
    var nominal := Quotient(delta * swapFee, DENOM);
    var protocol := ProtocolFee(delta, swapFee, share);
    var lp := LpFee(protocol, share);
    FloorBounds(nominal * share, DENOM);
    FloorBounds(protocol * (DENOM - share), share);
    // (protocol + lp) * share <= protocol * DENOM <= nominal * share
    Distribute(protocol, lp, share);
    Distribute(DENOM - share, share, protocol);
    MulCancel(protocol + lp, nominal, share);
  }

  // ---- Settlement ---------------------------------------------------------

  predicate WellShaped(i: nat, j: nat, reserves: seq<nat>, fees: seq<nat>, q: Params) {
    && |reserves| == |fees| == |q.dec| == q.n && i < q.n && j < q.n
    && Covers(reserves, fees) && AllPositive(q.dec)
  }

  /** Two units more or less of asset `j` leave the balances strictly further from the invariant `d`. */
  predicate AssetExtremum(n: nat, ann: nat, b: seq<nat>, d: nat, unit: nat, j: nat)
    requires n >= 1 && j < |b|
  {
    && b[j] >= 2 * unit
    && Prod(b) >= 1 && Prod(b[j := b[j] - 2 * unit]) >= 1 && Prod(b[j := b[j] + 2 * unit]) >= 1
    && ErrorAt(n, ann, b[j := b[j] - 2 * unit], d) > ErrorAt(n, ann, b, d)
    && ErrorAt(n, ann, b[j := b[j] + 2 * unit], d) > ErrorAt(n, ann, b, d)
  }

  /** `check_invariant_extremum_for_asset` with its subtractions and divisions. */
  method CheckExtremumForAsset(n: nat, ann: nat, b: seq<nat>, d: nat, unit: nat, j: nat) returns (o: Outcome<bool>)
    requires n >= 1 && j < |b|
    ensures o.Done? || o == Abort(Underflow) || o == Abort(DivisionByZero)
    ensures o == Done(true) <==> AssetExtremum(n, ann, b, d, unit, j)
  {
    var errEq := ErrorOrAbort(n, ann, b, d);
    if !errEq.Done? { return Abort(DivisionByZero); }
    if b[j] < 2 * unit { return Abort(Underflow); }
    var errLeft := ErrorOrAbort(n, ann, b[j := b[j] - unit - unit], d);
    if !errLeft.Done? { return Abort(DivisionByZero); }
    var errRight := ErrorOrAbort(n, ann, b[j := b[j] + unit + unit], d);
    if !errRight.Done? { return Abort(DivisionByZero); }
    o := Done(errLeft.value > errEq.value && errRight.value > errEq.value);
  }

  /** Quote amount freed, its fees, and the amount paid to the trader. */
  datatype Split = Split(delta: nat, protocol: nat, lp: nat, received: nat)

  ghost predicate IsNominalFee(nominal: nat, delta: nat, q: Params) {
    IsFloor(nominal, delta * q.swapFee, 10_000)
  }

  /** A freed quote amount is what is received and two fees: the protocol's share of the nominal fee, and the LP fee
      that goes with it. Both together stay within the nominal fee. Rates are in ten-thousandths. */
  ghost predicate IsFeeSplit(f: Split, q: Params) {
    && f.delta == f.received + f.protocol + f.lp && 1 <= q.share <= 10_000
    && exists nominal: nat ::
         && IsNominalFee(nominal, f.delta, q) && IsFloor(f.protocol, nominal * q.share, 10_000)
         && IsFloor(f.lp, f.protocol * (10_000 - q.share), q.share) && f.protocol + f.lp <= nominal
  }

  lemma FeeSplitExactly(f: Split, q: Params)
    ensures IsFeeSplit(f, q) <==>
      && f.delta == f.received + f.protocol + f.lp && 1 <= q.share <= DENOM
      && f.protocol == ProtocolFee(f.delta, q.swapFee, q.share) && f.lp == LpFee(f.protocol, q.share)
  {
    if 1 <= q.share <= DENOM {
      var nominal := Quotient(f.delta * q.swapFee, DENOM);
      forall x: nat ensures IsNominalFee(x, f.delta, q) <==> x == nominal {
        FloorExactly(x, f.delta * q.swapFee, DENOM);
      }
      FloorExactly(f.protocol, nominal * q.share, DENOM);
      FloorExactly(f.lp, f.protocol * (DENOM - q.share), q.share);
      FeeWithinNominal(f.delta, q.swapFee, q.share);
      assert IsNominalFee(nominal, f.delta, q);
    }
  }

  function SplitQuote(initial: nat, balanceJ: nat, precision: nat, dec: nat, q: Params): (o: Outcome<Split>)
    requires precision >= 1
    ensures o.Done? ==> 1 <= q.share <= DENOM && balanceJ <= initial
    ensures o.Done? ==> IsFloor(o.value.delta, (initial - balanceJ) * dec, precision) && IsFeeSplit(o.value, q)
    ensures o.Done? || o == Abort(Underflow) || o == Abort(DivisionByZero)
  {
    if balanceJ > initial then Abort(Underflow) else
    var delta := Rescale(initial - balanceJ, dec, precision);
    FloorExactly(delta, (initial - balanceJ) * dec, precision);
    if q.share > DENOM then Abort(Underflow) else
    if q.share == 0 then Abort(DivisionByZero) else
    var protocol := ProtocolFee(delta, q.swapFee, q.share);
    var lp := LpFee(protocol, q.share);
    if protocol + lp > delta then Abort(Underflow) else
    var f := Split(delta, protocol, lp, delta - (protocol + lp));
    FeeSplitExactly(f, q);
    Done(f)
  }

  /** A split succeeds, with a given result, exactly if that result is the freed amount and its fees in numbers. */
  lemma SplitExactly(initial: nat, balanceJ: nat, precision: nat, dec: nat, q: Params, f: Split)
    requires precision >= 1
    ensures SplitQuote(initial, balanceJ, precision, dec, q) == Done(f) <==>
      balanceJ <= initial && IsFloor(f.delta, (initial - balanceJ) * dec, precision) && IsFeeSplit(f, q)
  {
    if balanceJ <= initial { FloorExactly(f.delta, (initial - balanceJ) * dec, precision); }
    FeeSplitExactly(f, q);
  }

  /** Final reserves: the quote cell receives the LP part of the fee, and the collected fees are added back. */
  function FinalReserves(withI: seq<nat>, j: nat, balanceJ: nat, lp: nat, fees': seq<nat>, precision: nat,
                         dec: seq<nat>): (r: seq<nat>)
    requires |withI| == |fees'| == |dec| && j < |dec| && precision >= 1 && dec[j] >= 1
    ensures |r| == |dec| && Covers(r, fees')
  {
    Plus(FromCommon(withI[j := balanceJ + Rescale(lp, precision, dec[j])], precision, dec), fees')
  }

  /** The quote cell in token units. */
  lemma QuoteCell(held: nat, balanceJ: nat, lp: nat, precision: nat, dec: nat) returns (y: nat)
    requires dec >= 1 && precision >= 1 && precision % dec == 0 && OnGrid(balanceJ, precision, dec)
    requires balanceJ <= Rescale(held, precision, dec)
    ensures y <= held
    ensures Rescale(Rescale(held, precision, dec) - balanceJ, dec, precision) == held - y
    ensures Rescale(balanceJ + Rescale(lp, precision, dec), dec, precision) == y + lp
  {
    var unit := Quotient(precision, dec);
    y :| balanceJ == y * unit;
    ScaleExact(held, precision, dec);
    ScaleExact(lp, precision, dec);
    MulCancel(y, held, unit);
    Distribute(held - y, y, unit);
    ScaleExact(held - y, precision, dec);
    Distribute(y, lp, unit);
    ScaleExact(y + lp, precision, dec);
  }

  /** With aligned decimals the base asset grows by exactly the amount paid in, the
      quote asset falls by exactly the amount received, and nothing else moves. */
  lemma FinalReservesExact(i: nat, j: nat, base: nat, reserves: seq<nat>, fees: seq<nat>, q: Params, balanceJ: nat,
                           f: Split)
    requires WellShaped(i, j, reserves, fees, q) && i != j
    requires var precision := Precision(q.dec);
      && Aligned(q.dec, precision) && precision >= 1 && OnGrid(balanceJ, precision, q.dec[j])
      && SplitQuote(Rescale(reserves[j] - fees[j], precision, q.dec[j]), balanceJ, precision, q.dec[j], q) == Done(f)
    ensures var precision, b := Precision(q.dec), Minus(reserves, fees);
      var withI := ToCommon(b[i := b[i] + base], precision, q.dec);
      var r := FinalReserves(withI, j, balanceJ, f.lp, fees[j := fees[j] + f.protocol], precision, q.dec);
      && f.received <= reserves[j]
      && r == reserves[i := reserves[i] + base][j := reserves[j] - f.received]
  {
    var precision, b := Precision(q.dec), Minus(reserves, fees);
    var b' := b[i := b[i] + base];
    var withI := ToCommon(b', precision, q.dec);
    var fees' := fees[j := fees[j] + f.protocol];
    var r := FinalReserves(withI, j, balanceJ, f.lp, fees', precision, q.dec);
    var y := QuoteCell(b[j], balanceJ, f.lp, precision, q.dec[j]);
    forall k | 0 <= k < q.n ensures r[k] == reserves[i := reserves[i] + base][j := reserves[j] - f.received][k] {
      if k != j { ScaleExact(b'[k], precision, q.dec[k]); }
    }
  }

  /** With aligned decimals, taking the protocol fee off the converted reserves is
      the same as converting the reserves without it. */
  lemma FeeOffReserves(r: seq<nat>, fees: seq<nat>, j: nat, protocol: nat, precision: nat, dec: seq<nat>)
    requires |r| == |fees| == |dec| && j < |dec| && AllPositive(dec) && Aligned(dec, precision)
    requires Covers(r, fees[j := fees[j] + protocol])
    ensures Covers(r, fees)
    ensures var e := ToCommon(Minus(r, fees), precision, dec);
      && Rescale(protocol, precision, dec[j]) <= e[j]
      && e[j := e[j] - Rescale(protocol, precision, dec[j])]
         == ToCommon(Minus(r, fees[j := fees[j] + protocol]), precision, dec)
  {
    var fees' := fees[j := fees[j] + protocol];
    forall k | 0 <= k < |r| ensures fees[k] <= fees'[k] {}
    var x := r[j] - fees'[j];
    ScaleExact(x, precision, dec[j]);
    ScaleExact(protocol, precision, dec[j]);
    ScaleExact(x + protocol, precision, dec[j]);
    Distribute(x, protocol, Quotient(precision, dec[j]));
  }

  /** What a completed swap has done to the pool. */
  ghost predicate SwapConserves(i: nat, j: nat, base: nat, reserves: seq<nat>, fees: seq<nat>, q: Params, r: Swapped)
    requires WellShaped(i, j, reserves, fees, q) && Sound(q)
  {
    // asset i grows by base, asset j falls by what the trader receives, the others stay
    && r.received <= reserves[j]
    && r.reserves == reserves[i := reserves[i] + base][j := reserves[j] - r.received]
    // only the quote asset's collected fee grows, by the protocol part of a fee within the nominal one
    && |r.fees| == q.n && fees[j] <= r.fees[j] && r.fees == fees[j := r.fees[j]]
    && (exists f: Split :: IsFeeSplit(f, q) && f.received == r.received && r.fees[j] == fees[j] + f.protocol)
    // the final invariant is that of the reserves without collected fees
    && Covers(r.reserves, r.fees)
    && var tradable := ToCommon(Minus(r.reserves, r.fees), Precision(q.dec), q.dec);
       Tradable(tradable) && r.d2 == Invariant(TotalsOf(tradable, q.ampl))
  }

  /** What the checks of the pool contract ask of a swap. */
  predicate Closes(i: nat, j: nat, base: nat, reserves: seq<nat>, q: Params, r: Swapped, v1: seq<nat>, v2: seq<nat>,
                   d0: nat)
    requires q.n >= 2 && |reserves| == |r.reserves| == |q.dec| == |v1| == |v2| == q.n && i < q.n && j < q.n
    requires q.dec[j] >= 1
  {
    var precision, ann := Precision(q.dec), q.ampl * Pow(q.n, q.n);
    var unit := Quotient(precision, q.dec[j]);
    && r.reserves[i] == reserves[i] + base
    && r.reserves[j] <= reserves[j] <= r.reserves[j] + r.received + 1
    && AssetExtremum(q.n, ann, v1, r.d1, unit, j)
    && AssetExtremum(q.n, ann, v2, r.d2, unit, j)
    && Distance(r.d1, d0) <= Quotient(2 * precision, q.dec[j])
  }

  /** The checks of the pool contract that close a swap. */
  method FinalChecks(i: nat, j: nat, base: nat, reserves: seq<nat>, q: Params, r: Swapped, v1: seq<nat>, v2: seq<nat>,
                     d0: nat)
      returns (o: Outcome<Swapped>)
    requires Sound(q) && |reserves| == |r.reserves| == |q.dec| == |v1| == |v2| == q.n && i < q.n && j < q.n
    requires q.dec[j] >= 1
    ensures o.Done? <==> Closes(i, j, base, reserves, q, r, v1, v2, d0)
    ensures o.Done? ==> o.value == r
    ensures r.reserves[i] == reserves[i] + base ==> o != Abort(BaseAmountCheck)
    ensures r.reserves[j] + r.received == reserves[j] ==> o != Abort(QuoteAmountCheck)
    ensures !o.Unfinished?
  {
    if r.reserves[i] < reserves[i] { return Abort(Underflow); }
    if r.reserves[i] - reserves[i] != base { return Abort(BaseAmountCheck); }
    if reserves[j] < r.reserves[j] { return Abort(Underflow); }
    if reserves[j] - r.reserves[j] > r.received + 1 { return Abort(QuoteAmountCheck); }
    var precision, ann := Precision(q.dec), q.ampl * Pow(q.n, q.n);
    var unit := Quotient(precision, q.dec[j]);
    var check1 := CheckExtremumForAsset(q.n, ann, v1, r.d1, unit, j);
    if check1.Abort? { return Abort(check1.fault); }
    var check2 := CheckExtremumForAsset(q.n, ann, v2, r.d2, unit, j);
    if check2.Abort? { return Abort(check2.fault); }
    if !check1.value || !check2.value { return Abort(AssetExtremumCheck); }
    if Distance(r.d1, d0) > Quotient(2 * precision, q.dec[j]) { return Abort(InvariantDriftCheck); }
    o := Done(r);
  }

  /** Balances without collected fees, in common precision. */
  function Tradables(r: seq<nat>, fees: seq<nat>, q: Params): (t: seq<nat>)
    requires |r| == |fees| == |q.dec| && q.dec != [] && AllPositive(q.dec) && Covers(r, fees)
    ensures |t| == |r|
  {
    ToCommon(Minus(r, fees), Precision(q.dec), q.dec)
  }

  /** Converting two amounts apart gives no more than converting them together. */
  lemma RescaleApart(x: nat, y: nat, precision: nat, dec: nat)
    requires dec >= 1
    ensures Rescale(x, precision, dec) + Rescale(y, precision, dec) <= Rescale(x + y, precision, dec)
  {
    var u, v := Rescale(x, precision, dec), Rescale(y, precision, dec);
    FloorBounds(x * precision, dec);
    FloorBounds(y * precision, dec);
    Distribute(x, y, precision);
    Distribute(u, v, dec);
    FloorAtLeast((x + y) * precision, dec, u + v);
  }

  /** The quote cell can pay its LP fee back. */
  predicate LpCovered(r: seq<nat>, fees': seq<nat>, j: nat, lp: nat, q: Params)
    requires |r| == |fees'| == |q.dec| && j < |r| && AllPositive(q.dec) && Covers(r, fees')
  {
    Rescale(lp, Precision(q.dec), q.dec[j]) <= Tradables(r, fees', q)[j]
  }

  /** The tradable balances with the LP fee taken off the quote cell. */
  function WithoutLp(r: seq<nat>, fees': seq<nat>, j: nat, lp: nat, q: Params): (v: seq<nat>)
    requires |r| == |fees'| == |q.dec| && j < |r| && AllPositive(q.dec) && Covers(r, fees')
    requires LpCovered(r, fees', j, lp, q)
    ensures |v| == |r|
  {
    var t := Tradables(r, fees', q);
    t[j := t[j] - Rescale(lp, Precision(q.dec), q.dec[j])]
  }

  /** The balances without the fees collected before, with the protocol fee taken off the quote cell. */
  function WithLp(r: seq<nat>, fees: seq<nat>, j: nat, protocol: nat, q: Params): (v: seq<nat>)
    requires |r| == |fees| == |q.dec| && j < |r| && AllPositive(q.dec)
    requires Covers(r, fees[j := fees[j] + protocol])
    ensures |v| == |r|
  {
    CoversLess(r, fees, j, protocol);
    RescaleApart(r[j] - fees[j] - protocol, protocol, Precision(q.dec), q.dec[j]);
    var t := Tradables(r, fees, q);
    t[j := t[j] - Rescale(protocol, Precision(q.dec), q.dec[j])]
  }

  /** The LP fee only adds: for all decimals, no balance is lower with it. */
  lemma LpFeeAdds(r: seq<nat>, fees: seq<nat>, j: nat, f: Split, q: Params)
    requires |r| == |fees| == |q.dec| && j < |r| && AllPositive(q.dec)
    requires Covers(r, fees[j := fees[j] + f.protocol]) && LpCovered(r, fees[j := fees[j] + f.protocol], j, f.lp, q)
    ensures AtMost(WithoutLp(r, fees[j := fees[j] + f.protocol], j, f.lp, q), WithLp(r, fees, j, f.protocol, q))
  {
    var fees' := fees[j := fees[j] + f.protocol];
    CoversLess(r, fees, j, f.protocol);
    RescaleApart(r[j] - fees'[j], f.protocol, Precision(q.dec), q.dec[j]);
    var v1, v2 := WithoutLp(r, fees', j, f.lp, q), WithLp(r, fees, j, f.protocol, q);
    forall k | 0 <= k < |r| ensures v1[k] <= v2[k] {}
  }

  datatype Measured = Measured(v1: seq<nat>, v2: seq<nat>, d1: nat, d2: nat)

  /** Both lists of balances and the invariant of each. */
  ghost predicate IsMeasured(r: seq<nat>, fees: seq<nat>, j: nat, f: Split, q: Params, m: Measured)
    requires Sound(q) && |r| == |fees| == |q.dec| == q.n && j < q.n && AllPositive(q.dec)
    requires Covers(r, fees[j := fees[j] + f.protocol]) && LpCovered(r, fees[j := fees[j] + f.protocol], j, f.lp, q)
  {
    && m.v1 == WithoutLp(r, fees[j := fees[j] + f.protocol], j, f.lp, q) && m.v2 == WithLp(r, fees, j, f.protocol, q)
    && Tradable(m.v1) && Tradable(m.v2)
    && m.d1 == Invariant(TotalsOf(m.v1, q.ampl)) && m.d2 == Invariant(TotalsOf(m.v2, q.ampl))
  }

  /** Whether the invariants of a swap can be measured. */
  predicate Measurable(r: seq<nat>, fees: seq<nat>, j: nat, f: Split, q: Params)
    requires |r| == |fees| == |q.dec| && j < |r| && AllPositive(q.dec) && Covers(r, fees[j := fees[j] + f.protocol])
  {
    var fees' := fees[j := fees[j] + f.protocol];
    LpCovered(r, fees', j, f.lp, q) && AllPositive(WithoutLp(r, fees', j, f.lp, q))
  }

  method ListWithoutLp(r: seq<nat>, fees': seq<nat>, j: nat, lp: nat, q: Params) returns (o: Outcome<seq<nat>>)
    requires |r| == |fees'| == |q.dec| && j < |r| && AllPositive(q.dec) && Covers(r, fees')
    ensures o == if LpCovered(r, fees', j, lp, q) then Done(WithoutLp(r, fees', j, lp, q)) else Abort(Underflow)
  {
    var precision := Precision(q.dec);
    var v := ToCommon(Minus(r, fees'), precision, q.dec);
    var lpCommon := Rescale(lp, precision, q.dec[j]);
    if v[j] < lpCommon { return Abort(Underflow); }
    o := Done(v[j := v[j] - lpCommon]);
  }

  method ListWithLp(r: seq<nat>, fees: seq<nat>, j: nat, protocol: nat, q: Params) returns (o: Outcome<seq<nat>>)
    requires |r| == |fees| == |q.dec| && j < |r| && AllPositive(q.dec)
    requires Covers(r, fees[j := fees[j] + protocol])
    ensures o == Done(WithLp(r, fees, j, protocol, q))
  {
    var precision := Precision(q.dec);
    CoversLess(r, fees, j, protocol);
    RescaleApart(r[j] - fees[j] - protocol, protocol, precision, q.dec[j]);
    var v := ToCommon(Minus(r, fees), precision, q.dec);
    var protocolCommon := Rescale(protocol, precision, q.dec[j]);
    if v[j] < protocolCommon { return Abort(Underflow); }
    o := Done(v[j := v[j] - protocolCommon]);
  }

  /** Invariants of the final reserves without and with the LP part of the fee. The second list never
      causes a fault, and its invariant is never the lower one. */
  method MeasureInvariants(r: seq<nat>, fees: seq<nat>, j: nat, f: Split, q: Params) returns (o: Outcome<Measured>)
    requires Sound(q) && |r| == |fees| == |q.dec| == q.n && j < q.n && AllPositive(q.dec)
    requires Covers(r, fees[j := fees[j] + f.protocol])
    ensures o.Done? <==> Measurable(r, fees, j, f, q)
    ensures o.Done? ==> IsMeasured(r, fees, j, f, q, o.value) && o.value.d1 <= o.value.d2
    ensures o.Done? || o == Abort(Underflow) || o == Abort(DivisionByZero)
  {
    var l1 := ListWithoutLp(r, fees[j := fees[j] + f.protocol], j, f.lp, q);
    if l1.Abort? { return Abort(Underflow); }
    var v1 := l1.value;
    if !AllPositive(v1) { return Abort(DivisionByZero); }
    var d1 := InvariantFor(v1, q);
    LpFeeAdds(r, fees, j, f, q);
    var l2 := ListWithLp(r, fees, j, f.protocol, q);
    var v2 := l2.value;
    if !AllPositive(v2) { return Abort(DivisionByZero); }
    var d2 := InvariantFor(v2, q);
    InvariantMonotone(v1, v2, q.ampl);
    o := Done(Measured(v1, v2, d1, d2));
  }

  /** The split of the quote amount that a new quote balance frees. */
  function QuoteSplit(j: nat, reserves: seq<nat>, fees: seq<nat>, q: Params, balanceJ: nat): Outcome<Split>
    requires j < |reserves| == |fees| == |q.dec| && fees[j] <= reserves[j] && q.dec[j] >= 1 && Precision(q.dec) >= 1
  {
    var precision := Precision(q.dec);
    SplitQuote(Rescale(reserves[j] - fees[j], precision, q.dec[j]), balanceJ, precision, q.dec[j], q)
  }

  /** The reserves a swap leaves. */
  function ReservesAfter(i: nat, j: nat, base: nat, reserves: seq<nat>, fees: seq<nat>, q: Params, balanceJ: nat,
                         f: Split)
      : (r: seq<nat>)
    requires WellShaped(i, j, reserves, fees, q) && q.dec != [] && Precision(q.dec) >= 1
    ensures |r| == q.n && Covers(r, fees[j := fees[j] + f.protocol])
  {
    var precision, b := Precision(q.dec), Minus(reserves, fees);
    var withI := ToCommon(b[i := b[i] + base], precision, q.dec);
    FinalReserves(withI, j, balanceJ, f.lp, fees[j := fees[j] + f.protocol], precision, q.dec)
  }

  /** The swap that moves the quote balance to `balanceJ`. */
  ghost predicate IsSettled(i: nat, j: nat, base: nat, reserves: seq<nat>, fees: seq<nat>, q: Params, balanceJ: nat,
                            f: Split, m: Measured, r: Swapped)
    requires Sound(q) && WellShaped(i, j, reserves, fees, q) && Precision(q.dec) >= 1
  {
    var after := ReservesAfter(i, j, base, reserves, fees, q, balanceJ, f);
    && QuoteSplit(j, reserves, fees, q, balanceJ) == Done(f)
    && Measurable(after, fees, j, f, q) && IsMeasured(after, fees, j, f, q, m)
    && r == Swapped(after, fees[j := fees[j] + f.protocol], m.d1, m.d2, f.received)
  }

  /** Whether a quote balance leads to a swap that can be put to the closing checks. */
  predicate Preparable(i: nat, j: nat, base: nat, reserves: seq<nat>, fees: seq<nat>, q: Params, balanceJ: nat)
    requires WellShaped(i, j, reserves, fees, q) && q.dec != [] && Precision(q.dec) >= 1
  {
    var split := QuoteSplit(j, reserves, fees, q, balanceJ);
    && split.Done?
    && Measurable(ReservesAfter(i, j, base, reserves, fees, q, balanceJ, split.value), fees, j, split.value, q)
  }

  /** Exactly when a quote balance leads to a finished swap. */
  ghost predicate Settleable(i: nat, j: nat, base: nat, reserves: seq<nat>, fees: seq<nat>, q: Params, balanceJ: nat,
                             d0: nat)
    requires Sound(q) && WellShaped(i, j, reserves, fees, q) && Precision(q.dec) >= 1
  {
    exists f, m, r :: IsSettled(i, j, base, reserves, fees, q, balanceJ, f, m, r)
                   && Closes(i, j, base, reserves, q, r, m.v1, m.v2, d0)
  }

  lemma SettledUnique(i: nat, j: nat, base: nat, reserves: seq<nat>, fees: seq<nat>, q: Params, balanceJ: nat,
                      f: Split, m: Measured, r: Swapped, f': Split, m': Measured, r': Swapped)
    requires Sound(q) && WellShaped(i, j, reserves, fees, q) && Precision(q.dec) >= 1
    requires IsSettled(i, j, base, reserves, fees, q, balanceJ, f, m, r)
    requires IsSettled(i, j, base, reserves, fees, q, balanceJ, f', m', r')
    ensures f == f' && m == m' && r == r'
  {
  }

  /** A quote balance settles exactly when its one candidate passes the closing checks. */
  lemma SettleableExactly(i: nat, j: nat, base: nat, reserves: seq<nat>, fees: seq<nat>, q: Params, balanceJ: nat,
                          d0: nat,
                          f: Split, m: Measured, r: Swapped)
    requires Sound(q) && WellShaped(i, j, reserves, fees, q) && Precision(q.dec) >= 1
    requires IsSettled(i, j, base, reserves, fees, q, balanceJ, f, m, r)
    ensures Settleable(i, j, base, reserves, fees, q, balanceJ, d0) <==>
      Closes(i, j, base, reserves, q, r, m.v1, m.v2, d0)
  {
    if Settleable(i, j, base, reserves, fees, q, balanceJ, d0) {
      var f', m', r' :| IsSettled(i, j, base, reserves, fees, q, balanceJ, f', m', r')
                     && Closes(i, j, base, reserves, q, r', m'.v1, m'.v2, d0);
      SettledUnique(i, j, base, reserves, fees, q, balanceJ, f, m, r, f', m', r');
    }
  }

  lemma SettleableIsPreparable(i: nat, j: nat, base: nat, reserves: seq<nat>, fees: seq<nat>, q: Params,
                               balanceJ: nat, d0: nat)
    requires Sound(q) && WellShaped(i, j, reserves, fees, q) && Precision(q.dec) >= 1
    requires Settleable(i, j, base, reserves, fees, q, balanceJ, d0)
    ensures Preparable(i, j, base, reserves, fees, q, balanceJ)
  {
    var f, m, r :| IsSettled(i, j, base, reserves, fees, q, balanceJ, f, m, r)
                && Closes(i, j, base, reserves, q, r, m.v1, m.v2, d0);
  }

  /** From the quote balance to the swap that is put to the closing checks. */
  method Prepare(i: nat, j: nat, base: nat, reserves: seq<nat>, fees: seq<nat>, q: Params, balanceJ: nat)
      returns (o: Outcome<Swapped>, f: Split, m: Measured)
    requires Sound(q) && WellShaped(i, j, reserves, fees, q) && Precision(q.dec) >= 1
    ensures o.Done? <==> Preparable(i, j, base, reserves, fees, q, balanceJ)
    ensures o.Done? ==> IsSettled(i, j, base, reserves, fees, q, balanceJ, f, m, o.value) && m.d1 <= m.d2
    ensures o.Done? || o == Abort(Underflow) || o == Abort(DivisionByZero)
  {
    f, m := Split(0, 0, 0, 0), Measured([], [], 0, 0);
    var precision, b := Precision(q.dec), Minus(reserves, fees);
    var split := SplitQuote(Rescale(b[j], precision, q.dec[j]), balanceJ, precision, q.dec[j], q);
    if split.Abort? { o := Abort(split.fault); return; }
    f := split.value;
    var withI := ToCommon(b[i := b[i] + base], precision, q.dec);
    var fees' := fees[j := fees[j] + f.protocol];
    var reserves' := FinalReserves(withI, j, balanceJ, f.lp, fees', precision, q.dec);
    var measured := MeasureInvariants(reserves', fees, j, f, q);
    if !measured.Done? { o := Abort(measured.fault); return; }
    m := measured.value;
    o := Done(Swapped(reserves', fees', m.d1, m.d2, f.received));
  }

  /** Everything `swap` does once the quote balance is known. */
  method Settle(i: nat, j: nat, base: nat, reserves: seq<nat>, fees: seq<nat>, q: Params, balanceJ: nat, d0: nat)
      returns (o: Outcome<Swapped>, ghost f: Split, ghost m: Measured)
    requires Sound(q) && WellShaped(i, j, reserves, fees, q) && Precision(q.dec) >= 1
    ensures !o.Unfinished?
    ensures o.Done? <==> Settleable(i, j, base, reserves, fees, q, balanceJ, d0)
    ensures o.Done? ==>
      && IsSettled(i, j, base, reserves, fees, q, balanceJ, f, m, o.value) && m.d1 <= m.d2
      && Closes(i, j, base, reserves, q, o.value, m.v1, m.v2, d0)
    ensures i != j && Aligned(q.dec, Precision(q.dec)) && OnGrid(balanceJ, Precision(q.dec), q.dec[j]) ==>
      o != Abort(BaseAmountCheck) && o != Abort(QuoteAmountCheck)
  {
    var prepared, split, measured := Prepare(i, j, base, reserves, fees, q, balanceJ);
    f, m := split, measured;
    if !prepared.Done? {
      if Settleable(i, j, base, reserves, fees, q, balanceJ, d0) {
        SettleableIsPreparable(i, j, base, reserves, fees, q, balanceJ, d0);
      }
      o := Abort(prepared.fault);
      return;
    }
    SettleableExactly(i, j, base, reserves, fees, q, balanceJ, d0, f, m, prepared.value);
    if i != j && Aligned(q.dec, Precision(q.dec)) && OnGrid(balanceJ, Precision(q.dec), q.dec[j]) {
      SettledExactly(i, j, base, reserves, fees, q, balanceJ, f, m, prepared.value);
    }
    o := FinalChecks(i, j, base, reserves, q, prepared.value, measured.v1, measured.v2, d0);
  }

  lemma SettledExactly(i: nat, j: nat, base: nat, reserves: seq<nat>, fees: seq<nat>, q: Params, balanceJ: nat,
                       f: Split, m: Measured, r: Swapped)
    requires Sound(q) && WellShaped(i, j, reserves, fees, q) && Precision(q.dec) >= 1 && i != j
    requires Aligned(q.dec, Precision(q.dec)) && OnGrid(balanceJ, Precision(q.dec), q.dec[j])
    requires IsSettled(i, j, base, reserves, fees, q, balanceJ, f, m, r)
    ensures r.received <= reserves[j] && r.reserves == reserves[i := reserves[i] + base][j := reserves[j] - r.received]
    ensures r.reserves[i] == reserves[i] + base && r.reserves[j] + r.received == reserves[j]
  {
    FinalReservesExact(i, j, base, reserves, fees, q, balanceJ, f);
  }

  lemma SettledInvariant(i: nat, j: nat, base: nat, reserves: seq<nat>, fees: seq<nat>, q: Params, balanceJ: nat,
                         f: Split, m: Measured, r: Swapped)
    requires Sound(q) && WellShaped(i, j, reserves, fees, q) && Precision(q.dec) >= 1
    requires Aligned(q.dec, Precision(q.dec))
    requires IsSettled(i, j, base, reserves, fees, q, balanceJ, f, m, r)
    ensures |r.reserves| == |r.fees| == q.n && Covers(r.reserves, r.fees)
    ensures m.v2 == ToCommon(Minus(r.reserves, r.fees), Precision(q.dec), q.dec)
  {
    FeeOffReserves(r.reserves, fees, j, f.protocol, Precision(q.dec), q.dec);
  }

  lemma SettledFee(i: nat, j: nat, base: nat, reserves: seq<nat>, fees: seq<nat>, q: Params, balanceJ: nat,
                   f: Split, m: Measured, r: Swapped)
    requires Sound(q) && WellShaped(i, j, reserves, fees, q) && Precision(q.dec) >= 1
    requires IsSettled(i, j, base, reserves, fees, q, balanceJ, f, m, r)
    ensures IsFeeSplit(f, q) && f.received == r.received
    ensures r.fees == fees[j := fees[j] + f.protocol]
  {
  }

  // ---- A settled swap in numbers, for all decimals ------------------------

  /** `cell` is `x` tokens of asset `j` in units of the largest decimals value. */
  ghost predicate CellInCommon(cell: nat, x: nat, dec: seq<nat>, j: nat)
    requires j < |dec|
  {
    exists p: nat :: IsPrecision(p, dec) && IsTradable(cell, x, 0, p, dec[j])
  }

  /** The part `x - fee` of a reserve is `cell` in tokens. */
  ghost predicate IsReserve(x: nat, fee: nat, cell: nat, precision: nat, dec: nat) {
    IsFloor(x - fee, cell * dec, precision)
  }

  /** The tradable part of the reserves `r` is `cells` in tokens. */
  ghost predicate InTokens(r: seq<nat>, fees: seq<nat>, cells: seq<nat>, dec: seq<nat>) {
    && |r| == |fees| == |cells| == |dec|
    && exists p: nat :: IsPrecision(p, dec)
                     && forall k :: 0 <= k < |r| ==> IsReserve(r[k], fees[k], cells[k], p, dec[k])
  }

  /** The swap takes its base amount in, moves the quote cell to `balanceJ` and adds the LP fee to it. */
  ghost predicate MovesCells(i: nat, j: nat, base: nat, reserves: seq<nat>, fees: seq<nat>, dec: seq<nat>,
                             balanceJ: nat, lp: nat, r: seq<nat>, fees': seq<nat>, cells: seq<nat>, lpCell: nat)
    requires i < |reserves| && j < |dec|
  {
    && InCommon(cells, reserves[i := reserves[i] + base], fees, dec) && CellInCommon(lpCell, lp, dec, j)
    && InTokens(r, fees', cells[j := balanceJ + lpCell], dec)
  }

  /** `d` is the invariant of `v`, the tradable reserves with `part` tokens taken off the quote cell. */
  ghost predicate MeasuredAt(d: nat, v: seq<nat>, r: seq<nat>, fees: seq<nat>, j: nat, part: nat, q: Params,
                             t: seq<nat>, cell: nat)
    requires q.ampl >= 1 && j < |q.dec|
  {
    && InCommon(t, r, fees, q.dec) && CellInCommon(cell, part, q.dec, j)
    && cell <= t[j] && v == t[j := t[j] - cell] && Tradable(v) && IsInvariant(d, v, q.ampl)
  }

  /** The swap that moves the quote balance to `balanceJ`, in numbers: the freed quote amount and its fees, the new
      reserves and collected fees, and both invariants. */
  ghost predicate SettledInNumbers(i: nat, j: nat, base: nat, reserves: seq<nat>, fees: seq<nat>, q: Params,
                                   balanceJ: nat, f: Split, m: Measured, r: Swapped)
    requires q.ampl >= 1 && i < |reserves| && j < |q.dec| && |reserves| == |fees| == |q.dec|
  {
    && (exists cells :: FreesQuote(cells, j, reserves, fees, q.dec, balanceJ, f.delta)) && IsFeeSplit(f, q)
    && r.received == f.received && r.fees == fees[j := fees[j] + f.protocol]
    && (exists cells, lpCell ::
          MovesCells(i, j, base, reserves, fees, q.dec, balanceJ, f.lp, r.reserves, r.fees, cells, lpCell))
    && r.d1 == m.d1 && r.d2 == m.d2
    && (exists t, cell :: MeasuredAt(r.d1, m.v1, r.reserves, r.fees, j, f.lp, q, t, cell))
    && (exists t, cell :: MeasuredAt(r.d2, m.v2, r.reserves, fees, j, f.protocol, q, t, cell))
  }

  /** `delta` is what the quote cell frees, in tokens. */
  ghost predicate FreesQuote(cells: seq<nat>, j: nat, reserves: seq<nat>, fees: seq<nat>, dec: seq<nat>, balanceJ: nat,
                             delta: nat)
    requires j < |dec|
  {
    && InCommon(cells, reserves, fees, dec) && balanceJ <= cells[j]
    && exists p: nat :: IsPrecision(p, dec) && IsReserve(delta, 0, cells[j] - balanceJ, p, dec[j])
  }

  lemma RescaledInCommon(x: nat, dec: seq<nat>, j: nat)
    requires j < |dec| && dec[j] >= 1
    ensures CellInCommon(Rescale(x, Precision(dec), dec[j]), x, dec, j)
  {
    PrecisionExactly(Precision(dec), dec);
    FloorExactly(Rescale(x, Precision(dec), dec[j]), x * Precision(dec), dec[j]);
  }

  lemma ConvertedInTokens(cells: seq<nat>, fees: seq<nat>, dec: seq<nat>)
    requires |cells| == |fees| == |dec| && dec != [] && Precision(dec) >= 1
    ensures InTokens(Plus(FromCommon(cells, Precision(dec), dec), fees), fees, cells, dec)
  {
    var r, p := Plus(FromCommon(cells, Precision(dec), dec), fees), Precision(dec);
    PrecisionExactly(p, dec);
    forall k | 0 <= k < |r| ensures IsReserve(r[k], fees[k], cells[k], p, dec[k]) {
      FloorExactly(r[k] - fees[k], cells[k] * dec[k], p);
    }
  }

  lemma QuoteFreed(j: nat, reserves: seq<nat>, fees: seq<nat>, q: Params, balanceJ: nat, f: Split)
    requires j < |reserves| && Convertible(reserves, fees, q.dec) && Precision(q.dec) >= 1
    requires QuoteSplit(j, reserves, fees, q, balanceJ) == Done(f)
    ensures FreesQuote(ToCommon(Minus(reserves, fees), Precision(q.dec), q.dec), j, reserves, fees, q.dec, balanceJ,
                       f.delta)
  {
    ConvertedInCommon(reserves, fees, q.dec);
    PrecisionExactly(Precision(q.dec), q.dec);
  }

  lemma BaseAdded(i: nat, j: nat, base: nat, reserves: seq<nat>, fees: seq<nat>, q: Params)
    requires WellShaped(i, j, reserves, fees, q) && q.dec != []
    ensures InCommon(CommonBalances(i, j, base, reserves, fees, q).withI, reserves[i := reserves[i] + base], fees,
                     q.dec)
  {
    var b, added := Minus(reserves, fees), reserves[i := reserves[i] + base];
    forall k | 0 <= k < |added| ensures fees[k] <= added[k] {}
    assert Minus(added, fees) == b[i := b[i] + base];
    ConvertedInCommon(added, fees, q.dec);
  }

  lemma AfterInTokens(i: nat, j: nat, base: nat, reserves: seq<nat>, fees: seq<nat>, q: Params, balanceJ: nat, f: Split)
    requires WellShaped(i, j, reserves, fees, q) && q.dec != [] && Precision(q.dec) >= 1
    ensures var withI := CommonBalances(i, j, base, reserves, fees, q).withI;
      InTokens(ReservesAfter(i, j, base, reserves, fees, q, balanceJ, f), fees[j := fees[j] + f.protocol],
               withI[j := balanceJ + Rescale(f.lp, Precision(q.dec), q.dec[j])], q.dec)
  {
    var withI := CommonBalances(i, j, base, reserves, fees, q).withI;
    ConvertedInTokens(withI[j := balanceJ + Rescale(f.lp, Precision(q.dec), q.dec[j])], fees[j := fees[j] + f.protocol],
                      q.dec);
  }

  lemma CellsMoved(i: nat, j: nat, base: nat, reserves: seq<nat>, fees: seq<nat>, q: Params, balanceJ: nat, f: Split,
                   r: seq<nat>, fees': seq<nat>)
    requires WellShaped(i, j, reserves, fees, q) && q.dec != [] && Precision(q.dec) >= 1
    requires r == ReservesAfter(i, j, base, reserves, fees, q, balanceJ, f) && fees' == fees[j := fees[j] + f.protocol]
    ensures exists cells, lpCell ::
      MovesCells(i, j, base, reserves, fees, q.dec, balanceJ, f.lp, r, fees', cells, lpCell)
  {
    var withI, lpCell := CommonBalances(i, j, base, reserves, fees, q).withI, Rescale(f.lp, Precision(q.dec), q.dec[j]);
    BaseAdded(i, j, base, reserves, fees, q);
    RescaledInCommon(f.lp, q.dec, j);
    AfterInTokens(i, j, base, reserves, fees, q, balanceJ, f);
    assert MovesCells(i, j, base, reserves, fees, q.dec, balanceJ, f.lp, r, fees', withI, lpCell);
  }

  lemma PartMeasured(d: nat, v: seq<nat>, r: seq<nat>, fees: seq<nat>, j: nat, part: nat, q: Params)
    requires q.ampl >= 1 && j < |r| && Convertible(r, fees, q.dec)
    requires var t, cell := Tradables(r, fees, q), Rescale(part, Precision(q.dec), q.dec[j]);
      cell <= t[j] && v == t[j := t[j] - cell] && Tradable(v) && d == Invariant(TotalsOf(v, q.ampl))
    ensures exists t, cell :: MeasuredAt(d, v, r, fees, j, part, q, t, cell)
  {
    ConvertedInCommon(r, fees, q.dec);
    RescaledInCommon(part, q.dec, j);
    InvariantExactly(d, v, q.ampl);
    assert MeasuredAt(d, v, r, fees, j, part, q, Tradables(r, fees, q), Rescale(part, Precision(q.dec), q.dec[j]));
  }

  lemma MeasuredInNumbers(r: seq<nat>, fees: seq<nat>, fees': seq<nat>, j: nat, f: Split, q: Params, m: Measured)
    requires Sound(q) && |r| == |fees| == |q.dec| == q.n && j < q.n && AllPositive(q.dec)
    requires fees' == fees[j := fees[j] + f.protocol] && Covers(r, fees') && LpCovered(r, fees', j, f.lp, q)
    requires IsMeasured(r, fees, j, f, q, m)
    ensures exists t, cell :: MeasuredAt(m.d1, m.v1, r, fees', j, f.lp, q, t, cell)
    ensures exists t, cell :: MeasuredAt(m.d2, m.v2, r, fees, j, f.protocol, q, t, cell)
  {
    PartMeasured(m.d1, m.v1, r, fees', j, f.lp, q);
    CoversLess(r, fees, j, f.protocol);
    RescaleApart(r[j] - fees[j] - f.protocol, f.protocol, Precision(q.dec), q.dec[j]);
    PartMeasured(m.d2, m.v2, r, fees, j, f.protocol, q);
  }

  lemma SettlesInNumbers(i: nat, j: nat, base: nat, reserves: seq<nat>, fees: seq<nat>, q: Params, balanceJ: nat,
                         f: Split, m: Measured, r: Swapped)
    requires Sound(q) && WellShaped(i, j, reserves, fees, q) && Precision(q.dec) >= 1
    requires IsSettled(i, j, base, reserves, fees, q, balanceJ, f, m, r)
    ensures SettledInNumbers(i, j, base, reserves, fees, q, balanceJ, f, m, r)
  {
    QuoteFreed(j, reserves, fees, q, balanceJ, f);
    CellsMoved(i, j, base, reserves, fees, q, balanceJ, f, r.reserves, r.fees);
    MeasuredInNumbers(r.reserves, fees, r.fees, j, f, q, m);
  }

  /** With aligned decimals a settled swap conserves every asset. */
  lemma SettledConserves(i: nat, j: nat, base: nat, reserves: seq<nat>, fees: seq<nat>, q: Params, balanceJ: nat,
                         f: Split, m: Measured, r: Swapped)
    requires Sound(q) && WellShaped(i, j, reserves, fees, q) && Precision(q.dec) >= 1 && i != j
    requires Aligned(q.dec, Precision(q.dec)) && OnGrid(balanceJ, Precision(q.dec), q.dec[j])
    requires IsSettled(i, j, base, reserves, fees, q, balanceJ, f, m, r)
    ensures SwapConserves(i, j, base, reserves, fees, q, r)
  {
    SettledExactly(i, j, base, reserves, fees, q, balanceJ, f, m, r);
    SettledInvariant(i, j, base, reserves, fees, q, balanceJ, f, m, r);
    SettledFee(i, j, base, reserves, fees, q, balanceJ, f, m, r);
  }

  lemma CoversLess(r: seq<nat>, fees: seq<nat>, j: nat, x: nat)
    requires j < |fees| && Covers(r, fees[j := fees[j] + x])
    ensures Covers(r, fees)
  {
    forall k | 0 <= k < |r| ensures fees[k] <= r[k] { assert fees[k] <= fees[j := fees[j] + x][k]; }
  }

  /** Where no balance is zero, no balance is skipped. */
  lemma {:induction false} NothingSkipped(b: seq<nat>, acc: nat)
    requires acc >= 1 && AllPositive(b)
    ensures ProdSkippingZeros(b, acc) == acc * Prod(b)
  {
    if b != [] {
      MulMono(1, acc, b[0]);
      NothingSkipped(b[1..], acc * b[0]);
      Assoc(acc, b[0], Prod(b[1..]));
    }
  }

  /** The balances of a swap in common precision, before it and with the base amount added. */
  datatype Balances = Balances(before: seq<nat>, withI: seq<nat>)

  function CommonBalances(i: nat, j: nat, base: nat, reserves: seq<nat>, fees: seq<nat>, q: Params): (r: Balances)
    requires WellShaped(i, j, reserves, fees, q) && q.dec != []
    ensures |r.before| == |r.withI| == q.n
  {
    var precision, b := Precision(q.dec), Minus(reserves, fees);
    Balances(ToCommon(b, precision, q.dec), ToCommon(b[i := b[i] + base], precision, q.dec))
  }

  function Others(withI: seq<nat>, j: nat): seq<nat>
    requires j < |withI|
  {
    withI[..j] + withI[j + 1..]
  }

  lemma OthersPositive(i: nat, j: nat, base: nat, reserves: seq<nat>, fees: seq<nat>, q: Params)
    requires Sound(q) && WellShaped(i, j, reserves, fees, q)
    requires AllPositive(CommonBalances(i, j, base, reserves, fees, q).before)
    ensures AllPositive(Others(CommonBalances(i, j, base, reserves, fees, q).withI, j))
  {
    var c, b := CommonBalances(i, j, base, reserves, fees, q), Minus(reserves, fees);
    ToCommonMonotone(b, b[i := b[i] + base], Precision(q.dec), q.dec);
    forall k | 0 <= k < |Others(c.withI, j)| ensures Others(c.withI, j)[k] >= 1 {
      var m := if k < j then k else k + 1;
      assert c.before[m] <= c.withI[m];
    }
  }

  /** The quote equation y * y + (b - d0) * y = c of the old invariant `d0` and the other balances. */
  datatype Equation = Equation(b: nat, c: nat)

  function QuoteEquation(withI: seq<nat>, j: nat, q: Params, d0: nat): (e: Equation)
    requires Sound(q) && |withI| == q.n && j < q.n && Prod(Others(withI, j)) >= 1
  {
    var nn := Pow(q.n, q.n);
    PowPositive(q.n, q.n);
    MulMono(1, q.ampl, nn);
    var others := Others(withI, j);
    Equation(Sum(others) + Quotient(d0, q.ampl * nn),
             Quotient(Quotient(Quotient(Pow(d0, q.n + 1), nn), Prod(others)), q.ampl * nn))
  }

  /** `b` is the sum of the other balances plus the old invariant per `ann`, `c` the power of the old invariant over
      `n^n`, the product of the other balances and `ann`, each rounded down once. */
  ghost predicate IsQuoteEquation(e: Equation, withI: seq<nat>, j: nat, ampl: nat, d0: nat)
    requires j < |withI|
  {
    var n := |withI|;
    exists s: nat, p: nat :: && LeavesOut(s, p, withI, j) && IsFloor(e.b - s, d0, ampl * Pow(n, n))
                             && IsFloor(e.c, Pow(d0, n + 1), Pow(n, n) * p * (ampl * Pow(n, n)))
  }

  /** Sum and product of all balances but the one in cell `j`. */
  ghost predicate LeavesOut(s: nat, p: nat, withI: seq<nat>, j: nat)
    requires j < |withI|
  {
    s == Sum(withI[j := 0]) && p == Prod(withI[j := 1])
  }

  lemma {:induction false} SumLeavesOut(withI: seq<nat>, j: nat)
    requires j < |withI|
    ensures Sum(Others(withI, j)) == Sum(withI[j := 0])
  {
    var tail := withI[1..];
    if j == 0 {
      assert Others(withI, j) == tail && withI[j := 0][1..] == tail;
    } else {
      SumLeavesOut(tail, j - 1);
      assert Others(withI, j)[1..] == Others(tail, j - 1) && withI[j := 0][1..] == tail[j - 1 := 0];
    }
  }

  lemma {:induction false} ProdLeavesOut(withI: seq<nat>, j: nat)
    requires j < |withI|
    ensures Prod(Others(withI, j)) == Prod(withI[j := 1])
  {
    var tail := withI[1..];
    if j == 0 {
      assert Others(withI, j) == tail && withI[j := 1][1..] == tail;
    } else {
      ProdLeavesOut(tail, j - 1);
      assert Others(withI, j)[1..] == Others(tail, j - 1) && withI[j := 1][1..] == tail[j - 1 := 1];
    }
  }

  lemma ThreeFloors(x: nat, a: nat, b: nat, c: nat)
    requires a > 0 && b > 0 && c > 0
    ensures IsFloor(Quotient(Quotient(Quotient(x, a), b), c), x, a * b * c)
  {
    FloorFloor(x, a, b);
    FloorFloor(x, a * b, c);
    FloorExactly(Quotient(Quotient(Quotient(x, a), b), c), x, a * b * c);
  }

  /** The equation the code sets up, with its nested floors merged. */
  lemma QuoteEquationExactly(withI: seq<nat>, j: nat, q: Params, d0: nat)
    requires Sound(q) && |withI| == q.n && j < q.n && Prod(Others(withI, j)) >= 1
    ensures IsQuoteEquation(QuoteEquation(withI, j, q, d0), withI, j, q.ampl, d0)
  {
    var e, nn := QuoteEquation(withI, j, q, d0), Pow(q.n, q.n);
    var s, p := Sum(withI[j := 0]), Prod(withI[j := 1]);
    SumLeavesOut(withI, j);
    ProdLeavesOut(withI, j);
    PowPositive(q.n, q.n);
    MulMono(1, q.ampl, nn);
    FloorExactly(e.b - s, d0, q.ampl * nn);
    ThreeFloors(Pow(d0, q.n + 1), nn, p, q.ampl * nn);
    assert LeavesOut(s, p, withI, j);
  }

  /** Balances and parameters for which the quote equation is defined. */
  predicate Quotable(j: nat, c: Balances, q: Params) {
    && q.n >= 2 && q.ampl >= 1 && |c.before| == |c.withI| == |q.dec| == q.n && j < q.n
    && AllPositive(q.dec) && Precision(q.dec) >= 1 && Prod(Others(c.withI, j)) >= 1
  }

  /** Where the search for the quote balance ends within a number of rounds. */
  function SearchQuote(j: nat, c: Balances, q: Params, d0: nat, rounds: nat): Outcome<nat>
    requires Quotable(j, c, q)
  {
    var e := QuoteEquation(c.withI, j, q, d0);
    Search(c.before[j], e.b, e.c, d0, Precision(q.dec), q.dec[j], rounds)
  }

  /** The value `found` of a search, its last step, and the balance it is adjusted to. */
  ghost predicate QuoteFound(j: nat, c: Balances, q: Params, d0: nat, last: nat, found: nat, balanceJ: nat)
    requires Quotable(j, c, q)
  {
    var e, unit := QuoteEquation(c.withI, j, q, d0), Quotient(Precision(q.dec), q.dec[j]);
    && Settles(last, found, e.b, e.c, d0, Precision(q.dec), q.dec[j])
    && Adjustable(c.withI, j, found, unit)
    && balanceJ == Adjusted(c.withI, j, found, unit, q.n, q.ampl * Pow(q.n, q.n), d0)
  }

  method BuildEquation(withI: seq<nat>, j: nat, q: Params, d0: nat) returns (e: Equation)
    requires Sound(q) && |withI| == q.n && j < q.n && Prod(Others(withI, j)) >= 1 && AllPositive(Others(withI, j))
    ensures e == QuoteEquation(withI, j, q, d0)
  {
    var nn := Pow(q.n, q.n);
    var ann := q.ampl * nn;
    var others := Others(withI, j);
    var s, p := Sum(others), ProdSkippingZeros(others[1..], others[0]);
    NothingSkipped(others[1..], others[0]);
    PowPositive(q.n, q.n);
    MulMono(1, q.ampl, nn);
    e := Equation(s + Quotient(d0, ann), Quotient(Quotient(Quotient(Pow(d0, q.n + 1), nn), p), ann));
  }

  /** The search followed by the adjustment. */
  method SearchAndAdjust(start: nat, e: Equation, common: seq<nat>, j: nat, precision: nat, dec: nat, n: nat, ann: nat,
                         d0: nat, rounds: nat)
      returns (o: Outcome<nat>, ghost last: nat, ghost found: nat)
    requires j < |common| && precision >= 1 && dec >= 1 && n >= 1 && d0 > 1
    ensures var search := Search(start, e.b, e.c, d0, precision, dec, rounds);
      && (o.Unfinished? <==> search.Unfinished?)
      && (o.Done? <==> search.Done? && Adjustable(common, j, search.value, Quotient(precision, dec)))
      && (o.Done? ==>
            && search == Done(found) && Settles(last, found, e.b, e.c, d0, precision, dec)
            && o.value == Adjusted(common, j, found, Quotient(precision, dec), n, ann, d0))
    ensures o.Done? || o.Unfinished? || o == Abort(Underflow) || o == Abort(DivisionByZero)
  {
    var search;
    search, last := QuoteSearch(start, e.b, e.c, d0, precision, dec, rounds);
    found := 0;
    if !search.Done? { return search, last, found; }
    found := search.value;
    o := AdjustQuote(common, j, search.value, Quotient(precision, dec), n, ann, d0);
  }

  /** Finds the quote balance that keeps the invariant `d0`. */
  method FindQuote(j: nat, c: Balances, q: Params, d0: nat, rounds: nat)
      returns (o: Outcome<nat>, ghost last: nat, ghost found: nat)
    requires Quotable(j, c, q) && d0 > 1 && AllPositive(Others(c.withI, j))
    ensures o.Unfinished? <==> SearchQuote(j, c, q, d0, rounds).Unfinished?
    ensures o.Done? <==> var search := SearchQuote(j, c, q, d0, rounds);
      search.Done? && Adjustable(c.withI, j, search.value, Quotient(Precision(q.dec), q.dec[j]))
    ensures o.Done? ==> SearchQuote(j, c, q, d0, rounds) == Done(found) && QuoteFound(j, c, q, d0, last, found, o.value)
    ensures o.Done? || o.Unfinished? || o == Abort(Underflow) || o == Abort(DivisionByZero)
  {
    var e := BuildEquation(c.withI, j, q, d0);
    o, last, found := SearchAndAdjust(c.before[j], e, c.withI, j, Precision(q.dec), q.dec[j], q.n,
                                      q.ampl * Pow(q.n, q.n), d0, rounds);
  }

  lemma QuoteOnGrid(j: nat, c: Balances, q: Params, d0: nat, last: nat, found: nat, balanceJ: nat)
    requires Quotable(j, c, q)
    requires QuoteFound(j, c, q, d0, last, found, balanceJ) && Aligned(q.dec, Precision(q.dec))
    ensures OnGrid(balanceJ, Precision(q.dec), q.dec[j])
  {
    var e := QuoteEquation(c.withI, j, q, d0);
    SettledResidual(last, found, e.b, e.c, d0, Precision(q.dec), q.dec[j]);
    AdjustedOnGrid(c.withI, j, found, q.n, q.ampl * Pow(q.n, q.n), d0, Precision(q.dec), q.dec[j]);
  }

  /** Inputs that reach the search. */
  predicate Ready(i: nat, j: nat, base: nat, reserves: seq<nat>, fees: seq<nat>, q: Params) {
    && q.n >= 2 && q.ampl >= 1 && WellShaped(i, j, reserves, fees, q) && Precision(q.dec) >= 1
    && AllPositive(CommonBalances(i, j, base, reserves, fees, q).before)
  }

  lemma ReadyQuotable(i: nat, j: nat, base: nat, reserves: seq<nat>, fees: seq<nat>, q: Params)
    requires Ready(i, j, base, reserves, fees, q)
    ensures var c := CommonBalances(i, j, base, reserves, fees, q);
      Tradable(c.before) && AllPositive(Others(c.withI, j)) && Quotable(j, c, q)
  {
    OthersPositive(i, j, base, reserves, fees, q);
    ProdFromSum(Others(CommonBalances(i, j, base, reserves, fees, q).withI, j));
  }

  /** The invariant of the pool before the swap. */
  function OldInvariant(i: nat, j: nat, base: nat, reserves: seq<nat>, fees: seq<nat>, q: Params): nat
    requires Ready(i, j, base, reserves, fees, q)
  {
    Invariant(TotalsOf(CommonBalances(i, j, base, reserves, fees, q).before, q.ampl))
  }

  lemma OldInvariantAtLeastTwo(i: nat, j: nat, base: nat, reserves: seq<nat>, fees: seq<nat>, q: Params)
    requires Ready(i, j, base, reserves, fees, q)
    ensures OldInvariant(i, j, base, reserves, fees, q) >= 2
  {
    InvariantIsMinimiser(TotalsOf(CommonBalances(i, j, base, reserves, fees, q).before, q.ampl));
  }

  function SwapSearch(i: nat, j: nat, base: nat, reserves: seq<nat>, fees: seq<nat>, q: Params,
                      rounds: nat): Outcome<nat>
    requires Ready(i, j, base, reserves, fees, q)
  {
    ReadyQuotable(i, j, base, reserves, fees, q);
    var c, d0 := CommonBalances(i, j, base, reserves, fees, q), OldInvariant(i, j, base, reserves, fees, q);
    SearchQuote(j, c, q, d0, rounds)
  }

  /** The search of a swap whose quote decimals divide the precision ends if and only if its first step is a
      fault or it can stop at the quote floor of its equation. */
  lemma SwapSearchEnds(i: nat, j: nat, base: nat, reserves: seq<nat>, fees: seq<nat>, q: Params, e: Equation, m: nat)
    requires Ready(i, j, base, reserves, fees, q) && Precision(q.dec) % q.dec[j] == 0
    requires Quotable(j, CommonBalances(i, j, base, reserves, fees, q), q)
    requires e == QuoteEquation(CommonBalances(i, j, base, reserves, fees, q).withI, j, q,
                                OldInvariant(i, j, base, reserves, fees, q))
    requires IsQuoteFloor(m, e.b, e.c, OldInvariant(i, j, base, reserves, fees, q), Precision(q.dec), q.dec[j])
    ensures (exists rounds :: !SwapSearch(i, j, base, reserves, fees, q, rounds).Unfinished?) <==>
            var c, d0 := CommonBalances(i, j, base, reserves, fees, q), OldInvariant(i, j, base, reserves, fees, q);
            Slope(c.before[j], e.b, d0) <= 0 || StopsAtFloor(m, e.b, e.c, d0, Precision(q.dec), q.dec[j])
  {
    var precision, d0 := Precision(q.dec), OldInvariant(i, j, base, reserves, fees, q);
    var start := CommonBalances(i, j, base, reserves, fees, q).before[j];
    ScaledOnGrid(reserves[j] - fees[j], precision, q.dec[j]);
    SearchEndsExactly(start, m, e.b, e.c, d0, precision, q.dec[j]);
    SwapSearchIsSearch(i, j, base, reserves, fees, q, e, start);
  }

  lemma SwapSearchIsSearch(i: nat, j: nat, base: nat, reserves: seq<nat>, fees: seq<nat>, q: Params, e: Equation,
                           start: nat)
    requires Ready(i, j, base, reserves, fees, q) && Quotable(j, CommonBalances(i, j, base, reserves, fees, q), q)
    requires start == CommonBalances(i, j, base, reserves, fees, q).before[j]
    requires e == QuoteEquation(CommonBalances(i, j, base, reserves, fees, q).withI, j, q,
                                OldInvariant(i, j, base, reserves, fees, q))
    ensures (exists rounds :: !SwapSearch(i, j, base, reserves, fees, q, rounds).Unfinished?) <==>
            SearchEnds(start, e.b, e.c, OldInvariant(i, j, base, reserves, fees, q), Precision(q.dec), q.dec[j])
  {
    var precision, d0 := Precision(q.dec), OldInvariant(i, j, base, reserves, fees, q);
    forall rounds: nat
      ensures SwapSearch(i, j, base, reserves, fees, q, rounds)
           == Search(start, e.b, e.c, d0, precision, q.dec[j], rounds)
    {
    }
  }

  /** The search ends at a balance that can be adjusted and then settled. */
  ghost predicate QuoteSettles(i: nat, j: nat, base: nat, reserves: seq<nat>, fees: seq<nat>, q: Params, c: Balances,
                               d0: nat,
                               rounds: nat)
    requires Sound(q) && WellShaped(i, j, reserves, fees, q) && Quotable(j, c, q)
  {
    var search, unit := SearchQuote(j, c, q, d0, rounds), Quotient(Precision(q.dec), q.dec[j]);
    && search.Done? && Adjustable(c.withI, j, search.value, unit)
    && Settleable(i, j, base, reserves, fees, q,
                  Adjusted(c.withI, j, search.value, unit, q.n, q.ampl * Pow(q.n, q.n), d0), d0)
  }

  /** Exactly when `swap` finishes. */
  ghost predicate SwapFinishes(i: nat, j: nat, base: nat, reserves: seq<nat>, fees: seq<nat>, q: Params, rounds: nat) {
    && Ready(i, j, base, reserves, fees, q)
    && (ReadyQuotable(i, j, base, reserves, fees, q);
        QuoteSettles(i, j, base, reserves, fees, q, CommonBalances(i, j, base, reserves, fees, q),
                     OldInvariant(i, j, base, reserves, fees, q), rounds))
  }

  /** Where a finished swap comes from. */
  datatype Trace = Trace(last: nat, found: nat, balanceJ: nat, f: Split, m: Measured)

  /** The quote balance solves the quote equation of the old invariant, the trader gets what it frees less
      fees, d1 and d2 are the invariants before and after the LP fee, which never lowers them, and d1 stays
      within two quote units of the old invariant. */
  ghost predicate QuotePrices(i: nat, j: nat, base: nat, reserves: seq<nat>, fees: seq<nat>, q: Params, c: Balances,
                              d0: nat,
                              r: Swapped, t: Trace)
    requires Sound(q) && WellShaped(i, j, reserves, fees, q) && Quotable(j, c, q)
  {
    && QuoteFound(j, c, q, d0, t.last, t.found, t.balanceJ)
    && IsQuoteEquation(QuoteEquation(c.withI, j, q, d0), c.withI, j, q.ampl, d0)
    && IsSettled(i, j, base, reserves, fees, q, t.balanceJ, t.f, t.m, r)
    && SettledInNumbers(i, j, base, reserves, fees, q, t.balanceJ, t.f, t.m, r)
    && r.d1 <= r.d2
    && Distance(r.d1, d0) <= Quotient(2 * Precision(q.dec), q.dec[j])
  }

  /** What `swap` gives. */
  ghost predicate SwapPrices(i: nat, j: nat, base: nat, reserves: seq<nat>, fees: seq<nat>, q: Params, r: Swapped,
                             t: Trace)
    requires Ready(i, j, base, reserves, fees, q)
  {
    ReadyQuotable(i, j, base, reserves, fees, q);
    && PricedAt(OldInvariant(i, j, base, reserves, fees, q), reserves, fees, q.dec, q.ampl)
    && QuotePrices(i, j, base, reserves, fees, q, CommonBalances(i, j, base, reserves, fees, q),
                   OldInvariant(i, j, base, reserves, fees, q), r, t)
  }

  lemma OldPrice(i: nat, j: nat, base: nat, reserves: seq<nat>, fees: seq<nat>, q: Params)
    requires Ready(i, j, base, reserves, fees, q)
    ensures PricedAt(OldInvariant(i, j, base, reserves, fees, q), reserves, fees, q.dec, q.ampl)
  {
    PricedExactly(OldInvariant(i, j, base, reserves, fees, q), reserves, fees, q.dec, q.ampl);
  }

  lemma PricedConserves(i: nat, j: nat, base: nat, reserves: seq<nat>, fees: seq<nat>, q: Params, r: Swapped, t: Trace)
    requires Ready(i, j, base, reserves, fees, q) && SwapPrices(i, j, base, reserves, fees, q, r, t)
    requires i != j && Aligned(q.dec, Precision(q.dec))
    ensures SwapConserves(i, j, base, reserves, fees, q, r)
  {
    ReadyQuotable(i, j, base, reserves, fees, q);
    var c, d0 := CommonBalances(i, j, base, reserves, fees, q), OldInvariant(i, j, base, reserves, fees, q);
    QuoteOnGrid(j, c, q, d0, t.last, t.found, t.balanceJ);
    SettledConserves(i, j, base, reserves, fees, q, t.balanceJ, t.f, t.m, r);
  }

  /** `Settle` from a quote balance that was found by the search, which is one in whole tokens. */
  method SettleFound(i: nat, j: nat, base: nat, reserves: seq<nat>, fees: seq<nat>, q: Params, c: Balances, d0: nat,
                     balanceJ: nat, ghost last: nat, ghost found: nat)
      returns (o: Outcome<Swapped>, ghost f: Split, ghost m: Measured)
    requires Sound(q) && WellShaped(i, j, reserves, fees, q) && Precision(q.dec) >= 1
    requires Quotable(j, c, q) && QuoteFound(j, c, q, d0, last, found, balanceJ)
    ensures !o.Unfinished?
    ensures o.Done? <==> Settleable(i, j, base, reserves, fees, q, balanceJ, d0)
    ensures o.Done? ==>
      && IsSettled(i, j, base, reserves, fees, q, balanceJ, f, m, o.value) && o.value.d1 <= o.value.d2
      && Distance(o.value.d1, d0) <= Quotient(2 * Precision(q.dec), q.dec[j])
    ensures i != j && Aligned(q.dec, Precision(q.dec)) ==> o != Abort(BaseAmountCheck) && o != Abort(QuoteAmountCheck)
  {
    if Aligned(q.dec, Precision(q.dec)) { QuoteOnGrid(j, c, q, d0, last, found, balanceJ); }
    o, f, m := Settle(i, j, base, reserves, fees, q, balanceJ, d0);
  }

  /** Finds the quote balance for an old invariant and settles it. */
  method FindAndSettle(i: nat, j: nat, base: nat, reserves: seq<nat>, fees: seq<nat>, q: Params, c: Balances, d0: nat,
                       rounds: nat)
      returns (o: Outcome<Swapped>, ghost t: Trace)
    requires Sound(q) && WellShaped(i, j, reserves, fees, q) && Quotable(j, c, q)
    requires d0 > 1 && AllPositive(Others(c.withI, j))
    ensures o.Done? <==> QuoteSettles(i, j, base, reserves, fees, q, c, d0, rounds)
    ensures o.Unfinished? <==> SearchQuote(j, c, q, d0, rounds).Unfinished?
    ensures o.Done? ==> QuotePrices(i, j, base, reserves, fees, q, c, d0, o.value, t)
    ensures i != j && Aligned(q.dec, Precision(q.dec)) ==> o != Abort(BaseAmountCheck) && o != Abort(QuoteAmountCheck)
  {
    t := Trace(0, 0, 0, Split(0, 0, 0, 0), Measured([], [], 0, 0));
    var quote;
    ghost var last, found;
    quote, last, found := FindQuote(j, c, q, d0, rounds);
    if quote.Abort? { o := Abort(quote.fault); return; }
    if quote.Unfinished? { o := Unfinished; return; }
    ghost var f, m;
    o, f, m := SettleFound(i, j, base, reserves, fees, q, c, d0, quote.value, last, found);
    QuoteEquationExactly(c.withI, j, q, d0);
    if o.Done? { SettlesInNumbers(i, j, base, reserves, fees, q, quote.value, f, m, o.value); }
    t := Trace(last, found, quote.value, f, m);
  }

  /** `swap` from the point where its inputs are known to be sound. */
  method SwapReady(i: nat, j: nat, base: nat, reserves: seq<nat>, fees: seq<nat>, q: Params, rounds: nat)
      returns (o: Outcome<Swapped>, ghost t: Trace)
    requires Ready(i, j, base, reserves, fees, q)
    ensures o.Done? <==> SwapFinishes(i, j, base, reserves, fees, q, rounds)
    ensures o.Unfinished? <==> SwapSearch(i, j, base, reserves, fees, q, rounds).Unfinished?
    ensures o.Done? ==> SwapPrices(i, j, base, reserves, fees, q, o.value, t)
    ensures i != j && Aligned(q.dec, Precision(q.dec)) ==> o != Abort(BaseAmountCheck) && o != Abort(QuoteAmountCheck)
  {
    var c := CommonBalances(i, j, base, reserves, fees, q);
    ReadyQuotable(i, j, base, reserves, fees, q);
    OldInvariantAtLeastTwo(i, j, base, reserves, fees, q);
    OldPrice(i, j, base, reserves, fees, q);
    var d0 := InvariantFor(c.before, q);
    o, t := FindAndSettle(i, j, base, reserves, fees, q, c, d0, rounds);
  }

  /** `swap`. The rounding search for the quote balance need not end, so `rounds`
      bounds it; every run that ends is a run within some bound. */
  method Swap(i: nat, j: nat, base: nat, reserves: seq<nat>, fees: seq<nat>, q: Params, rounds: nat)
      returns (o: Outcome<Swapped>, ghost t: Trace)
    requires Sound(q)
    ensures o.Done? <==> SwapFinishes(i, j, base, reserves, fees, q, rounds)
    ensures o.Unfinished? <==>
      Ready(i, j, base, reserves, fees, q) && SwapSearch(i, j, base, reserves, fees, q, rounds).Unfinished?
    ensures o.Done? ==> SwapPrices(i, j, base, reserves, fees, q, o.value, t)
    ensures i != j && q.dec != [] && Aligned(q.dec, Precision(q.dec)) ==>
      o != Abort(BaseAmountCheck) && o != Abort(QuoteAmountCheck)
    ensures i != j && o.Done? && Aligned(q.dec, Precision(q.dec)) ==>
      SwapConserves(i, j, base, reserves, fees, q, o.value)
  {
    t := Trace(0, 0, 0, Split(0, 0, 0, 0), Measured([], [], 0, 0));
    if |reserves| != q.n || |fees| != q.n || |q.dec| != q.n || i >= q.n || j >= q.n {
      o := Abort(Shape);
      return;
    }
    if !Covers(reserves, fees) { o := Abort(Underflow); return; }
    if !AllPositive(q.dec) { o := Abort(DivisionByZero); return; }
    if Precision(q.dec) == 0 || !AllPositive(CommonBalances(i, j, base, reserves, fees, q).before) {
      o := Abort(DivisionByZero);
      return;
    }
    o, t := SwapReady(i, j, base, reserves, fees, q, rounds);
    if i != j && o.Done? && Aligned(q.dec, Precision(q.dec)) {
      PricedConserves(i, j, base, reserves, fees, q, o.value, t);
    }
  }

  /** With a fee in range, a quote balance can be split exactly when it does not exceed the old one and the
      protocol share is in range. */
  lemma SplitSucceeds(initial: nat, balanceJ: nat, precision: nat, dec: nat, q: Params)
    requires precision >= 1 && q.swapFee <= DENOM
    ensures SplitQuote(initial, balanceJ, precision, dec, q).Done? <==> balanceJ <= initial && 1 <= q.share <= DENOM
  {
    if balanceJ <= initial && 1 <= q.share <= DENOM {
      var delta := Rescale(initial - balanceJ, dec, precision);
      FeeWithinNominal(delta, q.swapFee, q.share);
      MulMono(q.swapFee, DENOM, delta);
      FloorBounds(delta * q.swapFee, DENOM);
      MulCancel(Quotient(delta * q.swapFee, DENOM), delta, DENOM);
    }
  }

  // ---- When a swap of an aligned pool finishes ----------------------------

  lemma OnGridRoundTrip(x: nat, precision: nat, dec: nat)
    requires dec >= 1 && precision >= 1 && precision % dec == 0 && OnGrid(x, precision, dec)
    ensures Rescale(Rescale(x, dec, precision), precision, dec) == x
  {
    var y: nat :| x == y * Quotient(precision, dec);
    ScaleExact(y, precision, dec);
  }

  lemma ScaledOnGrid(y: nat, precision: nat, dec: nat)
    requires dec >= 1 && precision >= 1 && precision % dec == 0
    ensures OnGrid(Rescale(y, precision, dec), precision, dec)
  {
    ScaleExact(y, precision, dec);
    assert Rescale(y, precision, dec) == y * Quotient(precision, dec);
  }

  lemma GridSum(x: nat, x': nat, precision: nat, dec: nat)
    requires dec >= 1 && OnGrid(x, precision, dec) && OnGrid(x', precision, dec)
    ensures OnGrid(x + x', precision, dec)
  {
    var unit := Quotient(precision, dec);
    var y: nat, y': nat :| x == y * unit && x' == y' * unit;
    Distribute(y, y', unit);
    assert x + x' == (y + y') * unit;
  }

  /** With aligned decimals the tradable balances after a swap are the balances with the base amount and with
      the new quote balance plus its LP fee. */
  lemma AlignedTradables(i: nat, j: nat, base: nat, reserves: seq<nat>, fees: seq<nat>, q: Params, balanceJ: nat,
                         f: Split)
    requires WellShaped(i, j, reserves, fees, q) && q.dec != [] && Precision(q.dec) >= 1
    requires Aligned(q.dec, Precision(q.dec)) && OnGrid(balanceJ, Precision(q.dec), q.dec[j])
    ensures var withI := CommonBalances(i, j, base, reserves, fees, q).withI;
      Tradables(ReservesAfter(i, j, base, reserves, fees, q, balanceJ, f), fees[j := fees[j] + f.protocol], q)
      == withI[j := balanceJ + Rescale(f.lp, Precision(q.dec), q.dec[j])]
  {
    var precision, b := Precision(q.dec), Minus(reserves, fees);
    var fees' := fees[j := fees[j] + f.protocol];
    var lpCommon := Rescale(f.lp, precision, q.dec[j]);
    var cells := ToCommon(b[i := b[i] + base], precision, q.dec)[j := balanceJ + lpCommon];
    var after := ReservesAfter(i, j, base, reserves, fees, q, balanceJ, f);
    assert Minus(after, fees') == FromCommon(cells, precision, q.dec);
    ScaledOnGrid(f.lp, precision, q.dec[j]);
    GridSum(balanceJ, lpCommon, precision, q.dec[j]);
    forall k | 0 <= k < q.n ensures Rescale(Rescale(cells[k], q.dec[k], precision), precision, q.dec[k]) == cells[k] {
      if k != j { ScaledOnGrid(b[i := b[i] + base][k], precision, q.dec[k]); }
      OnGridRoundTrip(cells[k], precision, q.dec[k]);
    }
  }

  /** What the closing checks of an aligned swap come to. */
  ghost predicate AlignedCloses(withI: seq<nat>, j: nat, q: Params, balanceJ: nat, lp: nat, d0: nat)
    requires Sound(q) && |withI| == |q.dec| == q.n && j < q.n && AllPositive(q.dec)
  {
    var precision, ann := Precision(q.dec), q.ampl * Pow(q.n, q.n);
    var v1, v2 := withI[j := balanceJ], withI[j := balanceJ + Rescale(lp, precision, q.dec[j])];
    && Tradable(v1) && Tradable(v2)
    && var d1, d2 := Invariant(TotalsOf(v1, q.ampl)), Invariant(TotalsOf(v2, q.ampl));
       var unit := Quotient(precision, q.dec[j]);
       && AssetExtremum(q.n, ann, v1, d1, unit, j) && AssetExtremum(q.n, ann, v2, d2, unit, j)
       && Distance(d1, d0) <= Quotient(2 * precision, q.dec[j])
  }

  /** An aligned swap measures the found quote balance without and with its LP fee. */
  lemma AlignedMeasured(i: nat, j: nat, base: nat, reserves: seq<nat>, fees: seq<nat>, q: Params, balanceJ: nat,
                        f: Split, m: Measured, r: Swapped)
    requires Sound(q) && WellShaped(i, j, reserves, fees, q) && Precision(q.dec) >= 1
    requires Aligned(q.dec, Precision(q.dec)) && OnGrid(balanceJ, Precision(q.dec), q.dec[j])
    requires IsSettled(i, j, base, reserves, fees, q, balanceJ, f, m, r)
    ensures var withI := CommonBalances(i, j, base, reserves, fees, q).withI;
      && m.v1 == withI[j := balanceJ]
      && m.v2 == withI[j := balanceJ + Rescale(f.lp, Precision(q.dec), q.dec[j])]
  {
    AlignedTradables(i, j, base, reserves, fees, q, balanceJ, f);
    SettledInvariant(i, j, base, reserves, fees, q, balanceJ, f, m, r);
    var withI: seq<nat> := CommonBalances(i, j, base, reserves, fees, q).withI;
    var lpCommon: nat := Rescale(f.lp, Precision(q.dec), q.dec[j]);
    assert withI[j := balanceJ + lpCommon][j := balanceJ] == withI[j := balanceJ];
  }

  /** With fee and share in range and a quote balance in whole tokens that does not rise, an aligned swap is
      always put to the closing checks. */
  lemma AlignedPreparable(i: nat, j: nat, base: nat, reserves: seq<nat>, fees: seq<nat>, q: Params, balanceJ: nat)
    requires WellShaped(i, j, reserves, fees, q) && q.dec != [] && Precision(q.dec) >= 1
    requires Aligned(q.dec, Precision(q.dec)) && OnGrid(balanceJ, Precision(q.dec), q.dec[j])
    requires AllPositive(CommonBalances(i, j, base, reserves, fees, q).withI[j := balanceJ]) && q.swapFee <= DENOM
    ensures Preparable(i, j, base, reserves, fees, q, balanceJ) <==>
            balanceJ <= CommonBalances(i, j, base, reserves, fees, q).before[j] && 1 <= q.share <= DENOM
  {
    var precision, c := Precision(q.dec), CommonBalances(i, j, base, reserves, fees, q);
    SplitSucceeds(c.before[j], balanceJ, precision, q.dec[j], q);
    var split := QuoteSplit(j, reserves, fees, q, balanceJ);
    if split.Done? {
      var f := split.value;
      AlignedTradables(i, j, base, reserves, fees, q, balanceJ, f);
      var lpCommon: nat := Rescale(f.lp, precision, q.dec[j]);
      assert c.withI[j := balanceJ + lpCommon][j := balanceJ] == c.withI[j := balanceJ];
    }
  }

  lemma AlignedCandidate(i: nat, j: nat, base: nat, reserves: seq<nat>, fees: seq<nat>, q: Params, balanceJ: nat,
                         d0: nat,
                         f: Split, m: Measured, r: Swapped)
    requires Sound(q) && WellShaped(i, j, reserves, fees, q) && Precision(q.dec) >= 1 && i != j
    requires Aligned(q.dec, Precision(q.dec)) && OnGrid(balanceJ, Precision(q.dec), q.dec[j])
    requires IsSettled(i, j, base, reserves, fees, q, balanceJ, f, m, r)
    ensures QuoteSplit(j, reserves, fees, q, balanceJ) == Done(f)
    ensures Closes(i, j, base, reserves, q, r, m.v1, m.v2, d0) <==>
            AlignedCloses(CommonBalances(i, j, base, reserves, fees, q).withI, j, q, balanceJ, f.lp, d0)
  {
    AlignedMeasured(i, j, base, reserves, fees, q, balanceJ, f, m, r);
    SettledExactly(i, j, base, reserves, fees, q, balanceJ, f, m, r);
  }

  /** The settlement of an aligned swap in closed form. */
  lemma AlignedSettleable(i: nat, j: nat, base: nat, reserves: seq<nat>, fees: seq<nat>, q: Params, balanceJ: nat,
                          d0: nat)
    requires Sound(q) && WellShaped(i, j, reserves, fees, q) && Precision(q.dec) >= 1 && i != j
    requires Aligned(q.dec, Precision(q.dec)) && OnGrid(balanceJ, Precision(q.dec), q.dec[j])
    requires AllPositive(CommonBalances(i, j, base, reserves, fees, q).withI[j := balanceJ]) && q.swapFee <= DENOM
    ensures Settleable(i, j, base, reserves, fees, q, balanceJ, d0) <==>
            var c, split := CommonBalances(i, j, base, reserves, fees, q), QuoteSplit(j, reserves, fees, q, balanceJ);
            && balanceJ <= c.before[j] && 1 <= q.share <= DENOM
            && split.Done? && AlignedCloses(c.withI, j, q, balanceJ, split.value.lp, d0)
  {
    AlignedPreparable(i, j, base, reserves, fees, q, balanceJ);
    if Preparable(i, j, base, reserves, fees, q, balanceJ) {
      var f, m, r := Candidate(i, j, base, reserves, fees, q, balanceJ);
      AlignedCandidate(i, j, base, reserves, fees, q, balanceJ, d0, f, m, r);
      SettleableExactly(i, j, base, reserves, fees, q, balanceJ, d0, f, m, r);
    } else if Settleable(i, j, base, reserves, fees, q, balanceJ, d0) {
      SettleableIsPreparable(i, j, base, reserves, fees, q, balanceJ, d0);
    }
  }

  lemma Candidate(i: nat, j: nat, base: nat, reserves: seq<nat>, fees: seq<nat>, q: Params, balanceJ: nat)
      returns (f: Split, m: Measured, r: Swapped)
    requires Sound(q) && WellShaped(i, j, reserves, fees, q) && Precision(q.dec) >= 1
    requires Preparable(i, j, base, reserves, fees, q, balanceJ)
    ensures IsSettled(i, j, base, reserves, fees, q, balanceJ, f, m, r)
  {
    f := QuoteSplit(j, reserves, fees, q, balanceJ).value;
    var after := ReservesAfter(i, j, base, reserves, fees, q, balanceJ, f);
    var v1, v2 := WithoutLp(after, fees[j := fees[j] + f.protocol], j, f.lp, q), WithLp(after, fees, j, f.protocol, q);
    LpFeeAdds(after, fees, j, f, q);
    assert AtMost(v1, v2);
    assert Tradable(v1) && Tradable(v2);
    m := Measured(v1, v2, Invariant(TotalsOf(v1, q.ampl)), Invariant(TotalsOf(v2, q.ampl)));
    r := Swapped(after, fees[j := fees[j] + f.protocol], m.d1, m.d2, f.received);
  }

  lemma AdjustedPositive(common: seq<nat>, j: nat, found: nat, unit: nat, n: nat, ann: nat, d0: nat)
    requires j < |common| && n >= 1 && Adjustable(common, j, found, unit)
    ensures AllPositive(common[j := Adjusted(common, j, found, unit, n, ann, d0)])
  {
    ProductCells(common[j := found]);
    ProductCells(common[j := found - unit]);
  }

  /** What an aligned swap needs once its search has ended at `found`. */
  ghost predicate AlignedFinish(i: nat, j: nat, base: nat, reserves: seq<nat>, fees: seq<nat>, q: Params, c: Balances,
                                d0: nat,
                                found: nat)
    requires Sound(q) && WellShaped(i, j, reserves, fees, q) && Quotable(j, c, q)
  {
    var unit := Quotient(Precision(q.dec), q.dec[j]);
    && Adjustable(c.withI, j, found, unit)
    && var balanceJ := Adjusted(c.withI, j, found, unit, q.n, q.ampl * Pow(q.n, q.n), d0);
       var split := QuoteSplit(j, reserves, fees, q, balanceJ);
       && balanceJ <= c.before[j] && 1 <= q.share <= DENOM
       && split.Done? && AlignedCloses(c.withI, j, q, balanceJ, split.value.lp, d0)
  }

  lemma AlignedQuoteSettles(i: nat, j: nat, base: nat, reserves: seq<nat>, fees: seq<nat>, q: Params, d0: nat,
                            rounds: nat)
    requires Ready(i, j, base, reserves, fees, q) && i != j && Aligned(q.dec, Precision(q.dec)) && q.swapFee <= DENOM
    requires Quotable(j, CommonBalances(i, j, base, reserves, fees, q), q)
    ensures var c := CommonBalances(i, j, base, reserves, fees, q);
      QuoteSettles(i, j, base, reserves, fees, q, c, d0, rounds) <==>
      var search := SearchQuote(j, c, q, d0, rounds);
      search.Done? && AlignedFinish(i, j, base, reserves, fees, q, c, d0, search.value)
  {
    var c := CommonBalances(i, j, base, reserves, fees, q);
    var search, unit := SearchQuote(j, c, q, d0, rounds), Quotient(Precision(q.dec), q.dec[j]);
    if search.Done? && Adjustable(c.withI, j, search.value, unit) {
      var e, ann := QuoteEquation(c.withI, j, q, d0), q.ampl * Pow(q.n, q.n);
      var last := SearchSettles(c.before[j], e.b, e.c, d0, Precision(q.dec), q.dec[j], rounds);
      var balanceJ := Adjusted(c.withI, j, search.value, unit, q.n, ann, d0);
      QuoteOnGrid(j, c, q, d0, last, search.value, balanceJ);
      AdjustedPositive(c.withI, j, search.value, unit, q.n, ann, d0);
      AlignedSettleable(i, j, base, reserves, fees, q, balanceJ, d0);
    }
  }

  /** An aligned swap with its fee in range finishes exactly when its search ends at a value that can be
      adjusted, the quote balance does not rise, the protocol share is in range, and the closing checks hold of
      the found balance without and with its LP fee. */
  lemma AlignedSwapFinishes(i: nat, j: nat, base: nat, reserves: seq<nat>, fees: seq<nat>, q: Params, rounds: nat)
    requires Ready(i, j, base, reserves, fees, q) && i != j && Aligned(q.dec, Precision(q.dec)) && q.swapFee <= DENOM
    ensures Quotable(j, CommonBalances(i, j, base, reserves, fees, q), q)
    ensures SwapFinishes(i, j, base, reserves, fees, q, rounds) <==>
      var search := SwapSearch(i, j, base, reserves, fees, q, rounds);
      search.Done? && AlignedFinish(i, j, base, reserves, fees, q, CommonBalances(i, j, base, reserves, fees, q),
                                    OldInvariant(i, j, base, reserves, fees, q), search.value)
  {
    ReadyQuotable(i, j, base, reserves, fees, q);
    AlignedQuoteSettles(i, j, base, reserves, fees, q, OldInvariant(i, j, base, reserves, fees, q), rounds);
  }

  // ---- When a swap ends at the minimum ------------------------------------

  /** The quote balance an aligned swap moves to has the least error of all balances in whole tokens if and only if the
      errors around the value its search ended at are as they must be. */
  lemma SwapEndsAtMinimum(i: nat, j: nat, base: nat, reserves: seq<nat>, fees: seq<nat>, q: Params, rounds: nat,
                          found: nat)
    requires Ready(i, j, base, reserves, fees, q) && Aligned(q.dec, Precision(q.dec))
    requires SwapSearch(i, j, base, reserves, fees, q, rounds) == Done(found)
    requires Adjustable(CommonBalances(i, j, base, reserves, fees, q).withI, j, found,
                        Quotient(Precision(q.dec), q.dec[j]))
    ensures var withI := CommonBalances(i, j, base, reserves, fees, q).withI;
      var d0 := OldInvariant(i, j, base, reserves, fees, q);
      var unit := Quotient(Precision(q.dec), q.dec[j]);
      var balanceJ := Adjusted(withI, j, found, unit, q.n, q.ampl * Pow(q.n, q.n), d0);
      && OpenCell(withI, j) && found > unit && balanceJ >= 1
      && (LeastError(withI, j, balanceJ, q.ampl, d0, Precision(q.dec), q.dec[j]) <==>
          AdjustsWell(withI, j, found, unit, q.ampl, d0))
  {
    ReadyQuotable(i, j, base, reserves, fees, q);
    var c, d0 := CommonBalances(i, j, base, reserves, fees, q), OldInvariant(i, j, base, reserves, fees, q);
    OthersOpenCell(c.withI, j);
    FoundOnGrid(j, c, q, d0, rounds, found);
    AdjustedIsLeast(c.withI, j, found, q.ampl, d0, Precision(q.dec), q.dec[j]);
  }

  lemma OthersOpenCell(withI: seq<nat>, j: nat)
    requires j < |withI| && |withI| >= 2 && AllPositive(Others(withI, j))
    ensures OpenCell(withI, j)
  {
    forall k | 0 <= k < |withI| && k != j ensures withI[k] >= 1 {
      assert Others(withI, j)[if k < j then k else k - 1] == withI[k];
    }
  }

  lemma FoundOnGrid(j: nat, c: Balances, q: Params, d0: nat, rounds: nat, found: nat)
    requires Quotable(j, c, q) && Aligned(q.dec, Precision(q.dec))
    requires SearchQuote(j, c, q, d0, rounds) == Done(found)
    ensures OnGrid(found, Precision(q.dec), q.dec[j])
  {
    var e := QuoteEquation(c.withI, j, q, d0);
    var last := SearchSettles(c.before[j], e.b, e.c, d0, Precision(q.dec), q.dec[j], rounds);
    SettledResidual(last, found, e.b, e.c, d0, Precision(q.dec), q.dec[j]);
  }
}

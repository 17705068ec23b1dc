/** Model of cardano-offchain-stableswap/src/stable_swap_amm_actions.rs.
    Amounts are natural numbers; every subtraction below zero, division by zero
    and failed assertion of the source is an `Abort`. */
module StableSwapActions {
  import opened Arithmetic
  import opened StableSwapInvariant

  const LP_EMISSION: nat := 9223372036854775807
  const LP_UNIT: nat := 1_000_000_000
  const DENOM: nat := 10_000
  const LIMB: nat := 0x1_0000_0000_0000_0000

  datatype Fault =
    | Shape            // lengths differ or an index is out of range
    | Underflow
    | DivisionByZero
    | FeeExceedsBalance
    | LpExhausted
    | ExtremumCheck
    | BaseAmountCheck
    | QuoteAmountCheck
    | AssetExtremumCheck
    | InvariantDriftCheck

  /** `Unfinished` stands for a search that has not ended within the given number of rounds. */
  datatype Outcome<T> = Done(value: T) | Abort(fault: Fault) | Unfinished

  // ---- Balance lists ------------------------------------------------------

  predicate Covers(a: seq<nat>, b: seq<nat>) {
    |a| == |b| && forall k :: 0 <= k < |a| ==> b[k] <= a[k]
  }

  predicate AllPositive(a: seq<nat>) {
    forall k :: 0 <= k < |a| ==> a[k] >= 1
  }

  function Minus(a: seq<nat>, b: seq<nat>): (r: seq<nat>)
    requires Covers(a, b)
    ensures |r| == |a|
  {
    seq(|a|, k requires 0 <= k < |a| => a[k] - b[k])
  }

  function Plus(a: seq<nat>, b: seq<nat>): (r: seq<nat>)
    requires |a| == |b|
    ensures |r| == |a|
  {
    seq(|a|, k requires 0 <= k < |a| => a[k] + b[k])
  }

  function Maximum(a: seq<nat>): nat
    requires a != []
  {
    if |a| == 1 then a[0] else
    var m := Maximum(a[1..]);
    if a[0] > m then a[0] else m
  }

  /** The common precision: the lowest 64-bit limb of the largest decimals value. */
  function Precision(dec: seq<nat>): nat
    requires dec != []
  {
    Maximum(dec) % LIMB
  }

  /** `x` with `dec` decimals, in units of the common precision. */
  function Rescale(x: nat, precision: nat, dec: nat): nat
    requires dec >= 1
  {
    Quotient(x * precision, dec)
  }

  function ToCommon(b: seq<nat>, precision: nat, dec: seq<nat>): (r: seq<nat>)
    requires |b| == |dec| && AllPositive(dec)
    ensures |r| == |b|
  {
    seq(|b|, k requires 0 <= k < |b| => Rescale(b[k], precision, dec[k]))
  }

  lemma ToCommonMonotone(a: seq<nat>, b: seq<nat>, precision: nat, dec: seq<nat>)
    requires AtMost(a, b) && |b| == |dec| && AllPositive(dec)
    ensures AtMost(ToCommon(a, precision, dec), ToCommon(b, precision, dec))
  {
    forall k | 0 <= k < |a| ensures ToCommon(a, precision, dec)[k] <= ToCommon(b, precision, dec)[k] {
      MulMono(a[k], b[k], precision);
      FloorMono(a[k] * precision, b[k] * precision, dec[k]);
    }
  }

  // ---- What prices a pool -------------------------------------------------

  ghost predicate IsLargest(m: nat, a: seq<nat>) {
    m in a && forall k :: 0 <= k < |a| ==> a[k] <= m
  }

  lemma {:induction false} MaximumIsLargest(a: seq<nat>)
    requires a != []
    ensures forall m :: IsLargest(m, a) <==> m == Maximum(a)
  {
    var top := Maximum(a);
    if |a| > 1 {
      var tail := a[1..];
      MaximumIsLargest(tail);
      assert IsLargest(Maximum(tail), tail);
      forall k | 0 <= k < |a| ensures a[k] <= top { if k > 0 { assert tail[k - 1] == a[k]; } }
      assert top == a[0] || top in tail;
    }
    assert IsLargest(top, a);
    forall m | IsLargest(m, a) ensures m == top {}
  }

  /** The largest decimals value, in 64 bits. */
  ghost predicate IsPrecision(p: nat, dec: seq<nat>) {
    exists m: nat :: IsLargest(m, dec) && p == m % 0x1_0000_0000_0000_0000
  }

  lemma PrecisionExactly(p: nat, dec: seq<nat>)
    ensures IsPrecision(p, dec) <==> dec != [] && p == Precision(dec)
  {
    if dec != [] {
      MaximumIsLargest(dec);
      assert IsLargest(Maximum(dec), dec);
    }
  }

  /** `t` holds the reserves without fees in units of the common precision, each rounded down. */
  ghost predicate InCommon(t: seq<nat>, reserves: seq<nat>, fees: seq<nat>, dec: seq<nat>) {
    && |t| == |reserves| == |fees| == |dec|
    && exists p: nat :: IsPrecision(p, dec)
                     && forall k :: 0 <= k < |t| ==> IsTradable(t[k], reserves[k], fees[k], p, dec[k])
  }

  ghost predicate IsTradable(t: nat, reserve: nat, fee: nat, precision: nat, dec: nat) {
    IsFloor(t, (reserve - fee) * precision, dec)
  }

  predicate Convertible(reserves: seq<nat>, fees: seq<nat>, dec: seq<nat>) {
    |reserves| == |fees| == |dec| && dec != [] && Covers(reserves, fees) && AllPositive(dec)
  }

  lemma FlooredCell(t: nat, reserve: nat, fee: nat, precision: nat, dec: nat)
    requires IsTradable(t, reserve, fee, precision, dec)
    ensures dec >= 1 && (t >= 1 ==> fee <= reserve)
  {
    if t >= 1 {
      MulMono(1, t, dec);
      if reserve < fee { MulMono(reserve - fee, 0, precision); }
    }
  }

  lemma CommonExactly(t: seq<nat>, reserves: seq<nat>, fees: seq<nat>, dec: seq<nat>)
    requires Tradable(t)
    ensures InCommon(t, reserves, fees, dec) <==>
      Convertible(reserves, fees, dec) && t == ToCommon(Minus(reserves, fees), Precision(dec), dec)
  {
    if InCommon(t, reserves, fees, dec) {
      var p: nat :| IsPrecision(p, dec)
                 && forall k :: 0 <= k < |t| ==> IsTradable(t[k], reserves[k], fees[k], p, dec[k]);
      PrecisionExactly(p, dec);
      forall k | 0 <= k < |t| ensures dec[k] >= 1 && fees[k] <= reserves[k] {
        FlooredCell(t[k], reserves[k], fees[k], p, dec[k]);
      }
      forall k | 0 <= k < |t| ensures t[k] == Rescale(reserves[k] - fees[k], p, dec[k]) {
        FloorExactly(t[k], (reserves[k] - fees[k]) * p, dec[k]);
      }
    }
    if Convertible(reserves, fees, dec) && t == ToCommon(Minus(reserves, fees), Precision(dec), dec) {
      ConvertedInCommon(reserves, fees, dec);
    }
  }

  lemma ConvertedInCommon(reserves: seq<nat>, fees: seq<nat>, dec: seq<nat>)
    requires Convertible(reserves, fees, dec)
    ensures InCommon(ToCommon(Minus(reserves, fees), Precision(dec), dec), reserves, fees, dec)
  {
    var t, p := ToCommon(Minus(reserves, fees), Precision(dec), dec), Precision(dec);
    PrecisionExactly(p, dec);
    forall k | 0 <= k < |t| ensures IsTradable(t[k], reserves[k], fees[k], p, dec[k]) {
      FloorExactly(t[k], (reserves[k] - fees[k]) * p, dec[k]);
    }
  }

  /** The computed invariant, which has the least error of all. */
  ghost predicate IsInvariant(d: nat, t: seq<nat>, ampl: nat)
    requires Tradable(t) && ampl >= 1
  {
    && d == Invariant(TotalsOf(t, ampl))
    && Pow(|t|, |t|) * Prod(t) > 0
    && forall e: nat :: ErrorFromBalances(|t|, ampl * Pow(|t|, |t|), t, d)
                     <= ErrorFromBalances(|t|, ampl * Pow(|t|, |t|), t, e)
  }

  lemma InvariantExactly(d: nat, t: seq<nat>, ampl: nat)
    requires Tradable(t) && ampl >= 1
    ensures IsInvariant(d, t, ampl) <==> d == Invariant(TotalsOf(t, ampl))
  {
    InvariantOfBalances(t, ampl);
  }

  /** The tradable part of the reserves is nowhere empty, and `d` is its invariant. */
  ghost predicate PricedAt(d: nat, reserves: seq<nat>, fees: seq<nat>, dec: seq<nat>, ampl: nat)
    requires ampl >= 1
  {
    exists t :: Tradable(t) && InCommon(t, reserves, fees, dec) && IsInvariant(d, t, ampl)
  }

  lemma PricedExactly(d: nat, reserves: seq<nat>, fees: seq<nat>, dec: seq<nat>, ampl: nat)
    requires ampl >= 1
    ensures PricedAt(d, reserves, fees, dec, ampl) <==>
      && Convertible(reserves, fees, dec)
      && var t := ToCommon(Minus(reserves, fees), Precision(dec), dec);
         Tradable(t) && d == Invariant(TotalsOf(t, ampl))
  {
    if PricedAt(d, reserves, fees, dec, ampl) {
      var t :| Tradable(t) && InCommon(t, reserves, fees, dec) && IsInvariant(d, t, ampl);
      CommonExactly(t, reserves, fees, dec);
    }
    if Convertible(reserves, fees, dec) {
      var t := ToCommon(Minus(reserves, fees), Precision(dec), dec);
      if Tradable(t) && d == Invariant(TotalsOf(t, ampl)) {
        CommonExactly(t, reserves, fees, dec);
        InvariantExactly(d, t, ampl);
      }
    }
  }

  function LpEmission(): nat {
    LP_EMISSION * LP_UNIT
  }

  /** All LP tokens there will ever be: as many as a signed 64-bit number counts, with nine decimals. */
  const EMITTED: nat := 0x7FFF_FFFF_FFFF_FFFF * 1_000_000_000

  // ---- Uniform redemption -------------------------------------------------

  datatype Redeemed = Redeemed(received: seq<nat>, reserves: seq<nat>, lpAmount: nat, d2: nat)

  function Payout(balance: nat, lp: nat, supply: nat): nat
    requires supply >= 1
  {
    Quotient(balance * lp, supply)
  }

  function Payouts(balances: seq<nat>, lp: nat, supply: nat): (r: seq<nat>)
    requires supply >= 1
    ensures |r| == |balances|
  {
    seq(|balances|, k requires 0 <= k < |balances| => Payout(balances[k], lp, supply))
  }

  function RedeemUniform(reserves: seq<nat>, redeemedLp: nat, lpBefore: nat, dec: seq<nat>, fees: seq<nat>,
                         ampl: nat, n: nat): (o: Outcome<Redeemed>)
    requires n >= 2 && ampl >= 1
    ensures o != Abort(ExtremumCheck) && !o.Unfinished?
  {
    if |reserves| != n || |fees| != n || |dec| != n then Abort(Shape) else
    if !Covers(reserves, fees) || lpBefore > LpEmission() then Abort(Underflow) else
    var balances := Minus(reserves, fees);
    var supply := LpEmission() - lpBefore;
    if supply == 0 || !AllPositive(dec) then Abort(DivisionByZero) else
    var received := Payouts(balances, redeemedLp, supply);
    if !Covers(balances, received) then Abort(Underflow) else
    var left := Minus(balances, received);
    var leftCalc := ToCommon(left, Precision(dec), dec);
    if !AllPositive(leftCalc) then Abort(DivisionByZero) else
    var d2 := Invariant(TotalsOf(leftCalc, ampl));
    ComputedPassesCheck(leftCalc, ampl);
    if !CheckInvariantExtremum(n, ampl * Pow(n, n), leftCalc, d2) then Abort(ExtremumCheck) else
    Done(Redeemed(received, Plus(left, fees), lpBefore + redeemedLp, d2))
  }

  /** Pool state between redemptions: reserves, LP tokens in circulation, and everything paid out so far. */
  datatype Position = Position(reserves: seq<nat>, supply: nat, paid: seq<nat>)

  /** A run of redemptions, one after the other. */
  function RedeemAll(at: Position, amounts: seq<nat>, dec: seq<nat>, fees: seq<nat>, ampl: nat,
                     n: nat): Outcome<Position>
    requires n >= 2 && ampl >= 1 && |at.paid| == n && at.supply <= LpEmission()
    decreases |amounts|
  {
    if amounts == [] then Done(at) else
    match RedeemUniform(at.reserves, amounts[0], LpEmission() - at.supply, dec, fees, ampl, n)
    case Abort(f) => Abort(f)
    case Unfinished => Unfinished
    case Done(r) =>
      if r.lpAmount > LpEmission() then Abort(Underflow) else
      var next := Position(r.reserves, LpEmission() - r.lpAmount, Plus(at.paid, r.received));
      RedeemAll(next, amounts[1..], dec, fees, ampl, n)
  }

  /** Going from balance `b0` with LP supply `s0` to `b1` with `s1`, a share has not lost value. */
  ghost predicate ShareHolds(b0: nat, s0: nat, b1: nat, s1: nat) {
    b1 * s0 >= b0 * s1
  }

  /** Paying out a floored share keeps the balance per LP share from falling. */
  lemma ShareKept(balance: nat, lp: nat, supply: nat, received: nat)
    requires supply >= 1 && received == Payout(balance, lp, supply) && received < balance
    ensures lp < supply
    ensures ShareHolds(balance, supply, balance - received, supply - lp)
  {
    FloorBounds(balance * lp, supply);
    if lp >= supply {
      MulMono(supply, lp, balance);
      MulMono(received + 1, balance, supply);
      Distribute(received, 1, supply);
    } else {
      Distribute(balance - received, received, supply);
      Distribute(supply - lp, lp, balance);
    }
  }

  lemma RescalePositive(x: nat, precision: nat, dec: nat)
    requires dec >= 1 && Rescale(x, precision, dec) >= 1
    ensures x >= 1
  {
    FloorBounds(x * precision, dec);
  }

  /** A redemption in numbers: every asset pays its share of the LP tokens in circulation, rounded down, and the
      invariant is that of what is left. */
  ghost predicate IsRedemption(reserves: seq<nat>, lp: nat, lpBefore: nat, dec: seq<nat>, fees: seq<nat>, ampl: nat,
                               r: Redeemed)
    requires ampl >= 1
  {
    && |reserves| == |fees| == |r.received| == |r.reserves|
    && (forall k :: 0 <= k < |reserves| ==>
          && IsFloor(r.received[k], (reserves[k] - fees[k]) * lp, EMITTED - lpBefore)
          && r.received[k] + r.reserves[k] == reserves[k])
    && r.lpAmount == lpBefore + lp
    && PricedAt(r.d2, r.reserves, fees, dec, ampl)
  }

  lemma LeftAfterPayout(reserves: seq<nat>, fees: seq<nat>, received: seq<nat>)
    requires Covers(reserves, fees) && Covers(Minus(reserves, fees), received)
    ensures var left := Minus(Minus(reserves, fees), received);
      Covers(Plus(left, fees), fees) && Minus(Plus(left, fees), fees) == left
  {
  }

  /** The amounts of a redemption are the ones the code computes. */
  lemma PayoutsExactly(b: seq<nat>, received: seq<nat>, lp: nat, supply: int)
    requires |b| == |received| && b != [] && forall k :: 0 <= k < |b| ==> IsFloor(received[k], b[k] * lp, supply)
    ensures supply >= 1 && received == Payouts(b, lp, supply)
  {
    assert IsFloor(received[0], b[0] * lp, supply);
    forall k | 0 <= k < |b| ensures received[k] == Payout(b[k], lp, supply) {
      FloorExactly(received[k], b[k] * lp, supply);
    }
  }

  lemma RedemptionAmounts(reserves: seq<nat>, lp: nat, lpBefore: nat, dec: seq<nat>, fees: seq<nat>, ampl: nat,
                          r: Redeemed)
    requires ampl >= 1 && IsRedemption(reserves, lp, lpBefore, dec, fees, ampl, r)
    ensures Convertible(reserves, fees, dec) && lpBefore < LpEmission()
    ensures r.received == Payouts(Minus(reserves, fees), lp, LpEmission() - lpBefore)
    ensures Covers(Minus(reserves, fees), r.received)
    ensures r.reserves == Plus(Minus(Minus(reserves, fees), r.received), fees)
  {
    PricedExactly(r.d2, r.reserves, fees, dec, ampl);
    forall k | 0 <= k < |reserves| ensures fees[k] <= r.reserves[k] <= reserves[k] {
      assert r.received[k] + r.reserves[k] == reserves[k];
    }
    var b := Minus(reserves, fees);
    forall k | 0 <= k < |b| ensures IsFloor(r.received[k], b[k] * lp, LpEmission() - lpBefore) {}
    PayoutsExactly(b, r.received, lp, LpEmission() - lpBefore);
  }

  /** A redemption pays every asset its share and leaves every balance tradable. */
  ghost predicate PaysShares(reserves: seq<nat>, lp: nat, dec: seq<nat>, fees: seq<nat>, n: nat, supply: nat,
                             r: Redeemed)
  {
    && |reserves| == |fees| == |dec| == |r.received| == n && n >= 1 && supply >= 1 && AllPositive(dec)
    && Covers(reserves, fees) && r.received == Payouts(Minus(reserves, fees), lp, supply)
    && Covers(Minus(reserves, fees), r.received)
    && AllPositive(ToCommon(Minus(Minus(reserves, fees), r.received), Precision(dec), dec))
    && r.reserves == Plus(Minus(Minus(reserves, fees), r.received), fees)
  }

  lemma RedeemedPays(reserves: seq<nat>, lp: nat, lpBefore: nat, dec: seq<nat>, fees: seq<nat>, ampl: nat, n: nat,
                     supply: nat, r: Redeemed)
    requires n >= 2 && ampl >= 1 && lpBefore + supply == LpEmission()
    requires RedeemUniform(reserves, lp, lpBefore, dec, fees, ampl, n) == Done(r)
    ensures PaysShares(reserves, lp, dec, fees, n, supply, r) && r.lpAmount == lpBefore + lp
  {
  }

  lemma PaidAsset(reserves: seq<nat>, lp: nat, dec: seq<nat>, fees: seq<nat>, n: nat, supply: nat, r: Redeemed, k: nat)
    requires PaysShares(reserves, lp, dec, fees, n, supply, r) && k < n
    ensures lp < supply && |r.reserves| == n && fees[k] <= r.reserves[k] <= reserves[k]
    ensures r.received[k] + r.reserves[k] == reserves[k] && IsFloor(r.received[k], (reserves[k] - fees[k]) * lp, supply)
    ensures ShareHolds(reserves[k] - fees[k], supply, r.reserves[k] - fees[k], supply - lp)
  {
    var left := Minus(Minus(reserves, fees), r.received);
    assert ToCommon(left, Precision(dec), dec)[k] >= 1;
    RescalePositive(left[k], Precision(dec), dec[k]);
    ShareKept(reserves[k] - fees[k], lp, supply, r.received[k]);
    FloorBounds((reserves[k] - fees[k]) * lp, supply);
  }

  lemma PaidInNumbers(reserves: seq<nat>, lp: nat, dec: seq<nat>, fees: seq<nat>, n: nat, supply: nat, r: Redeemed)
    requires PaysShares(reserves, lp, dec, fees, n, supply, r)
    ensures |r.reserves| == n
    ensures forall k :: 0 <= k < n ==> IsFloor(r.received[k], (reserves[k] - fees[k]) * lp, supply)
    ensures forall k :: 0 <= k < n ==> r.received[k] + r.reserves[k] == reserves[k]
  {
    forall k | 0 <= k < n
      ensures IsFloor(r.received[k], (reserves[k] - fees[k]) * lp, supply)
      ensures r.received[k] + r.reserves[k] == reserves[k]
    {
      PaidAsset(reserves, lp, dec, fees, n, supply, r, k);
    }
  }

  lemma RedeemedPrice(reserves: seq<nat>, lp: nat, lpBefore: nat, dec: seq<nat>, fees: seq<nat>, ampl: nat, n: nat,
                      r: Redeemed)
    requires n >= 2 && ampl >= 1 && RedeemUniform(reserves, lp, lpBefore, dec, fees, ampl, n) == Done(r)
    ensures PricedAt(r.d2, r.reserves, fees, dec, ampl)
  {
    LeftAfterPayout(reserves, fees, r.received);
    PricedExactly(r.d2, r.reserves, fees, dec, ampl);
  }

  lemma DoneIsRedemption(reserves: seq<nat>, lp: nat, lpBefore: nat, dec: seq<nat>, fees: seq<nat>, ampl: nat, n: nat,
                         supply: nat, r: Redeemed)
    requires n >= 2 && ampl >= 1 && lpBefore + supply == LpEmission()
    requires RedeemUniform(reserves, lp, lpBefore, dec, fees, ampl, n) == Done(r)
    ensures |reserves| == n && IsRedemption(reserves, lp, lpBefore, dec, fees, ampl, r)
  {
    RedeemedPays(reserves, lp, lpBefore, dec, fees, ampl, n, supply, r);
    PaidInNumbers(reserves, lp, dec, fees, n, supply, r);
    RedeemedPrice(reserves, lp, lpBefore, dec, fees, ampl, n, r);
  }

  /** A redemption is done, with a given result, exactly if that result is the redemption in numbers. */
  lemma RedeemExactly(reserves: seq<nat>, lp: nat, lpBefore: nat, dec: seq<nat>, fees: seq<nat>, ampl: nat, n: nat,
                      r: Redeemed)
    requires n >= 2 && ampl >= 1
    ensures RedeemUniform(reserves, lp, lpBefore, dec, fees, ampl, n) == Done(r) <==>
      |reserves| == n && IsRedemption(reserves, lp, lpBefore, dec, fees, ampl, r)
  {
    if RedeemUniform(reserves, lp, lpBefore, dec, fees, ampl, n) == Done(r) {
      DoneIsRedemption(reserves, lp, lpBefore, dec, fees, ampl, n, LpEmission() - lpBefore, r);
    }
    if |reserves| == n && IsRedemption(reserves, lp, lpBefore, dec, fees, ampl, r) {
      RedemptionAmounts(reserves, lp, lpBefore, dec, fees, ampl, r);
      LeftAfterPayout(reserves, fees, r.received);
      PricedExactly(r.d2, r.reserves, fees, dec, ampl);
      ComputedPassesCheck(ToCommon(Minus(r.reserves, fees), Precision(dec), dec), ampl);
    }
  }

  lemma RedeemShares(reserves: seq<nat>, lp: nat, lpBefore: nat, dec: seq<nat>, fees: seq<nat>, ampl: nat, n: nat,
                   supply: nat, r: Redeemed)
    requires n >= 2 && ampl >= 1 && lpBefore + supply == LpEmission()
    requires RedeemUniform(reserves, lp, lpBefore, dec, fees, ampl, n) == Done(r)
    ensures |reserves| == |fees| == |r.reserves| == |r.received| == n
    ensures r.lpAmount == lpBefore + lp && lp < supply
    ensures forall k :: 0 <= k < n ==> fees[k] <= r.reserves[k] <= reserves[k]
    ensures forall k :: 0 <= k < n ==> r.received[k] + r.reserves[k] == reserves[k]
    ensures forall k :: 0 <= k < n ==> IsFloor(r.received[k], (reserves[k] - fees[k]) * lp, supply)
    ensures forall k :: 0 <= k < n ==> ShareHolds(reserves[k] - fees[k], supply, r.reserves[k] - fees[k], supply - lp)
  {
    RedeemedPays(reserves, lp, lpBefore, dec, fees, ampl, n, supply, r);
    PaidAsset(reserves, lp, dec, fees, n, supply, r, 0);
    forall k | 0 <= k < n
      ensures fees[k] <= r.reserves[k] <= reserves[k] && r.received[k] + r.reserves[k] == reserves[k]
      ensures IsFloor(r.received[k], (reserves[k] - fees[k]) * lp, supply)
      ensures ShareHolds(reserves[k] - fees[k], supply, r.reserves[k] - fees[k], supply - lp)
    {
      PaidAsset(reserves, lp, dec, fees, n, supply, r, k);
    }
  }

  /** One redemption splits every balance into payout and remainder, keeps the balance per LP share from falling, and
      reports the invariant of what is left. */
  lemma RedeemOnce(reserves: seq<nat>, lp: nat, lpBefore: nat, dec: seq<nat>, fees: seq<nat>, ampl: nat, n: nat,
                   supply: nat, r: Redeemed)
    requires n >= 2 && ampl >= 1 && lpBefore + supply == LpEmission()
    requires RedeemUniform(reserves, lp, lpBefore, dec, fees, ampl, n) == Done(r)
    ensures |reserves| == |fees| == |r.reserves| == |r.received| == n
    ensures r.lpAmount == lpBefore + lp && lp < supply
    ensures forall k :: 0 <= k < n ==> fees[k] <= r.reserves[k] <= reserves[k]
    ensures forall k :: 0 <= k < n ==> r.received[k] + r.reserves[k] == reserves[k]
    ensures forall k :: 0 <= k < n ==> IsFloor(r.received[k], (reserves[k] - fees[k]) * lp, supply)
    ensures forall k :: 0 <= k < n ==> ShareHolds(reserves[k] - fees[k], supply, r.reserves[k] - fees[k], supply - lp)
    ensures PricedAt(r.d2, r.reserves, fees, dec, ampl)
  {
    RedeemShares(reserves, lp, lpBefore, dec, fees, ampl, n, supply, r);
    RedeemedPrice(reserves, lp, lpBefore, dec, fees, ampl, n, r);
  }

  /** One redemption in numbers takes the pool from `at` to `next`. */
  ghost predicate RedeemsTo(at: Position, lp: nat, dec: seq<nat>, fees: seq<nat>, ampl: nat, n: nat, next: Position)
    requires ampl >= 1 && |at.paid| == n && at.supply <= EMITTED
  {
    && |at.reserves| == n
    && exists r :: IsRedemption(at.reserves, lp, EMITTED - at.supply, dec, fees, ampl, r) && IsNext(at, lp, n, r, next)
  }

  ghost predicate IsNext(at: Position, lp: nat, n: nat, r: Redeemed, next: Position)
    requires |at.paid| == n
  {
    && |r.received| == n && lp <= at.supply
    && next == Position(r.reserves, at.supply - lp, Plus(at.paid, r.received))
  }

  /** `o` is done exactly with the redemption in numbers. */
  ghost predicate IsOutcome(o: Outcome<Redeemed>, at: Position, lp: nat, dec: seq<nat>, fees: seq<nat>, ampl: nat,
                            n: nat)
    requires ampl >= 1 && at.supply <= EMITTED
  {
    forall r :: o == Done(r) <==>
      |at.reserves| == n && IsRedemption(at.reserves, lp, EMITTED - at.supply, dec, fees, ampl, r)
  }

  lemma OutcomeOf(at: Position, lp: nat, dec: seq<nat>, fees: seq<nat>, ampl: nat, n: nat)
    requires n >= 2 && ampl >= 1 && at.supply <= EMITTED
    ensures IsOutcome(RedeemUniform(at.reserves, lp, LpEmission() - at.supply, dec, fees, ampl, n), at, lp, dec, fees,
                      ampl, n)
  {
    var o := RedeemUniform(at.reserves, lp, LpEmission() - at.supply, dec, fees, ampl, n);
    forall r
      ensures o == Done(r) <==>
        |at.reserves| == n && IsRedemption(at.reserves, lp, EMITTED - at.supply, dec, fees, ampl, r)
    {
      RedeemExactly(at.reserves, lp, EMITTED - at.supply, dec, fees, ampl, n, r);
    }
  }

  lemma RedeemsExactly(o: Outcome<Redeemed>, at: Position, lp: nat, dec: seq<nat>, fees: seq<nat>, ampl: nat, n: nat,
                       next: Position)
    requires n >= 2 && ampl >= 1 && |at.paid| == n && at.supply <= EMITTED
    requires IsOutcome(o, at, lp, dec, fees, ampl, n)
    ensures RedeemsTo(at, lp, dec, fees, ampl, n, next) <==> o.Done? && IsNext(at, lp, n, o.value, next)
  {
    if o.Done? { assert o == Done(o.value); }
    if RedeemsTo(at, lp, dec, fees, ampl, n, next) {
      var r :| IsRedemption(at.reserves, lp, EMITTED - at.supply, dec, fees, ampl, r) && IsNext(at, lp, n, r, next);
      assert o == Done(r);
    }
  }

  /** A run of redemptions in numbers: each one starts from what the one before left. */
  ghost predicate AreRedemptions(at: Position, amounts: seq<nat>, dec: seq<nat>, fees: seq<nat>, ampl: nat, n: nat,
                                 end: Position)
    requires ampl >= 1 && |at.paid| == n && at.supply <= EMITTED
    decreases |amounts|
  {
    if amounts == [] then end == at else
    exists next :: && RedeemsTo(at, amounts[0], dec, fees, ampl, n, next)
                   && AreRedemptions(next, amounts[1..], dec, fees, ampl, n, end)
  }

  lemma NextPosition(at: Position, lp: nat, dec: seq<nat>, fees: seq<nat>, ampl: nat, n: nat)
    requires n >= 2 && ampl >= 1 && |at.paid| == n && at.supply <= LpEmission()
    ensures var o := RedeemUniform(at.reserves, lp, LpEmission() - at.supply, dec, fees, ampl, n);
      o.Done? ==> |o.value.received| == n && o.value.lpAmount == LpEmission() - at.supply + lp
  {
  }

  lemma RedeemAllNext(o: Outcome<Redeemed>, at: Position, amounts: seq<nat>, dec: seq<nat>, fees: seq<nat>, ampl: nat,
                      n: nat, end: Position)
    requires n >= 2 && ampl >= 1 && |at.paid| == n && at.supply <= LpEmission() && amounts != []
    requires o == RedeemUniform(at.reserves, amounts[0], LpEmission() - at.supply, dec, fees, ampl, n)
    ensures RedeemAll(at, amounts, dec, fees, ampl, n) == Done(end) <==>
      && o.Done? && |o.value.received| == n && amounts[0] <= at.supply
      && var next := Position(o.value.reserves, at.supply - amounts[0], Plus(at.paid, o.value.received));
         RedeemAll(next, amounts[1..], dec, fees, ampl, n) == Done(end)
  {
    NextPosition(at, amounts[0], dec, fees, ampl, n);
  }

  /** A run of redemptions ends at a given position exactly if it does so in numbers. */
  lemma {:induction false} RedeemAllExactly(at: Position, amounts: seq<nat>, dec: seq<nat>, fees: seq<nat>, ampl: nat,
                                            n: nat, end: Position)
    requires n >= 2 && ampl >= 1 && |at.paid| == n && at.supply <= EMITTED
    ensures RedeemAll(at, amounts, dec, fees, ampl, n) == Done(end) <==>
      AreRedemptions(at, amounts, dec, fees, ampl, n, end)
    decreases |amounts|
  {
    if amounts != [] {
      forall next: Position | |next.paid| == n && next.supply <= EMITTED
        ensures RedeemAll(next, amounts[1..], dec, fees, ampl, n) == Done(end) <==>
          AreRedemptions(next, amounts[1..], dec, fees, ampl, n, end)
      {
        RedeemAllExactly(next, amounts[1..], dec, fees, ampl, n, end);
      }
      RedeemAllStepExactly(at, amounts, dec, fees, ampl, n, end);
    }
  }

  lemma RedeemAllStepExactly(at: Position, amounts: seq<nat>, dec: seq<nat>, fees: seq<nat>, ampl: nat, n: nat,
                             end: Position)
    requires n >= 2 && ampl >= 1 && |at.paid| == n && at.supply <= EMITTED && amounts != []
    requires forall next: Position :: |next.paid| == n && next.supply <= EMITTED ==>
      (RedeemAll(next, amounts[1..], dec, fees, ampl, n) == Done(end) <==>
       AreRedemptions(next, amounts[1..], dec, fees, ampl, n, end))
    ensures RedeemAll(at, amounts, dec, fees, ampl, n) == Done(end) <==>
      AreRedemptions(at, amounts, dec, fees, ampl, n, end)
  {
    var o := RedeemUniform(at.reserves, amounts[0], LpEmission() - at.supply, dec, fees, ampl, n);
    OutcomeOf(at, amounts[0], dec, fees, ampl, n);
    RedeemAllNext(o, at, amounts, dec, fees, ampl, n, end);
    if AreRedemptions(at, amounts, dec, fees, ampl, n, end) {
      var next :| RedeemsTo(at, amounts[0], dec, fees, ampl, n, next)
               && AreRedemptions(next, amounts[1..], dec, fees, ampl, n, end);
      RedeemsExactly(o, at, amounts[0], dec, fees, ampl, n, next);
    }
    if RedeemAll(at, amounts, dec, fees, ampl, n) == Done(end) {
      var next := Position(o.value.reserves, at.supply - amounts[0], Plus(at.paid, o.value.received));
      RedeemsExactly(o, at, amounts[0], dec, fees, ampl, n, next);
    }
  }

  /** A run of redemptions that got from `at` to `end`. */
  ghost predicate RedeemRun(at: Position, amounts: seq<nat>, dec: seq<nat>, fees: seq<nat>, ampl: nat, n: nat,
                            end: Position)
  {
    && n >= 2 && ampl >= 1 && |at.paid| == n && |fees| == n
    && Covers(at.reserves, fees) && 1 <= at.supply <= LpEmission()
    && RedeemAll(at, amounts, dec, fees, ampl, n) == Done(end)
  }

  /** The first redemption of a run and the rest of it. */
  lemma RedeemAllStep(at: Position, amounts: seq<nat>, dec: seq<nat>, fees: seq<nat>, ampl: nat, n: nat, end: Position)
      returns (r: Redeemed, next: Position)
    requires RedeemRun(at, amounts, dec, fees, ampl, n, end) && amounts != []
    ensures |r.received| == n
    ensures next == Position(r.reserves, at.supply - amounts[0], Plus(at.paid, r.received))
    ensures RedeemRun(next, amounts[1..], dec, fees, ampl, n, end)
    ensures |at.reserves| == |r.reserves| == n && amounts[0] < at.supply
    ensures forall k :: 0 <= k < n ==> fees[k] <= r.reserves[k] <= at.reserves[k]
    ensures forall k :: 0 <= k < n ==> r.received[k] + r.reserves[k] == at.reserves[k]
    ensures SharesHold(at, next, fees, n)
  {
    r := FirstRedeemed(at, amounts, dec, fees, ampl, n, end);
    RedeemShares(at.reserves, amounts[0], LpEmission() - at.supply, dec, fees, ampl, n, at.supply, r);
    next := Position(r.reserves, at.supply - amounts[0], Plus(at.paid, r.received));
  }

  lemma FirstRedeemed(at: Position, amounts: seq<nat>, dec: seq<nat>, fees: seq<nat>, ampl: nat, n: nat, end: Position)
      returns (r: Redeemed)
    requires RedeemRun(at, amounts, dec, fees, ampl, n, end) && amounts != []
    ensures RedeemUniform(at.reserves, amounts[0], LpEmission() - at.supply, dec, fees, ampl, n) == Done(r)
    ensures |r.received| == n && r.lpAmount <= LpEmission()
    ensures var next := Position(r.reserves, LpEmission() - r.lpAmount, Plus(at.paid, r.received));
      RedeemAll(next, amounts[1..], dec, fees, ampl, n) == Done(end)
  {
    r := RedeemUniform(at.reserves, amounts[0], LpEmission() - at.supply, dec, fees, ampl, n).value;
  }

  /** No asset's balance per LP share falls from one position to another. */
  ghost predicate SharesHold(p: Position, p': Position, fees: seq<nat>, n: nat) {
    && |p.reserves| == |p'.reserves| == |fees| == n && Covers(p.reserves, fees) && Covers(p'.reserves, fees)
    && forall k :: 0 <= k < n ==> ShareHolds(p.reserves[k] - fees[k], p.supply, p'.reserves[k] - fees[k], p'.supply)
  }

  lemma SharesAcross(p: Position, mid: Position, p': Position, fees: seq<nat>, n: nat)
    requires SharesHold(p, mid, fees, n) && SharesHold(mid, p', fees, n) && mid.supply >= 1
    ensures SharesHold(p, p', fees, n)
  {
    forall k | 0 <= k < n ensures ShareHolds(p.reserves[k] - fees[k], p.supply, p'.reserves[k] - fees[k], p'.supply) {
      SharesChain(p.reserves[k] - fees[k], mid.reserves[k] - fees[k], p'.reserves[k] - fees[k],
                  p.supply, mid.supply, p'.supply);
    }
  }

  /** Over a whole run, reserves and payouts add up to the initial reserves and
      the balance per LP share does not fall. */
  lemma {:induction false} RedeemAllConserves(at: Position, amounts: seq<nat>, dec: seq<nat>, fees: seq<nat>,
                                              ampl: nat, n: nat, end: Position)
    requires RedeemRun(at, amounts, dec, fees, ampl, n, end)
    ensures |end.paid| == n && Covers(end.reserves, fees)
    ensures end.supply + Sum(amounts) == at.supply && end.supply >= 1
    ensures SharesHold(at, end, fees, n)
    ensures forall k :: 0 <= k < n ==> end.paid[k] + end.reserves[k] == at.paid[k] + at.reserves[k]
    decreases |amounts|
  {
    if amounts != [] {
      var r, next := RedeemAllStep(at, amounts, dec, fees, ampl, n, end);
      RedeemAllConserves(next, amounts[1..], dec, fees, ampl, n, end);
      SharesAcross(at, next, end, fees, n);
    }
  }

  /** No run pays out more of any asset than one redemption of the summed LP amount. */
  lemma RedeemAllBounded(at: Position, amounts: seq<nat>, dec: seq<nat>, fees: seq<nat>,
                         ampl: nat, n: nat, end: Position, k: nat)
    requires RedeemRun(at, amounts, dec, fees, ampl, n, end) && k < n
    ensures |end.paid| == n
    ensures end.paid[k] - at.paid[k] <= Payout(at.reserves[k] - fees[k], Sum(amounts), at.supply)
  {
    RedeemAllConserves(at, amounts, dec, fees, ampl, n, end);
    PaidWithinShare(at.reserves[k] - fees[k], end.reserves[k] - fees[k], at.supply, Sum(amounts));
  }

  lemma SharesChain(b0: nat, b1: nat, b2: nat, s0: nat, s1: nat, s2: nat)
    requires s1 >= 1
    requires ShareHolds(b0, s0, b1, s1) && ShareHolds(b1, s1, b2, s2)
    ensures ShareHolds(b0, s0, b2, s2)
  {
    MulMono(b0 * s1, b1 * s0, s2);
    MulMono(b1 * s2, b2 * s1, s0);
    Assoc(b0, s1, s2); Assoc(b1, s0, s2); Assoc(b1, s2, s0); Assoc(b2, s1, s0);
    MulCancel(b0 * s2, b2 * s0, s1);
  }

  lemma PaidWithinShare(b0: nat, b1: nat, supply: nat, lp: nat)
    requires lp < supply && ShareHolds(b0, supply, b1, supply - lp)
    ensures b0 - b1 <= Payout(b0, lp, supply)
  {
    if b1 < b0 {
      Distribute(supply - lp, lp, b0);
      Distribute(b0 - b1, b1, supply);
      FloorAtLeast(b0 * lp, supply, b0 - b1);
    }
  }

  // ---- Deposit and redemption in arbitrary proportions --------------------

  /** Parameters of a pool that an action does not change. */
  datatype Params = Params(n: nat, dec: seq<nat>, ampl: nat, swapFee: nat, share: nat)

  ghost predicate Sound(q: Params) {
    q.n >= 2 && q.ampl >= 1
  }

  datatype Liquidity = Liquidity(fees: seq<nat>, lpAmount: nat, d1: nat, d2: nat, deltaLp: nat)

  function Distance(x: nat, y: nat): nat {
    if x > y then x - y else y - x
  }

  /** Distance of each balance from its ideal value for the new invariant. */
  function Differences(b0: seq<nat>, b1: seq<nat>, d0: nat, d1: nat): (r: seq<nat>)
    requires |b0| == |b1| && d0 >= 1
    ensures |r| == |b0|
  {
    seq(|b0|, k requires 0 <= k < |b0| => Distance(Quotient(d1 * b0[k], d0), b1[k]))
  }

  function FeeNum(q: Params): nat
    requires Sound(q)
  {
    Quotient(q.swapFee * q.n, 4 * (q.n - 1))
  }

  function ProtocolFees(difference: seq<nat>, q: Params): (r: seq<nat>)
    requires Sound(q)
    ensures |r| == |difference|
  {
    seq(|difference|, k requires 0 <= k < |difference| =>
      Quotient(FeeNum(q) * difference[k] * q.share, DENOM * DENOM))
  }

  predicate Exceeds(a: seq<nat>, b: seq<nat>) {
    |a| == |b| && forall k :: 0 <= k < |a| ==> a[k] > b[k]
  }

  /** LP tokens to release or take back when the invariant goes from `d0` to `d2`. */
  function LpTransition(fees: seq<nat>, lpBefore: nat, d0: nat, d1: nat, d2: nat): (o: Outcome<Liquidity>)
    requires d0 >= 1
    ensures o.Done? ==> o.value.fees == fees && o.value.d1 == d1 && o.value.d2 == d2
    ensures o.Done? || o == Abort(Underflow) || o == Abort(LpExhausted)
  {
    if lpBefore > LpEmission() then Abort(Underflow) else
    var supply := LpEmission() - lpBefore;
    var delta := Quotient(Distance(d2, d0) * supply, d0);
    if d2 > d0 then
      if lpBefore <= delta then Abort(LpExhausted) else Done(Liquidity(fees, lpBefore - delta, d1, d2, delta))
    else
      Done(Liquidity(fees, lpBefore + delta, d1, d2, delta))
  }

  function LiquidityFrom(b0: seq<nat>, b1: seq<nat>, lpBefore: nat, fees: seq<nat>, q: Params): (o: Outcome<Liquidity>)
    requires Sound(q) && |b0| == |b1| == |fees| == |q.dec| == q.n
    requires AllPositive(q.dec)
    ensures o != Abort(ExtremumCheck) && !o.Unfinished?
  {
    var precision := Precision(q.dec);
    var c0, c1 := ToCommon(b0, precision, q.dec), ToCommon(b1, precision, q.dec);
    if !AllPositive(c0) || !AllPositive(c1) then Abort(DivisionByZero) else
    var d0, d1 := Invariant(TotalsOf(c0, q.ampl)), Invariant(TotalsOf(c1, q.ampl));
    ComputedPassesCheck(c0, q.ampl);
    ComputedPassesCheck(c1, q.ampl);
    var protocol := ProtocolFees(Differences(b0, b1, d0, d1), q);
    if !Exceeds(b1, protocol) then Abort(FeeExceedsBalance) else
    var c2 := ToCommon(Minus(b1, protocol), precision, q.dec);
    if !AllPositive(c2) then Abort(DivisionByZero) else
    var d2 := Invariant(TotalsOf(c2, q.ampl));
    ComputedPassesCheck(c2, q.ampl);
    if !CheckInvariantExtremum(q.n, q.ampl * Pow(q.n, q.n), c1, d1) then Abort(ExtremumCheck) else
    if !CheckInvariantExtremum(q.n, q.ampl * Pow(q.n, q.n), c2, d2) then Abort(ExtremumCheck) else
    LpTransition(Plus(fees, protocol), lpBefore, d0, d1, d2)
  }

  function LiquidityResult(before: seq<nat>, after: seq<nat>, lpBefore: nat, fees: seq<nat>,
                           q: Params): (o: Outcome<Liquidity>)
    requires Sound(q)
    ensures o != Abort(ExtremumCheck) && !o.Unfinished?
  {
    if |before| != q.n || |after| != q.n || |q.dec| != q.n || |fees| != q.n then Abort(Shape) else
    if !Covers(before, fees) || !Covers(after, fees) then Abort(Underflow) else
    if !AllPositive(q.dec) then Abort(DivisionByZero) else
    LiquidityFrom(Minus(before, fees), Minus(after, fees), lpBefore, fees, q)
  }

  method CollectDifferences(b0: seq<nat>, b1: seq<nat>, d0: nat, d1: nat) returns (difference: seq<nat>)
    requires |b0| == |b1| && d0 >= 1
    ensures difference == Differences(b0, b1, d0, d1)
  {
    difference := [];
    for k := 0 to |b0|
      invariant difference == Differences(b0, b1, d0, d1)[..k]
    {
      var ideal, actual := Quotient(d1 * b0[k], d0), b1[k];
      difference := difference + [if ideal > actual then ideal - actual else actual - ideal];
    }
  }

  method DeductFees(b1: seq<nat>, protocol: seq<nat>) returns (o: Outcome<seq<nat>>)
    requires |b1| == |protocol|
    ensures o == if Exceeds(b1, protocol) then Done(Minus(b1, protocol)) else Abort(FeeExceedsBalance)
  {
    var tradable := [];
    for k := 0 to |b1|
      invariant |tradable| == k
      invariant forall m :: 0 <= m < k ==> b1[m] > protocol[m] && tradable[m] == b1[m] - protocol[m]
    {
      if b1[k] <= protocol[k] { return Abort(FeeExceedsBalance); }
      tradable := tradable + [b1[k] - protocol[k]];
    }
    assert tradable == Minus(b1, protocol);
    o := Done(tradable);
  }

  /** `calculate_invariant`, called with the parameters of the pool. */
  method InvariantFor(c: seq<nat>, q: Params) returns (d: nat)
    requires Sound(q) && |c| == q.n && AllPositive(c)
    ensures d == Invariant(TotalsOf(c, q.ampl))
  {
    d := CalculateInvariant(c, q.n, q.ampl);
  }

  method InvariantAndCheck(c: seq<nat>, q: Params) returns (d: nat, isExtremum: bool)
    requires Sound(q) && |c| == q.n && AllPositive(c)
    ensures d >= 1 && d == Invariant(TotalsOf(c, q.ampl))
    ensures Pow(q.n, q.n) * Prod(c) > 0
    ensures isExtremum == CheckInvariantExtremum(q.n, q.ampl * Pow(q.n, q.n), c, d)
  {
    d := CalculateInvariant(c, q.n, q.ampl);
    isExtremum := CheckInvariantExtremum(q.n, q.ampl * Pow(q.n, q.n), c, d);
  }

  method LiquidityActionFrom(b0: seq<nat>, b1: seq<nat>, lpBefore: nat, fees: seq<nat>, q: Params)
      returns (o: Outcome<Liquidity>)
    requires Sound(q) && |b0| == |b1| == |fees| == |q.dec| == q.n
    requires AllPositive(q.dec)
    ensures o == LiquidityFrom(b0, b1, lpBefore, fees, q)
  {
    var precision := Precision(q.dec);
    var c0, c1 := ToCommon(b0, precision, q.dec), ToCommon(b1, precision, q.dec);
    if !AllPositive(c0) || !AllPositive(c1) { return Abort(DivisionByZero); }
    var d0 := InvariantFor(c0, q);
    InvariantIsMinimiser(TotalsOf(c0, q.ampl));
    var d1, check1 := InvariantAndCheck(c1, q);
    var difference := CollectDifferences(b0, b1, d0, d1);
    var protocol := ProtocolFees(difference, q);
    var tradable := DeductFees(b1, protocol);
    if !tradable.Done? { return Abort(FeeExceedsBalance); }
    var c2 := ToCommon(tradable.value, precision, q.dec);
    if !AllPositive(c2) { return Abort(DivisionByZero); }
    var d2, check2 := InvariantAndCheck(c2, q);
    if !check1 || !check2 { return Abort(ExtremumCheck); }
    o := LpTransition(Plus(fees, protocol), lpBefore, d0, d1, d2);
  }

  /** The tradable balance carried over from invariant `d0` to `d1`. */
  ghost predicate IsIdeal(ideal: nat, before: nat, fee: nat, d0: nat, d1: nat) {
    IsFloor(ideal, d1 * (before - fee), d0)
  }

  ghost predicate IsFeeRate(num: nat, q: Params) {
    IsFloor(num, q.swapFee * q.n, 4 * (q.n - 1))
  }

  /** One asset's collected fee grows from `fee` to `fee'`: by `num` ten-thousandths of the distance between
      its tradable balance and its ideal balance, and of that the protocol's share, in ten-thousandths too. */
  ghost predicate PaysImbalance(before: nat, after: nat, fee: nat, fee': nat, d0: nat, d1: nat, q: Params) {
    var b1: int := after - fee;
    exists ideal: nat, num: nat ::
      && IsIdeal(ideal, before, fee, d0, d1) && IsFeeRate(num, q)
      && IsFloor(fee' - fee, num * (if ideal > b1 then ideal - b1 else b1 - ideal) * q.share, 100_000_000)
  }

  lemma ImbalanceExactly(before: nat, after: nat, fee: nat, fee': nat, d0: nat, d1: nat, q: Params)
    requires Sound(q) && d0 >= 1 && fee <= before && fee <= after && fee <= fee'
    ensures PaysImbalance(before, after, fee, fee', d0, d1, q) <==>
      fee' - fee == Quotient(FeeNum(q) * Distance(Quotient(d1 * (before - fee), d0), after - fee) * q.share,
                             DENOM * DENOM)
  {
    var ideal, num := Quotient(d1 * (before - fee), d0), FeeNum(q);
    forall x: nat ensures IsIdeal(x, before, fee, d0, d1) <==> x == ideal { FloorExactly(x, d1 * (before - fee), d0); }
    forall x: nat ensures IsFeeRate(x, q) <==> x == num { FloorExactly(x, q.swapFee * q.n, 4 * (q.n - 1)); }
    FloorExactly(fee' - fee, num * Distance(ideal, after - fee) * q.share, DENOM * DENOM);
    assert IsIdeal(ideal, before, fee, d0, d1) && IsFeeRate(num, q);
  }

  /** Every asset pays its imbalance fee. */
  ghost predicate ChargesImbalance(before: seq<nat>, after: seq<nat>, fees: seq<nat>, fees': seq<nat>, d0: nat, d1: nat,
                                   q: Params)
  {
    && |before| == |after| == |fees| == |fees'|
    && forall k :: 0 <= k < |fees| ==> PaysImbalance(before[k], after[k], fees[k], fees'[k], d0, d1, q)
  }

  /** The LP tokens that go with an invariant moving from `d0` to `r.d2`: its relative change of the LP tokens in
      circulation, rounded down. A release never empties the pool's LP reserve. */
  ghost predicate MovesLp(lpBefore: nat, d0: nat, r: Liquidity) {
    && lpBefore <= EMITTED
    && if r.d2 > d0
       then 1 <= r.lpAmount == lpBefore - r.deltaLp && IsFloor(r.deltaLp, (r.d2 - d0) * (EMITTED - lpBefore), d0)
       else r.lpAmount == lpBefore + r.deltaLp && IsFloor(r.deltaLp, (d0 - r.d2) * (EMITTED - lpBefore), d0)
  }

  lemma MovesLpExactly(fees: seq<nat>, lpBefore: nat, d0: nat, d1: nat, d2: nat, r: Liquidity)
    requires d0 >= 1
    ensures LpTransition(fees, lpBefore, d0, d1, d2) == Done(r) <==>
      r.fees == fees && r.d1 == d1 && r.d2 == d2 && MovesLp(lpBefore, d0, r)
  {
    if lpBefore <= LpEmission() {
      FloorExactly(r.deltaLp, Distance(r.d2, d0) * (LpEmission() - lpBefore), d0);
    }
  }

  /** A deposit or redemption in numbers, from the invariant `d0` of the pool before it. */
  ghost predicate IsLiquidity(before: seq<nat>, after: seq<nat>, lpBefore: nat, fees: seq<nat>, q: Params, d0: nat,
                              r: Liquidity)
    requires Sound(q)
  {
    && PricedAt(d0, before, fees, q.dec, q.ampl)
    && PricedAt(r.d1, after, fees, q.dec, q.ampl) && PricedAt(r.d2, after, r.fees, q.dec, q.ampl)
    && ChargesImbalance(before, after, fees, r.fees, d0, r.d1, q)
    && MovesLp(lpBefore, d0, r)
  }

  /** The parts of a finished action: protocol fees below every balance, and the two invariants. */
  lemma LiquidityParts(b0: seq<nat>, b1: seq<nat>, lpBefore: nat, fees: seq<nat>, q: Params, r: Liquidity)
      returns (d0: nat, protocol: seq<nat>)
    requires Sound(q) && |b0| == |b1| == |fees| == |q.dec| == q.n && AllPositive(q.dec)
    requires LiquidityFrom(b0, b1, lpBefore, fees, q) == Done(r)
    ensures Exceeds(b1, protocol) && r.fees == Plus(fees, protocol)
    ensures var c0 := ToCommon(b0, Precision(q.dec), q.dec);
      Tradable(c0) && 1 <= d0 == Invariant(TotalsOf(c0, q.ampl))
    ensures protocol == ProtocolFees(Differences(b0, b1, d0, r.d1), q)
    ensures LpTransition(r.fees, lpBefore, d0, r.d1, r.d2) == Done(r)
    ensures var c1, c2 := ToCommon(b1, Precision(q.dec), q.dec), ToCommon(Minus(b1, protocol), Precision(q.dec), q.dec);
      && Tradable(c1) && r.d1 == Invariant(TotalsOf(c1, q.ampl))
      && Tradable(c2) && r.d2 == Invariant(TotalsOf(c2, q.ampl))
  {
    var c0, c1 := ToCommon(b0, Precision(q.dec), q.dec), ToCommon(b1, Precision(q.dec), q.dec);
    d0 := Invariant(TotalsOf(c0, q.ampl));
    InvariantIsMinimiser(TotalsOf(c0, q.ampl));
    protocol := ProtocolFees(Differences(b0, b1, d0, Invariant(TotalsOf(c1, q.ampl))), q);
  }

  lemma ChargesExactly(before: seq<nat>, after: seq<nat>, fees: seq<nat>, protocol: seq<nat>, d0: nat, d1: nat,
                       q: Params)
    requires Sound(q) && d0 >= 1 && Covers(before, fees) && Covers(after, fees) && |protocol| == |fees| == |before|
    requires |after| == |before|
    ensures ChargesImbalance(before, after, fees, Plus(fees, protocol), d0, d1, q) <==>
      protocol == ProtocolFees(Differences(Minus(before, fees), Minus(after, fees), d0, d1), q)
  {
    var fees' := Plus(fees, protocol);
    var charged := ProtocolFees(Differences(Minus(before, fees), Minus(after, fees), d0, d1), q);
    forall k | 0 <= k < |fees|
      ensures PaysImbalance(before[k], after[k], fees[k], fees'[k], d0, d1, q) <==> protocol[k] == charged[k]
    {
      ImbalanceExactly(before[k], after[k], fees[k], fees'[k], d0, d1, q);
    }
    if ChargesImbalance(before, after, fees, fees', d0, d1, q) {
      forall k | 0 <= k < |fees| ensures protocol[k] == charged[k] {
        assert PaysImbalance(before[k], after[k], fees[k], fees'[k], d0, d1, q);
      }
    }
  }

  lemma FeesAddUp(after: seq<nat>, fees: seq<nat>, protocol: seq<nat>)
    requires Covers(after, fees) && Exceeds(Minus(after, fees), protocol)
    ensures forall k :: 0 <= k < |after| ==> fees[k] <= Plus(fees, protocol)[k] < after[k]
    ensures Covers(after, Plus(fees, protocol)) && Covers(Minus(after, fees), protocol)
    ensures Minus(Minus(after, fees), protocol) == Minus(after, Plus(fees, protocol))
  {
    forall k | 0 <= k < |after| ensures fees[k] <= Plus(fees, protocol)[k] < after[k] {
      assert Minus(after, fees)[k] > protocol[k];
    }
    assert Covers(after, Plus(fees, protocol));
  }

  lemma FeeOnlyGrows(before: nat, after: nat, fee: nat, fee': nat, d0: nat, d1: nat, q: Params)
    requires PaysImbalance(before, after, fee, fee', d0, d1, q)
    ensures fee <= fee'
  {
    var b1: int := after - fee;
    var ideal: nat, num: nat :|
      && IsIdeal(ideal, before, fee, d0, d1) && IsFeeRate(num, q)
      && IsFloor(fee' - fee, num * (if ideal > b1 then ideal - b1 else b1 - ideal) * q.share, 100_000_000);
    var x: nat := num * (if ideal > b1 then ideal - b1 else b1 - ideal);
    MulMono(0, x, q.share);
  }

  lemma FeesOnlyGrow(before: seq<nat>, after: seq<nat>, fees: seq<nat>, fees': seq<nat>, d0: nat, d1: nat, q: Params)
    requires ChargesImbalance(before, after, fees, fees', d0, d1, q)
    ensures Covers(fees', fees)
  {
    forall k | 0 <= k < |fees| ensures fees[k] <= fees'[k] {
      FeeOnlyGrows(before[k], after[k], fees[k], fees'[k], d0, d1, q);
    }
  }

  lemma FeeDifference(after: seq<nat>, fees: seq<nat>, fees': seq<nat>)
    requires Covers(fees', fees) && Covers(after, fees')
    ensures Covers(after, fees) && fees' == Plus(fees, Minus(fees', fees))
    ensures Covers(Minus(after, fees), Minus(fees', fees))
    ensures Minus(Minus(after, fees), Minus(fees', fees)) == Minus(after, fees')
  {
    forall k | 0 <= k < |after| ensures fees[k] <= fees'[k] <= after[k] {}
  }

  lemma TradableExceeds(b1: seq<nat>, protocol: seq<nat>, precision: nat, dec: seq<nat>)
    requires Covers(b1, protocol) && |b1| == |dec| && AllPositive(dec)
    requires AllPositive(ToCommon(Minus(b1, protocol), precision, dec))
    ensures Exceeds(b1, protocol)
  {
    forall k | 0 <= k < |b1| ensures b1[k] > protocol[k] {
      assert ToCommon(Minus(b1, protocol), precision, dec)[k] >= 1;
      RescalePositive(Minus(b1, protocol)[k], precision, dec[k]);
    }
  }

  lemma DoneIsLiquidity(before: seq<nat>, after: seq<nat>, lpBefore: nat, fees: seq<nat>, q: Params, r: Liquidity)
    requires Sound(q) && LiquidityResult(before, after, lpBefore, fees, q) == Done(r)
    ensures |before| == q.n && exists d0 :: IsLiquidity(before, after, lpBefore, fees, q, d0, r)
  {
    var b0, b1 := Minus(before, fees), Minus(after, fees);
    var d0, protocol := LiquidityParts(b0, b1, lpBefore, fees, q, r);
    FeesAddUp(after, fees, protocol);
    PricedExactly(d0, before, fees, q.dec, q.ampl);
    PricedExactly(r.d1, after, fees, q.dec, q.ampl);
    PricedExactly(r.d2, after, r.fees, q.dec, q.ampl);
    ChargesExactly(before, after, fees, protocol, d0, r.d1, q);
    MovesLpExactly(r.fees, lpBefore, d0, r.d1, r.d2, r);
    assert IsLiquidity(before, after, lpBefore, fees, q, d0, r);
  }

  lemma LiquidityIsDone(before: seq<nat>, after: seq<nat>, lpBefore: nat, fees: seq<nat>, q: Params, d0: nat,
                        r: Liquidity)
    requires Sound(q) && |before| == q.n && IsLiquidity(before, after, lpBefore, fees, q, d0, r)
    ensures LiquidityResult(before, after, lpBefore, fees, q) == Done(r)
  {
    PricedExactly(d0, before, fees, q.dec, q.ampl);
    PricedExactly(r.d1, after, fees, q.dec, q.ampl);
    PricedExactly(r.d2, after, r.fees, q.dec, q.ampl);
    FeesOnlyGrow(before, after, fees, r.fees, d0, r.d1, q);
    FeeDifference(after, fees, r.fees);
    InvariantIsMinimiser(TotalsOf(ToCommon(Minus(before, fees), Precision(q.dec), q.dec), q.ampl));
    var protocol := Minus(r.fees, fees);
    ChargesExactly(before, after, fees, protocol, d0, r.d1, q);
    MovesLpExactly(r.fees, lpBefore, d0, r.d1, r.d2, r);
    LiquidityFromParts(Minus(before, fees), Minus(after, fees), protocol, lpBefore, fees, q, d0, r);
  }

  lemma LiquidityFromParts(b0: seq<nat>, b1: seq<nat>, protocol: seq<nat>, lpBefore: nat, fees: seq<nat>, q: Params,
                           d0: nat, r: Liquidity)
    requires Sound(q) && |b0| == |b1| == |fees| == |q.dec| == q.n && AllPositive(q.dec) && Covers(b1, protocol)
    requires var p := Precision(q.dec);
      var c0, c1, c2 := ToCommon(b0, p, q.dec), ToCommon(b1, p, q.dec), ToCommon(Minus(b1, protocol), p, q.dec);
      && Tradable(c0) && Tradable(c1) && Tradable(c2) && d0 == Invariant(TotalsOf(c0, q.ampl))
      && r.d1 == Invariant(TotalsOf(c1, q.ampl)) && r.d2 == Invariant(TotalsOf(c2, q.ampl))
    requires d0 >= 1 && protocol == ProtocolFees(Differences(b0, b1, d0, r.d1), q)
    requires LpTransition(Plus(fees, protocol), lpBefore, d0, r.d1, r.d2) == Done(r)
    ensures LiquidityFrom(b0, b1, lpBefore, fees, q) == Done(r)
  {
    TradableExceeds(b1, protocol, Precision(q.dec), q.dec);
    ComputedPassesCheck(ToCommon(b1, Precision(q.dec), q.dec), q.ampl);
    ComputedPassesCheck(ToCommon(Minus(b1, protocol), Precision(q.dec), q.dec), q.ampl);
  }

  ghost predicate LiquidityInNumbers(before: seq<nat>, after: seq<nat>, lpBefore: nat, fees: seq<nat>, q: Params,
                                     r: Liquidity)
    requires Sound(q)
  {
    |before| == q.n && exists d0 :: IsLiquidity(before, after, lpBefore, fees, q, d0, r)
  }

  /** An action is done, with a given result, exactly if that result is the deposit or redemption in numbers. */
  lemma LiquidityExactly(before: seq<nat>, after: seq<nat>, lpBefore: nat, fees: seq<nat>, q: Params, r: Liquidity)
    requires Sound(q)
    ensures LiquidityResult(before, after, lpBefore, fees, q) == Done(r) <==>
      LiquidityInNumbers(before, after, lpBefore, fees, q, r)
  {
    if LiquidityResult(before, after, lpBefore, fees, q) == Done(r) {
      DoneIsLiquidity(before, after, lpBefore, fees, q, r);
    }
    if d0 :| |before| == q.n && IsLiquidity(before, after, lpBefore, fees, q, d0, r) {
      LiquidityIsDone(before, after, lpBefore, fees, q, d0, r);
    }
  }

  /** `liquidity_action`: computes `LiquidityResult` with the loops of the source. */
  method LiquidityAction(before: seq<nat>, after: seq<nat>, lpBefore: nat, fees: seq<nat>, q: Params)
      returns (o: Outcome<Liquidity>)
    requires Sound(q)
    ensures o == LiquidityResult(before, after, lpBefore, fees, q)
    ensures forall r :: o == Done(r) <==> LiquidityInNumbers(before, after, lpBefore, fees, q, r)
  {
    forall r
      ensures LiquidityResult(before, after, lpBefore, fees, q) == Done(r) <==>
        LiquidityInNumbers(before, after, lpBefore, fees, q, r)
    {
      LiquidityExactly(before, after, lpBefore, fees, q, r);
    }
    if |before| != q.n || |after| != q.n || |q.dec| != q.n || |fees| != q.n { return Abort(Shape); }
    if !Covers(before, fees) || !Covers(after, fees) { return Abort(Underflow); }
    if !AllPositive(q.dec) { return Abort(DivisionByZero); }
    o := LiquidityActionFrom(Minus(before, fees), Minus(after, fees), lpBefore, fees, q);
  }

  /** The collected fees leave a positive tradable balance in every reserve, the
      final invariant is the one of exactly those balances, and removing the
      protocol fee does not raise it. */
  lemma LiquidityFeesAddUp(before: seq<nat>, after: seq<nat>, lpBefore: nat, fees: seq<nat>, q: Params, r: Liquidity)
    requires Sound(q) && LiquidityResult(before, after, lpBefore, fees, q) == Done(r)
    ensures |after| == |fees| == |r.fees| == |q.dec| == q.n && AllPositive(q.dec)
    ensures forall k :: 0 <= k < q.n ==> fees[k] <= r.fees[k] < after[k]
    ensures var tradable := ToCommon(Minus(after, r.fees), Precision(q.dec), q.dec);
      Tradable(tradable) && r.d2 == Invariant(TotalsOf(tradable, q.ampl))
    ensures r.d2 <= r.d1
  {
    var b1 := Minus(after, fees);
    var d0, protocol := LiquidityParts(Minus(before, fees), b1, lpBefore, fees, q, r);
    FeesAddUp(after, fees, protocol);
    var left := Minus(b1, protocol);
    ToCommonMonotone(left, b1, Precision(q.dec), q.dec);
    InvariantMonotone(ToCommon(left, Precision(q.dec), q.dec), ToCommon(b1, Precision(q.dec), q.dec), q.ampl);
  }

  /** A deposit never lowers the invariant per LP share; a redemption takes back an LP
      amount less than one unit short of keeping it. */
  lemma LiquidityShares(before: seq<nat>, after: seq<nat>, lpBefore: nat, fees: seq<nat>, q: Params, r: Liquidity)
    requires Sound(q) && LiquidityResult(before, after, lpBefore, fees, q) == Done(r)
    ensures |q.dec| == |before| == q.n && AllPositive(q.dec) && Covers(before, fees)
    ensures Tradable(ToCommon(Minus(before, fees), Precision(q.dec), q.dec))
    ensures lpBefore <= LpEmission() && r.lpAmount <= LpEmission()
    ensures var d0 := Invariant(TotalsOf(ToCommon(Minus(before, fees), Precision(q.dec), q.dec), q.ampl));
      var supply, supply' := LpEmission() - lpBefore, LpEmission() - r.lpAmount;
      && (r.d2 > d0 ==> supply <= supply' && d0 * supply' <= r.d2 * supply < d0 * supply' + d0)
      && (r.d2 <= d0 ==> supply' <= supply && r.d2 * supply <= supply' * d0 < r.d2 * supply + d0)
  {
    var c0 := ToCommon(Minus(before, fees), Precision(q.dec), q.dec);
    InvariantIsMinimiser(TotalsOf(c0, q.ampl));
    LpShares(r.fees, lpBefore, Invariant(TotalsOf(c0, q.ampl)), r.d1, r.d2, r);
  }

  lemma LpShares(fees: seq<nat>, lpBefore: nat, d0: nat, d1: nat, d2: nat, r: Liquidity)
    requires d0 >= 1 && LpTransition(fees, lpBefore, d0, d1, d2) == Done(r)
    ensures lpBefore <= LpEmission() && r.lpAmount <= LpEmission()
    ensures var supply, supply' := LpEmission() - lpBefore, LpEmission() - r.lpAmount;
      && (d2 > d0 ==> supply <= supply' && d0 * supply' <= d2 * supply < d0 * supply' + d0)
      && (d2 <= d0 ==> supply' <= supply && d2 * supply <= supply' * d0 < d2 * supply + d0)
  {
    LpDelta(LpEmission() - lpBefore, d0, d2, r.deltaLp);
  }

  lemma LpDelta(supply: nat, d0: nat, d2: nat, delta: nat)
    requires d0 >= 1 && delta == Quotient(Distance(d2, d0) * supply, d0)
    ensures d2 > d0 ==> d0 * (supply + delta) <= d2 * supply < d0 * (supply + delta) + d0
    ensures d2 <= d0 ==> delta <= supply && d2 * supply <= (supply - delta) * d0 < d2 * supply + d0
  {
    FloorBounds(Distance(d2, d0) * supply, d0);
    if d2 > d0 {
      Distribute(d2 - d0, d0, supply);
      Distribute(supply, delta, d0);
    } else {
      Distribute(d0 - d2, d2, supply);
      MulMono(0, d2, supply);
      MulCancel(delta, supply, d0);
      Distribute(supply - delta, delta, d0);
    }
  }

  // ---- Runs of deposits ---------------------------------------------------

  datatype Pool = Pool(reserves: seq<nat>, lpAmount: nat, fees: seq<nat>)

  ghost predicate Priced(p: Pool, q: Params) {
    && |p.reserves| == |p.fees| == |q.dec| == q.n && q.dec != [] && AllPositive(q.dec) && Covers(p.reserves, p.fees)
    && Tradable(ToCommon(Minus(p.reserves, p.fees), Precision(q.dec), q.dec)) && p.lpAmount <= LpEmission()
  }

  ghost function InvariantOf(p: Pool, q: Params): nat
    requires Sound(q) && Priced(p, q)
  {
    Invariant(TotalsOf(ToCommon(Minus(p.reserves, p.fees), Precision(q.dec), q.dec), q.ampl))
  }

  ghost function Supply(p: Pool): nat
    requires p.lpAmount <= LpEmission()
  {
    LpEmission() - p.lpAmount
  }

  function PoolAfter(r: Liquidity, after: seq<nat>): Pool {
    Pool(after, r.lpAmount, r.fees)
  }

  /** What one action leaves is priced, at the invariant the action reported. */
  lemma ActionPrices(p: Pool, after: seq<nat>, q: Params, r: Liquidity)
    requires Sound(q) && LiquidityResult(p.reserves, after, p.lpAmount, p.fees, q) == Done(r)
    ensures Priced(p, q) && Priced(PoolAfter(r, after), q)
    ensures InvariantOf(PoolAfter(r, after), q) == r.d2
  {
    LiquidityShares(p.reserves, after, p.lpAmount, p.fees, q, r);
    LiquidityFeesAddUp(p.reserves, after, p.lpAmount, p.fees, q, r);
  }

  /** A run of actions, each of which raises the invariant. */
  ghost predicate DepositRun(p: Pool, afters: seq<seq<nat>>, q: Params, end: Pool)
    requires Sound(q) && Priced(p, q)
    decreases |afters|
  {
    if afters == [] then end == p else
    var o := LiquidityResult(p.reserves, afters[0], p.lpAmount, p.fees, q);
    && o.Done? && o.value.d2 > InvariantOf(p, q)
    && (ActionPrices(p, afters[0], q, o.value); DepositRun(PoolAfter(o.value, afters[0]), afters[1..], q, end))
  }

  lemma DepositStep(p: Pool, after: seq<nat>, q: Params, r: Liquidity)
    requires Sound(q) && Priced(p, q) && LiquidityResult(p.reserves, after, p.lpAmount, p.fees, q) == Done(r)
    requires r.d2 > InvariantOf(p, q)
    ensures Priced(PoolAfter(r, after), q)
    ensures Supply(p) <= Supply(PoolAfter(r, after)) && (Supply(p) == 0 ==> Supply(PoolAfter(r, after)) == 0)
    ensures ShareHolds(InvariantOf(p, q), Supply(p), InvariantOf(PoolAfter(r, after), q), Supply(PoolAfter(r, after)))
  {
    ActionPrices(p, after, q, r);
    LiquidityShares(p.reserves, after, p.lpAmount, p.fees, q, r);
    InvariantIsMinimiser(TotalsOf(ToCommon(Minus(p.reserves, p.fees), Precision(q.dec), q.dec), q.ampl));
    DepositShare(InvariantOf(p, q), Supply(p), r.d2, Supply(PoolAfter(r, after)));
  }

  lemma DepositShare(d0: nat, supply: nat, d2: nat, supply': nat)
    requires d0 >= 1 && d0 * supply' <= d2 * supply
    ensures ShareHolds(d0, supply, d2, supply') && (supply == 0 ==> supply' == 0)
  {
    if supply == 0 { MulCancel(supply', 0, d0); }
  }

  /** However many deposits follow each other, the invariant per LP share does not fall. */
  lemma {:induction false} DepositsNeverDilute(p: Pool, afters: seq<seq<nat>>, q: Params, end: Pool)
    requires Sound(q) && Priced(p, q) && DepositRun(p, afters, q, end)
    ensures Priced(end, q)
    ensures Supply(p) <= Supply(end) && (Supply(p) == 0 ==> Supply(end) == 0)
    ensures ShareHolds(InvariantOf(p, q), Supply(p), InvariantOf(end, q), Supply(end))
    decreases |afters|
  {
    if afters != [] {
      var r := LiquidityResult(p.reserves, afters[0], p.lpAmount, p.fees, q).value;
      var next := PoolAfter(r, afters[0]);
      DepositStep(p, afters[0], q, r);
      DepositsNeverDilute(next, afters[1..], q, end);
      if Supply(next) >= 1 {
        SharesChain(InvariantOf(p, q), InvariantOf(next, q), InvariantOf(end, q), Supply(p), Supply(next), Supply(end));
      }
    }
  }
}

/** Pools at which `swap` of cardano-offchain-stableswap/src/stable_swap_amm_actions.rs does not do what its
    comments announce, worked out from the inputs of the call. */
module StableSwapWitnesses {
  import opened Arithmetic
  import opened StableSwapInvariant
  import opened StableSwapActions
  import opened StableSwapQuote
  import opened StableSwapSwap

  // ---- Two balances at amplification 1 ------------------------------------

  lemma TwoBalances(x: nat, y: nat)
    ensures Sum([x, y]) == x + y && Prod([x, y]) == x * y
  {
    assert [x, y][1..] == [y];
    assert Sum([y]) == y && Prod([y]) == y by { assert [y][1..] == []; }
  }

  lemma Powers(d: nat)
    ensures Pow(2, 2) == 4 && Pow(d, 3) == d * (d * d)
  {
    assert Pow(2, 1) == 2;
    assert Pow(d, 1) == d;
    assert Pow(d, 2) == d * d;
  }

  /** The signed error of a pair, in plain numbers. */
  function PairCurve(x: nat, y: nat, d: nat): int
    requires x * y >= 1
  {
    3 * d + (d * (d * d)) / (4 * (x * y)) - 4 * (x + y)
  }

  lemma PairTotals(x: nat, y: nat, d: nat)
    requires x >= 1 && y >= 1
    ensures x * y >= 1 && F(TotalsOf([x, y], 1), d) == PairCurve(x, y, d)
  {
    MulMono(1, x, y);
    TwoBalances(x, y);
    Powers(d);
  }

  lemma PairInvariant(x: nat, y: nat, d: nat)
    requires x >= 1 && y >= 1 && x * y >= 1 && d >= 1
    requires -PairCurve(x, y, d - 1) > PairCurve(x, y, d) > PairCurve(x, y, d - 1)
    requires PairCurve(x, y, d + 1) > -PairCurve(x, y, d) && PairCurve(x, y, d + 1) > PairCurve(x, y, d)
    ensures Invariant(TotalsOf([x, y], 1)) == d
  {
    PairTotals(x, y, d - 1);
    PairTotals(x, y, d);
    PairTotals(x, y, d + 1);
    StrictMinimumIsComputed(TotalsOf([x, y], 1), d);
  }

  lemma PairError(x: nat, y: nat, d: nat)
    requires x * y >= 1
    ensures Prod([x, y]) >= 1
    ensures ErrorAt(2, 4, [x, y], d) == if PairCurve(x, y, d) >= 0 then PairCurve(x, y, d) else -PairCurve(x, y, d)
  {
    TwoBalances(x, y);
    Powers(d);
  }

  // ---- The adjustment moves away from the minimum -------------------------

  const UNITS := Params(2, [1, 1], 1, 30, 5000)

  lemma UnitsReady()
    ensures Precision(UNITS.dec) == 1 && Ready(0, 1, 1, [2, 12], [0, 0], UNITS)
    ensures CommonBalances(0, 1, 1, [2, 12], [0, 0], UNITS) == Balances([2, 12], [3, 12])
  {
    assert Maximum(UNITS.dec) == 1 by { assert UNITS.dec[1..] == [1]; }
    assert Minus([2, 12], [0, 0]) == [2, 12];
    assert ToCommon([2, 12], 1, [1, 1]) == [2, 12] && ToCommon([3, 12], 1, [1, 1]) == [3, 12];
  }

  lemma UnitsInvariant()
    ensures Invariant(TotalsOf([2, 12], 1)) == 12
  {
    PairInvariant(2, 12, 12);
  }

  lemma UnitsEquation()
    ensures Prod(Others([3, 12], 1)) >= 1 && QuoteEquation([3, 12], 1, UNITS, 12) == Equation(6, 36)
  {
    assert Others([3, 12], 1) == [3];
    assert Sum([3]) == 3 && Prod([3]) == 3 by { assert [3][1..] == []; }
    Powers(12);
  }

  lemma UnitsSearch()
    ensures Search(12, 6, 36, 12, 1, 1, 2) == Done(9)
  {
    assert QuoteStep(12, 6, 36, 12, 1, 1) == 10;
    assert QuoteStep(10, 6, 36, 12, 1, 1) == 9;
    assert Search(10, 6, 36, 12, 1, 1, 1) == Done(9);
  }

  lemma UnitsErrors()
    ensures Prod([3, 8]) >= 1 && Prod([3, 9]) >= 1 && Prod([3, 10]) >= 1
    ensures ErrorAt(2, 4, [3, 10], 12) == 2 && ErrorAt(2, 4, [3, 9], 12) == 4 && ErrorAt(2, 4, [3, 8], 12) == 10
    ensures Adjustable([3, 12], 1, 9, 1) && Adjusted([3, 12], 1, 9, 1, 2, 4, 12) == 8
  {
    PairError(3, 10, 12);
    PairError(3, 9, 12);
    PairError(3, 8, 12);
    assert [3, 12][1 := 9] == [3, 9] && [3, 12][1 := 10] == [3, 10] && [3, 12][1 := 8] == [3, 8];
  }

  lemma UnitsNotLeast()
    ensures OpenCell([3, 12], 1) && OnGrid(10, 1, 1) && !LeastError([3, 12], 1, 8, 1, 12, 1, 1)
  {
    UnitsErrors();
    Powers(0);
    assert [3, 12][1 := 10] == [3, 10] && [3, 12][1 := 8] == [3, 8];
    CellErrorIsError([3, 12], 1, 8, 1, 12);
    CellErrorIsError([3, 12], 1, 10, 1, 12);
    assert 10 == 10 * Quotient(1, 1);
  }

  /** Selling 1 into a pool of 2 and 12: the search ends at 9, where one unit more has a smaller error, and the
      adjustment goes to 8, where the error is larger than at either. */
  lemma AdjustmentMovesAway()
    ensures Ready(0, 1, 1, [2, 12], [0, 0], UNITS)
    ensures SwapSearch(0, 1, 1, [2, 12], [0, 0], UNITS, 2) == Done(9)
    ensures Prod([3, 8]) >= 1 && Prod([3, 9]) >= 1 && Prod([3, 10]) >= 1
    ensures ErrorAt(2, 4, [3, 10], 12) < ErrorAt(2, 4, [3, 9], 12) < ErrorAt(2, 4, [3, 8], 12)
    ensures Adjustable([3, 12], 1, 9, 1) && Adjusted([3, 12], 1, 9, 1, 2, 4, 12) == 8
    ensures OpenCell([3, 12], 1) && !LeastError([3, 12], 1, 8, 1, 12, 1, 1)
  {
    UnitsReady();
    UnitsInvariant();
    UnitsEquation();
    UnitsSearch();
    UnitsErrors();
    UnitsNotLeast();
  }

  lemma UnitsInvariantAfter()
    ensures Invariant(TotalsOf([3, 8], 1)) == 11
  {
    PairInvariant(3, 8, 11);
  }

  lemma UnitsExtremum()
    ensures AssetExtremum(2, 4, [3, 8], 11, 1, 1)
  {
    PairError(3, 6, 11);
    PairError(3, 8, 11);
    PairError(3, 10, 11);
    assert [3, 8][1 := 6] == [3, 6] && [3, 8][1 := 10] == [3, 10];
  }

  /** The closing checks where there is no LP fee. */
  lemma ClosesWithoutFee(withI: seq<nat>, j: nat, q: Params, v: seq<nat>, balanceJ: nat, d0: nat, d1: nat)
    requires Sound(q) && |withI| == |q.dec| == q.n && j < q.n && AllPositive(q.dec)
    requires v == withI[j := balanceJ] && Tradable(v) && d1 == Invariant(TotalsOf(v, q.ampl))
    requires AssetExtremum(q.n, q.ampl * Pow(q.n, q.n), v, d1, Quotient(Precision(q.dec), q.dec[j]), j)
    requires Distance(d1, d0) <= Quotient(2 * Precision(q.dec), q.dec[j])
    ensures AlignedCloses(withI, j, q, balanceJ, 0, d0)
  {
    FloorIs(0 * Precision(q.dec), q.dec[j], 0);
  }

  lemma UnitsCloses()
    ensures AlignedCloses([3, 12], 1, UNITS, 8, 0, 12)
  {
    UnitsReady();
    Powers(0);
    UnitsInvariantAfter();
    UnitsExtremum();
    var v := [3, 8];
    assert [3, 12][1 := 8] == v;
    ClosesWithoutFee([3, 12], 1, UNITS, v, 8, 12, 11);
  }

  lemma UnitsFee(f: Split, q: Params)
    requires f == Split(4, 0, 0, 4) && q.swapFee == 30 && q.share == 5000
    ensures IsFeeSplit(f, q)
  {
    FloorExactly(0, f.delta * q.swapFee, 10_000);
    assert IsNominalFee(0, f.delta, q);
  }

  lemma UnitsSplit(reserves: seq<nat>, fees: seq<nat>, q: Params, precision: nat, dec: nat, f: Split)
    requires |reserves| == |fees| == |q.dec| == 2 && reserves[1] == 12 && fees[1] == 0
    requires precision == Precision(q.dec) == 1 && dec == q.dec[1] == 1
    requires f == Split(4, 0, 0, 4) && q.swapFee == 30 && q.share == 5000
    ensures QuoteSplit(1, reserves, fees, q, 8) == Done(f)
  {
    var held := Rescale(reserves[1] - fees[1], precision, dec);
    FloorExactly(held, (reserves[1] - fees[1]) * precision, dec);
    assert held == 12;
    assert SplitQuote(held, 8, precision, dec, q) == Done(f) by {
      UnitsFee(f, q);
      SplitExactly(held, 8, precision, dec, q, f);
    }
  }

  /** That swap passes all closing checks. */
  lemma AdjustedSwapFinishes()
    ensures SwapFinishes(0, 1, 1, [2, 12], [0, 0], UNITS, 2)
  {
    UnitsReady();
    UnitsInvariant();
    AdjustmentMovesAway();
    AlignedSwapFinishes(0, 1, 1, [2, 12], [0, 0], UNITS, 2);
    UnitsSplit([2, 12], [0, 0], UNITS, 1, 1, Split(4, 0, 0, 4));
    UnitsCloses();
    Powers(12);
  }

  // ---- The search goes round in circles -----------------------------------

  const TENTHS := Params(2, [10, 1], 1, 30, 5000)

  lemma TenthsReady()
    ensures Precision(TENTHS.dec) == 10 && Ready(0, 1, 1, [2, 2], [0, 0], TENTHS)
    ensures CommonBalances(0, 1, 1, [2, 2], [0, 0], TENTHS) == Balances([2, 20], [3, 20])
  {
    assert Maximum(TENTHS.dec) == 10 by { assert TENTHS.dec[1..] == [1]; }
    assert Minus([2, 2], [0, 0]) == [2, 2];
    assert ToCommon([2, 2], 10, [10, 1]) == [2, 20] && ToCommon([3, 2], 10, [10, 1]) == [3, 20];
  }

  lemma TenthsInvariant()
    ensures Invariant(TotalsOf([2, 20], 1)) == 18
  {
    PairInvariant(2, 20, 18);
  }

  lemma TenthsEquation()
    ensures Prod(Others([3, 20], 1)) >= 1 && QuoteEquation([3, 20], 1, TENTHS, 18) == Equation(7, 121)
  {
    assert Others([3, 20], 1) == [3];
    assert Sum([3]) == 3 && Prod([3]) == 3 by { assert [3][1..] == []; }
    Powers(18);
  }

  /** The quote floor is 10; a step from it leads to 20, and a step from 20 back to it. */
  lemma TenthsFloor()
    ensures IsQuoteFloor(10, 7, 121, 18, 10, 1) && OnGrid(20, 10, 1)
    ensures QuoteStep(10, 7, 121, 18, 10, 1) == 20 && QuoteStep(20, 7, 121, 18, 10, 1) == 10
  {
    assert 10 == 1 * Quotient(10, 1) && 20 == 2 * Quotient(10, 1);
  }

  lemma TenthsSearch(rounds: nat)
    ensures Ready(0, 1, 1, [2, 2], [0, 0], TENTHS)
    ensures SwapSearch(0, 1, 1, [2, 2], [0, 0], TENTHS, rounds) == Search(20, 7, 121, 18, 10, 1, rounds)
  {
    TenthsReady();
    TenthsInvariant();
    TenthsEquation();
  }

  /** Selling 1 into a pool of 2 and 2 with 10 and 1 as decimals: however many rounds it is given, the search
      has not ended. */
  lemma SearchCircles(rounds: nat)
    ensures Ready(0, 1, 1, [2, 2], [0, 0], TENTHS)
    ensures SwapSearch(0, 1, 1, [2, 2], [0, 0], TENTHS, rounds).Unfinished?
  {
    TenthsSearch(rounds);
    TenthsFloor();
    NeverEnds(20, 10, 7, 121, 18, 10, 1, rounds);
  }
}

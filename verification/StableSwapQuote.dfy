/** The search for the quote balance of `swap` in
    cardano-offchain-stableswap/src/stable_swap_amm_actions.rs, and its one-unit adjustment. */
module StableSwapQuote {
  import opened Arithmetic
  import opened StableSwapInvariant
  import opened StableSwapActions

  // ---- Conversion between token units and the common precision ------------

  /** Every token's decimals divide the common precision, without remainder. */
  ghost predicate Aligned(dec: seq<nat>, precision: nat) {
    forall k :: 0 <= k < |dec| ==> dec[k] >= 1 && precision >= 1 && precision % dec[k] == 0
  }

  /** A multiple of the smallest unit of the token. */
  ghost predicate OnGrid(x: nat, precision: nat, dec: nat)
    requires dec >= 1
  {
    exists y: nat :: x == y * Quotient(precision, dec)
  }

  lemma ScaleExact(y: nat, precision: nat, dec: nat)
    requires dec >= 1 && precision >= 1 && precision % dec == 0
    ensures var unit := Quotient(precision, dec);
      unit >= 1 && Rescale(y, precision, dec) == y * unit && Rescale(y * unit, dec, precision) == y
  {
    var unit := Quotient(precision, dec);
    FloorBounds(precision, dec);
    assert precision == unit * dec;
    MulCancelStrict(0, unit, dec);
    Assoc(y, unit, dec);
    FloorIs(y * precision, dec, y * unit) by { Distribute(y * unit, 1, dec); }
    FloorIs((y * unit) * dec, precision, y) by { Distribute(y, 1, precision); }
  }

  lemma GridStep(x: nat, precision: nat, dec: nat)
    requires dec >= 1 && OnGrid(x, precision, dec)
    ensures OnGrid(x + Quotient(precision, dec), precision, dec)
    ensures x >= Quotient(precision, dec) ==> OnGrid(x - Quotient(precision, dec), precision, dec)
  {
    var unit := Quotient(precision, dec);
    var y: nat :| x == y * unit;
    Distribute(y, 1, unit);
    assert x + unit == (y + 1) * unit;
    if x >= unit {
      if y == 0 {
        assert x - unit == 0 * unit;
      } else {
        Distribute(y - 1, 1, unit);
        assert x - unit == (y - 1) * unit;
      }
    }
  }

  function FromCommon(c: seq<nat>, precision: nat, dec: seq<nat>): (r: seq<nat>)
    requires |c| == |dec| && precision >= 1
    ensures |r| == |c|
  {
    seq(|c|, k requires 0 <= k < |c| => Rescale(c[k], dec[k], precision))
  }

  // ---- Search for the quote balance ---------------------------------------

  /** Product of the balances other than the quote, skipping leading zeros as the source does. */
  function ProdSkippingZeros(b: seq<nat>, acc: nat): nat {
    if b == [] then acc else ProdSkippingZeros(b[1..], if acc != 0 then acc * b[0] else b[0])
  }

  /** One rounded Newton step for the root of y * y + (b - d0) * y = c. */
  function QuoteStep(y: nat, b: nat, c: nat, d0: nat, precision: nat, dec: nat): nat
    requires precision >= 1 && dec >= 1 && 2 * y + b > d0
  {
    Rescale(Rescale(Quotient(y * y + c, 2 * y + b - d0), dec, precision), precision, dec)
  }

  /** The last value before the search ended: one more step moves it by at most one. */
  ghost predicate Settles(y: nat, next: nat, b: nat, c: nat, d0: nat, precision: nat, dec: nat)
    requires precision >= 1 && dec >= 1
  {
    2 * y + b > d0 && next == QuoteStep(y, b, c, d0, precision, dec) && Distance(next, y) <= 1
  }

  /** The rounding Newton iteration from `y`, cut off after `rounds` steps. */
  function Search(y: nat, b: nat, c: nat, d0: nat, precision: nat, dec: nat, rounds: nat): Outcome<nat>
    requires precision >= 1 && dec >= 1
    decreases rounds
  {
    if rounds == 0 then Unfinished else
    if 2 * y + b < d0 then Abort(Underflow) else
    if 2 * y + b == d0 then Abort(DivisionByZero) else
    var next := QuoteStep(y, b, c, d0, precision, dec);
    if Distance(next, y) <= 1 then Done(next) else Search(next, b, c, d0, precision, dec, rounds - 1)
  }

  /** More rounds do not change the outcome of a search that has ended. */
  lemma {:induction false} SearchStays(y: nat, b: nat, c: nat, d0: nat, precision: nat, dec: nat, rounds: nat,
                                       more: nat)
    requires precision >= 1 && dec >= 1 && rounds <= more
    requires !Search(y, b, c, d0, precision, dec, rounds).Unfinished?
    ensures Search(y, b, c, d0, precision, dec, more) == Search(y, b, c, d0, precision, dec, rounds)
    decreases rounds
  {
    if 2 * y + b > d0 {
      var next := QuoteStep(y, b, c, d0, precision, dec);
      if Distance(next, y) > 1 { SearchStays(next, b, c, d0, precision, dec, rounds - 1, more - 1); }
    }
  }

  /** A search ends only at a value that settles. */
  lemma {:induction false} SearchSettles(y: nat, b: nat, c: nat, d0: nat, precision: nat, dec: nat, rounds: nat)
      returns (last: nat)
    requires precision >= 1 && dec >= 1 && Search(y, b, c, d0, precision, dec, rounds).Done?
    ensures Settles(last, Search(y, b, c, d0, precision, dec, rounds).value, b, c, d0, precision, dec)
    decreases rounds
  {
    var next := QuoteStep(y, b, c, d0, precision, dec);
    if Distance(next, y) <= 1 {
      last := y;
    } else {
      last := SearchSettles(next, b, c, d0, precision, dec, rounds - 1);
    }
  }

  /** The loop of the source: it is not entered at an invariant of at most 1. */
  method QuoteSearch(start: nat, b: nat, c: nat, d0: nat, precision: nat, dec: nat, rounds: nat)
      returns (o: Outcome<nat>, ghost last: nat)
    requires precision >= 1 && dec >= 1
    ensures d0 > 1 ==> o == Search(start, b, c, d0, precision, dec, rounds)
    ensures o.Done? && d0 > 1 ==> Settles(last, o.value, b, c, d0, precision, dec)
    ensures d0 <= 1 ==> o == Done(start)
    ensures o.Done? || o.Unfinished? || o == Abort(Underflow) || o == Abort(DivisionByZero)
  {
    var balance, absError, round := start, d0, 0;
    last := start;
    while absError > 1
      invariant 0 <= round <= rounds
      invariant round == 0 ==> absError == d0 && balance == start
      invariant round >= 1 ==> d0 > 1 && absError == Distance(balance, last)
      invariant round >= 1 ==> 2 * last + b > d0 && balance == QuoteStep(last, b, c, d0, precision, dec)
      invariant absError > 1 ==>
        Search(start, b, c, d0, precision, dec, rounds) == Search(balance, b, c, d0, precision, dec, rounds - round)
      invariant absError <= 1 && d0 > 1 ==> Search(start, b, c, d0, precision, dec, rounds) == Done(balance)
      decreases rounds - round
    {
      if round >= rounds { return Unfinished, last; }
      var previous := balance;
      if 2 * previous + b < d0 { return Abort(Underflow), last; }
      if 2 * previous + b == d0 { return Abort(DivisionByZero), last; }
      balance := Quotient(previous * previous + c, 2 * previous + b - d0);
      balance := Rescale(Rescale(balance, dec, precision), precision, dec);
      absError := Distance(balance, previous);
      last := previous;
      round := round + 1;
    }
    return Done(balance), last;
  }

  /** With aligned decimals, rounding to token units loses less than one unit. */
  lemma GridFloor(y: nat, precision: nat, dec: nat)
    requires dec >= 1 && precision >= 1 && precision % dec == 0
    ensures var unit, g := Quotient(precision, dec), Rescale(Rescale(y, dec, precision), precision, dec);
      OnGrid(g, precision, dec) && g <= y < g + unit
  {
    var unit, tokens := Quotient(precision, dec), Rescale(y, dec, precision);
    ScaleExact(tokens, precision, dec);
    FloorBounds(precision, dec);
    FloorBounds(y * dec, precision);
    Assoc(tokens, unit, dec);
    MulCancel(tokens * unit, y, dec);
    Distribute(tokens, 1, precision);
    Distribute(tokens, 1, unit);
    Assoc(tokens + 1, unit, dec);
    MulCancelStrict(y, (tokens + 1) * unit, dec);
  }

  /** How far the quadratic is from zero at `y`. */
  function Residual(y: nat, b: nat, c: nat, d0: nat): int {
    y * (2 * y + b - d0) - (y * y + c)
  }

  /** A value that settles solves the quote equation up to one step of its slope for each unit
      that rounding may take. */
  lemma SettledResidual(y: nat, next: nat, b: nat, c: nat, d0: nat, precision: nat, dec: nat)
    requires precision >= 1 && dec >= 1 && precision % dec == 0 && Settles(y, next, b, c, d0, precision, dec)
    ensures var unit, slope := Quotient(precision, dec), 2 * y + b - d0;
      && OnGrid(next, precision, dec)
      && -(unit + 1) * slope < Residual(y, b, c, d0) <= slope
  {
    var unit, slope := Quotient(precision, dec), 2 * y + b - d0;
    var exact := Quotient(y * y + c, slope);
    GridFloor(exact, precision, dec);
    FloorBounds(y * y + c, slope);
    ResidualBounds(y, exact, slope, y * y + c, unit);
  }

  lemma ResidualBounds(y: nat, exact: nat, slope: nat, x: nat, unit: nat)
    requires slope >= 1 && exact * slope <= x < exact * slope + slope
    requires exact - unit <= y <= exact + 1
    ensures -(unit + 1) * slope < y * slope - x <= slope
  {
    MulMono(y, exact + 1, slope);
    Distribute(exact, 1, slope);
    MulMono(exact - unit, y, slope);
    Distribute(exact - unit, unit + 1, slope);
    assert (exact - unit) * slope == exact * slope + slope - (unit + 1) * slope;
    assert -(unit + 1) * slope == -((unit + 1) * slope) by { Distribute(-(unit + 1), unit + 1, slope); }
  }

  /** The invariant error of a balance list without empty balances. */
  function ErrorAt(n: nat, ann: nat, b: seq<nat>, d: nat): nat
    requires n >= 1 && Prod(b) >= 1
  {
    PowPositive(n, n);
    MulMono(1, Prod(b), Pow(n, n));
    ErrorFromBalances(n, ann, b, d)
  }

  /** An empty balance makes the product zero, and the error divides by it. */
  method ErrorOrAbort(n: nat, ann: nat, b: seq<nat>, d: nat) returns (o: Outcome<nat>)
    requires n >= 1
    ensures o == if Prod(b) == 0 then Abort(DivisionByZero) else Done(ErrorAt(n, ann, b, d))
  {
    if Prod(b) == 0 { return Abort(DivisionByZero); }
    PowPositive(n, n);
    MulMono(1, Prod(b), Pow(n, n));
    o := Done(ErrorFromBalances(n, ann, b, d));
  }

  /** The tuning loop over one cell of the balance list. It starts one unit below the value whose
      error it is given, so its first round only finds that error again, and it ends where it began. */
  method TuneCell(start: seq<nat>, j: nat, firstErr: nat, unit: nat, n: nat, ann: nat, d0: nat)
      returns (o: Outcome<nat>)
    requires j < |start| && n >= 1 && Prod(start[j := start[j] + unit]) >= 1
    requires firstErr == ErrorAt(n, ann, start[j := start[j] + unit], d0)
    ensures o == Done(start[j])
  {
    var cells: seq<nat>, invErr: nat := start, firstErr;
    var invErrPrevious: nat := invErr + unit;
    while invErr < invErrPrevious
      invariant invErr == firstErr
      invariant (invErrPrevious == firstErr + unit && cells == start)
             || (invErrPrevious == firstErr && cells == start[j := start[j] + unit])
      decreases invErrPrevious
    {
      invErrPrevious := invErr;
      cells := cells[j := cells[j] + unit];
      var err := ErrorOrAbort(n, ann, cells, d0);
      if !err.Done? { return Abort(DivisionByZero); }
      invErr := err.value;
    }
    if cells[j] < unit { return Abort(Underflow); }
    o := Done(cells[j] - unit);
  }

  /** Whether no fault stops the adjustment. */
  predicate Adjustable(common: seq<nat>, j: nat, balance: nat, unit: nat)
    requires j < |common|
  {
    && balance >= unit
    && Prod(common[j := balance]) >= 1
    && Prod(common[j := balance + unit]) >= 1 && Prod(common[j := balance - unit]) >= 1
  }

  /** The balance itself where its error is strictly below that of both neighbours, one unit less everywhere else. */
  function Adjusted(common: seq<nat>, j: nat, balance: nat, unit: nat, n: nat, ann: nat, d0: nat): nat
    requires j < |common| && n >= 1 && Adjustable(common, j, balance, unit)
  {
    var err := ErrorAt(n, ann, common[j := balance], d0);
    if err < ErrorAt(n, ann, common[j := balance + unit], d0) && err < ErrorAt(n, ann, common[j := balance - unit], d0)
    then balance
    else balance - unit
  }

  /** The one-unit adjustment of the quote balance. */
  method AdjustQuote(common: seq<nat>, j: nat, balance: nat, unit: nat, n: nat, ann: nat, d0: nat)
      returns (o: Outcome<nat>)
    requires j < |common| && n >= 1
    ensures o.Done? <==> Adjustable(common, j, balance, unit)
    ensures o.Done? ==> o.value == Adjusted(common, j, balance, unit, n, ann, d0)
    ensures o.Done? || o == Abort(Underflow) || o == Abort(DivisionByZero)
  {
    var invErr := ErrorOrAbort(n, ann, common[j := balance], d0);
    if !invErr.Done? { return Abort(DivisionByZero); }
    var invErrUpper := ErrorOrAbort(n, ann, common[j := balance + unit], d0);
    if !invErrUpper.Done? { return Abort(DivisionByZero); }
    if balance < unit { return Abort(Underflow); }
    var cells := common[j := balance - unit];
    var invErrLower := ErrorOrAbort(n, ann, cells, d0);
    if !invErrLower.Done? { return Abort(DivisionByZero); }
    o := Done(balance);
    if !(invErr.value < invErrUpper.value && invErr.value < invErrLower.value) {
      assert cells[j := cells[j] + unit] == common[j := balance];
      o := TuneCell(cells, j, invErr.value, unit, n, ann, d0);
    }
  }

  lemma AdjustedOnGrid(common: seq<nat>, j: nat, balance: nat, n: nat, ann: nat, d0: nat, precision: nat, dec: nat)
    requires j < |common| && n >= 1 && dec >= 1 && OnGrid(balance, precision, dec)
    requires Adjustable(common, j, balance, Quotient(precision, dec))
    ensures OnGrid(Adjusted(common, j, balance, Quotient(precision, dec), n, ann, d0), precision, dec)
  {
    GridStep(balance, precision, dec);
  }

  // ---- Exactly when the adjustment finds the minimum ----------------------

  /** Balances that are tradable with any positive balance in cell `j`. */
  predicate OpenCell(common: seq<nat>, j: nat) {
    2 <= |common| && j < |common| && forall k :: 0 <= k < |common| && k != j ==> common[k] >= 1
  }

  /** The signed error with balance `y` in cell `j`. */
  function CellCurve(common: seq<nat>, j: nat, y: nat, ampl: nat, d: nat): int
    requires OpenCell(common, j) && y >= 1 && ampl >= 1
  {
    F(TotalsOf(common[j := y], ampl), d)
  }

  function CellError(common: seq<nat>, j: nat, y: nat, ampl: nat, d: nat): nat
    requires OpenCell(common, j) && y >= 1 && ampl >= 1
  {
    Err(TotalsOf(common[j := y], ampl), d)
  }

  lemma CellErrorIsError(common: seq<nat>, j: nat, y: nat, ampl: nat, d: nat)
    requires OpenCell(common, j) && y >= 1 && ampl >= 1
    ensures Prod(common[j := y]) >= 1
    ensures ErrorAt(|common|, ampl * Pow(|common|, |common|), common[j := y], d) == CellError(common, j, y, ampl, d)
  {
    ProdFromSum(common[j := y]);
    ErrorIsAbsolute(TotalsOf(common[j := y], ampl), d);
  }

  /** The signed error strictly falls as the balance rises. */
  lemma CurveFalls(common: seq<nat>, j: nat, y: nat, y': nat, ampl: nat, d: nat)
    requires OpenCell(common, j) && 1 <= y < y' && ampl >= 1
    ensures CellCurve(common, j, y', ampl, d) < CellCurve(common, j, y, ampl, d)
  {
    var b, b' := common[j := y], common[j := y'];
    var c, c' := TotalsOf(b, ampl), TotalsOf(b', ampl);
    assert b[j] != b'[j];
    TotalsMonotone(b, b');
    TotalsOrdered(c, c');
    CurveMonotone(c, c', d);
  }

  /** No balance in whole tokens has a smaller error than `x`. */
  ghost predicate LeastError(common: seq<nat>, j: nat, x: nat, ampl: nat, d: nat, precision: nat, dec: nat)
    requires OpenCell(common, j) && x >= 1 && ampl >= 1 && dec >= 1
  {
    forall y: nat :: y >= 1 && OnGrid(y, precision, dec) ==>
      CellError(common, j, x, ampl, d) <= CellError(common, j, y, ampl, d)
  }

  lemma ErrorsAbove(common: seq<nat>, j: nat, x: nat, z: nat, y: nat, ampl: nat, d: nat)
    requires OpenCell(common, j) && 1 <= x < z <= y && ampl >= 1
    requires CellError(common, j, x, ampl, d) <= CellError(common, j, z, ampl, d)
    ensures CellError(common, j, x, ampl, d) <= CellError(common, j, y, ampl, d)
  {
    CurveFalls(common, j, x, z, ampl, d);
    if z < y { CurveFalls(common, j, z, y, ampl, d); }
  }

  lemma ErrorsBelow(common: seq<nat>, j: nat, x: nat, z: nat, y: nat, ampl: nat, d: nat)
    requires OpenCell(common, j) && 1 <= y <= z < x && ampl >= 1
    requires CellError(common, j, x, ampl, d) <= CellError(common, j, z, ampl, d)
    ensures CellError(common, j, x, ampl, d) <= CellError(common, j, y, ampl, d)
  {
    CurveFalls(common, j, z, x, ampl, d);
    if y < z { CurveFalls(common, j, y, z, ampl, d); }
  }

  /** No worse than its neighbours one token away. */
  predicate LocallyLeast(common: seq<nat>, j: nat, x: nat, unit: nat, ampl: nat, d: nat)
    requires OpenCell(common, j) && x >= 1 && ampl >= 1
  {
    && CellError(common, j, x, ampl, d) <= CellError(common, j, x + unit, ampl, d)
    && (x > unit ==> CellError(common, j, x, ampl, d) <= CellError(common, j, x - unit, ampl, d))
  }

  /** A balance in whole tokens has the least error of all exactly when it is no worse than its neighbours. */
  lemma LeastIsLocal(common: seq<nat>, j: nat, x: nat, ampl: nat, d: nat, precision: nat, dec: nat)
    requires OpenCell(common, j) && x >= 1 && ampl >= 1
    requires dec >= 1 && precision >= 1 && precision % dec == 0 && OnGrid(x, precision, dec)
    ensures LeastError(common, j, x, ampl, d, precision, dec) <==>
            LocallyLeast(common, j, x, Quotient(precision, dec), ampl, d)
  {
    var unit := Quotient(precision, dec);
    ScaleExact(1, precision, dec);
    GridStep(x, precision, dec);
    if LocallyLeast(common, j, x, unit, ampl, d) {
      forall y: nat | y >= 1 && OnGrid(y, precision, dec)
        ensures CellError(common, j, x, ampl, d) <= CellError(common, j, y, ampl, d)
      {
        if y > x {
          GridGap(x, y, precision, dec);
          ErrorsAbove(common, j, x, x + unit, y, ampl, d);
        } else if y < x {
          GridGap(y, x, precision, dec);
          ErrorsBelow(common, j, x, x - unit, y, ampl, d);
        }
      }
    }
  }

  /** What the errors around the searched value must be for the adjustment to end at the minimum: a strict minimum at
      the value itself, or a minimum one token below it. */
  predicate AdjustsWell(common: seq<nat>, j: nat, found: nat, unit: nat, ampl: nat, d: nat)
    requires OpenCell(common, j) && found > unit && ampl >= 1
  {
    var err, upper := CellError(common, j, found, ampl, d), CellError(common, j, found + unit, ampl, d);
    var lower := CellError(common, j, found - unit, ampl, d);
    || (err < upper && err < lower)
    || (lower <= err && (found > 2 * unit ==> lower <= CellError(common, j, found - 2 * unit, ampl, d)))
  }

  lemma {:induction false} ProductCells(b: seq<nat>)
    requires Prod(b) >= 1
    ensures AllPositive(b)
  {
    if b != [] {
      ProductFactors(b[0], Prod(b[1..]));
      ProductCells(b[1..]);
      forall k | 0 <= k < |b| ensures b[k] >= 1 {
        if k > 0 { assert b[1..][k - 1] >= 1; }
      }
    }
  }

  lemma ProductFactors(x: nat, y: nat)
    requires x * y >= 1
    ensures x >= 1 && y >= 1
  {
  }

  lemma AdjustableIsAbove(common: seq<nat>, j: nat, found: nat, unit: nat)
    requires OpenCell(common, j) && Adjustable(common, j, found, unit)
    ensures found > unit
  {
    var cells: seq<nat> := common[j := found - unit];
    ProductCells(cells);
    assert cells[j] >= 1;
  }

  lemma AdjustedByErrors(common: seq<nat>, j: nat, found: nat, unit: nat, ampl: nat, d: nat)
    requires OpenCell(common, j) && ampl >= 1 && found > unit && Adjustable(common, j, found, unit)
    ensures var n, err := |common|, CellError(common, j, found, ampl, d);
      Adjusted(common, j, found, unit, n, ampl * Pow(n, n), d) ==
      if err < CellError(common, j, found + unit, ampl, d) && err < CellError(common, j, found - unit, ampl, d)
      then found
      else found - unit
  {
    CellErrorIsError(common, j, found, ampl, d);
    CellErrorIsError(common, j, found + unit, ampl, d);
    CellErrorIsError(common, j, found - unit, ampl, d);
  }

  lemma LocalAfterAdjusting(common: seq<nat>, j: nat, found: nat, unit: nat, ampl: nat, d: nat, x: nat)
    requires OpenCell(common, j) && ampl >= 1 && found > unit && x >= 1
    requires var err := CellError(common, j, found, ampl, d);
      x == if err < CellError(common, j, found + unit, ampl, d) && err < CellError(common, j, found - unit, ampl, d)
           then found
           else found - unit
    ensures LocallyLeast(common, j, x, unit, ampl, d) <==> AdjustsWell(common, j, found, unit, ampl, d)
  {
  }

  /** The adjusted balance has the least error of all balances in whole tokens if and only if the errors around the
      searched value are as they must be. */
  lemma AdjustedIsLeast(common: seq<nat>, j: nat, found: nat, ampl: nat, d0: nat, precision: nat, dec: nat)
    requires OpenCell(common, j) && ampl >= 1
    requires dec >= 1 && precision >= 1 && precision % dec == 0 && OnGrid(found, precision, dec)
    requires Adjustable(common, j, found, Quotient(precision, dec))
    ensures var n, unit := |common|, Quotient(precision, dec);
      var x := Adjusted(common, j, found, unit, n, ampl * Pow(n, n), d0);
      && found > unit && x >= 1
      && (LeastError(common, j, x, ampl, d0, precision, dec) <==> AdjustsWell(common, j, found, unit, ampl, d0))
  {
    var n, unit := |common|, Quotient(precision, dec);
    AdjustableIsAbove(common, j, found, unit);
    AdjustedByErrors(common, j, found, unit, ampl, d0);
    AdjustedOnGrid(common, j, found, n, ampl * Pow(n, n), d0, precision, dec);
    var x := Adjusted(common, j, found, unit, n, ampl * Pow(n, n), d0);
    LocalAfterAdjusting(common, j, found, unit, ampl, d0, x);
    LeastIsLocal(common, j, x, ampl, d0, precision, dec);
  }

  // ---- Exactly when the search ends ---------------------------------------

  /** Slope of the quadratic at `y`; the search divides by it. */
  function Slope(y: nat, b: nat, d0: nat): int {
    2 * y + b - d0
  }

  lemma ResidualForm(y: nat, b: nat, c: nat, d0: nat)
    ensures Residual(y, b, c, d0) == y * (y + b - d0) - c
  {
    assert y * (2 * y + b - d0) == y * y + y * (y + b - d0);
  }

  /** No step leads below a value at which the quadratic is not positive. */
  lemma StepReaches(y: nat, z: nat, b: nat, c: nat, d0: nat)
    requires Slope(y, b, d0) > 0 && Residual(z, b, c, d0) <= 0
    ensures z <= Quotient(y * y + c, Slope(y, b, d0))
  {
    ResidualForm(z, b, c, d0);
    Chord(y, z, b - d0, c);
    FloorAtLeast(y * y + c, Slope(y, b, d0), z);
  }

  lemma Chord(y: int, z: int, k: int, c: int)
    requires z * (z + k) - c <= 0
    ensures z * (2 * y + k) <= y * y + c
  {
    assert (y - z) * (y - z) >= 0;
    assert y * y + c - z * (2 * y + k) == (y - z) * (y - z) - (z * (z + k) - c);
  }

  /** A step from where the quadratic is positive goes down. */
  lemma StepFalls(y: nat, b: nat, c: nat, d0: nat)
    requires Slope(y, b, d0) > 0 && Residual(y, b, c, d0) > 0
    ensures Quotient(y * y + c, Slope(y, b, d0)) < y
  {
    var slope := Slope(y, b, d0);
    FloorBounds(y * y + c, slope);
    MulCancelStrict(Quotient(y * y + c, slope), y, slope);
  }

  /** Once positive the quadratic stays positive, and its slope is positive too. */
  lemma PositiveAbove(z: nat, y: nat, b: nat, c: nat, d0: nat)
    requires z <= y && Residual(z, b, c, d0) > 0
    ensures Residual(y, b, c, d0) > 0 && Slope(y, b, d0) > 0
  {
    ResidualForm(z, b, c, d0);
    ResidualForm(y, b, c, d0);
    PositiveProduct(z, z + b - d0);
    MulMono(z, y, z + b - d0);
    MulMono(z + b - d0, y + b - d0, y);
  }

  lemma PositiveProduct(z: nat, w: int)
    requires z * w > 0
    ensures w > 0
  {
    if w <= 0 { MulMono(w, 0, z); }
  }

  lemma GridGap(x: nat, z: nat, precision: nat, dec: nat)
    requires dec >= 1 && OnGrid(x, precision, dec) && OnGrid(z, precision, dec) && x < z
    ensures x + Quotient(precision, dec) <= z
  {
    var unit := Quotient(precision, dec);
    var y: nat, w: nat :| x == y * unit && z == w * unit;
    MulCancelStrict(y, w, unit);
    MulMono(y + 1, w, unit);
    Distribute(y, 1, unit);
  }

  /** The quote floor: the largest balance in whole tokens at which the quadratic is not positive. */
  ghost predicate IsQuoteFloor(m: nat, b: nat, c: nat, d0: nat, precision: nat, dec: nat)
    requires dec >= 1
  {
    && OnGrid(m, precision, dec)
    && Residual(m, b, c, d0) <= 0 < Residual(m + Quotient(precision, dec), b, c, d0)
  }

  lemma PositiveFarOut(y: nat, b: nat, c: nat, d0: nat)
    requires y > c + d0
    ensures Residual(y, b, c, d0) > 0
  {
    ResidualForm(y, b, c, d0);
    MulMono(1, y + b - d0, y);
  }

  lemma {:induction false} FloorAbove(y: nat, b: nat, c: nat, d0: nat, precision: nat, dec: nat) returns (m: nat)
    requires dec >= 1 && precision >= 1 && precision % dec == 0
    requires OnGrid(y, precision, dec) && Residual(y, b, c, d0) <= 0
    ensures IsQuoteFloor(m, b, c, d0, precision, dec)
    decreases c + d0 + 1 - y
  {
    var unit := Quotient(precision, dec);
    ScaleExact(1, precision, dec);
    GridStep(y, precision, dec);
    if y > c + d0 { PositiveFarOut(y, b, c, d0); }
    if Residual(y + unit, b, c, d0) > 0 {
      m := y;
    } else {
      m := FloorAbove(y + unit, b, c, d0, precision, dec);
    }
  }

  /** Every quote equation has a quote floor. */
  lemma QuoteFloorExists(b: nat, c: nat, d0: nat, precision: nat, dec: nat) returns (m: nat)
    requires dec >= 1 && precision >= 1 && precision % dec == 0
    ensures IsQuoteFloor(m, b, c, d0, precision, dec)
  {
    assert 0 == 0 * Quotient(precision, dec);
    m := FloorAbove(0, b, c, d0, precision, dec);
  }

  /** Where one step leads, seen from the quote floor. */
  lemma StepFromFloor(y: nat, m: nat, b: nat, c: nat, d0: nat, precision: nat, dec: nat)
    requires dec >= 1 && precision >= 1 && precision % dec == 0
    requires IsQuoteFloor(m, b, c, d0, precision, dec) && OnGrid(y, precision, dec) && Slope(y, b, d0) > 0
    ensures var next := QuoteStep(y, b, c, d0, precision, dec);
      && OnGrid(next, precision, dec) && next >= m
      && (y > m ==> next + Quotient(precision, dec) <= y)
  {
    var exact, next := Quotient(y * y + c, Slope(y, b, d0)), QuoteStep(y, b, c, d0, precision, dec);
    GridFloor(exact, precision, dec);
    StepReaches(y, m, b, c, d0);
    if next < m { GridGap(next, m, precision, dec); }
    if y > m {
      GridGap(m, y, precision, dec);
      PositiveAbove(m + Quotient(precision, dec), y, b, c, d0);
      StepFalls(y, b, c, d0);
      GridGap(next, y, precision, dec);
    }
  }

  /** Above the floor the slope is positive. */
  lemma SlopeAboveFloor(y: nat, m: nat, b: nat, c: nat, d0: nat, precision: nat, dec: nat)
    requires dec >= 1 && IsQuoteFloor(m, b, c, d0, precision, dec) && OnGrid(y, precision, dec) && y > m
    ensures Slope(y, b, d0) > 0
  {
    GridGap(m, y, precision, dec);
    PositiveAbove(m + Quotient(precision, dec), y, b, c, d0);
  }

  /** The search stops at the quote floor: its step is a fault or stays within one. */
  ghost predicate StopsAtFloor(m: nat, b: nat, c: nat, d0: nat, precision: nat, dec: nat)
    requires precision >= 1 && dec >= 1
  {
    Slope(m, b, d0) <= 0 || Distance(QuoteStep(m, b, c, d0, precision, dec), m) <= 1
  }

  lemma {:induction false} EndsFromAbove(y: nat, m: nat, b: nat, c: nat, d0: nat, precision: nat, dec: nat)
      returns (rounds: nat)
    requires dec >= 1 && precision >= 1 && precision % dec == 0
    requires IsQuoteFloor(m, b, c, d0, precision, dec) && OnGrid(y, precision, dec) && y >= m
    requires StopsAtFloor(m, b, c, d0, precision, dec)
    ensures !Search(y, b, c, d0, precision, dec, rounds).Unfinished?
    decreases y
  {
    if y == m {
      rounds := 1;
    } else {
      SlopeAboveFloor(y, m, b, c, d0, precision, dec);
      StepFromFloor(y, m, b, c, d0, precision, dec);
      ScaleExact(1, precision, dec);
      var next := QuoteStep(y, b, c, d0, precision, dec);
      rounds := EndsFromAbove(next, m, b, c, d0, precision, dec);
      rounds := rounds + 1;
    }
  }

  /** From anywhere a search that cannot stop at the floor keeps moving by more than one. */
  lemma {:induction false} NeverEnds(y: nat, m: nat, b: nat, c: nat, d0: nat, precision: nat, dec: nat, rounds: nat)
    requires dec >= 1 && precision >= 1 && precision % dec == 0 && Quotient(precision, dec) >= 2
    requires IsQuoteFloor(m, b, c, d0, precision, dec) && OnGrid(y, precision, dec) && Slope(y, b, d0) > 0
    requires !StopsAtFloor(m, b, c, d0, precision, dec)
    ensures Search(y, b, c, d0, precision, dec, rounds).Unfinished?
    decreases rounds
  {
    if rounds > 0 {
      var next := QuoteStep(y, b, c, d0, precision, dec);
      StepFromFloor(y, m, b, c, d0, precision, dec);
      if y < m { GridGap(y, m, precision, dec); }
      if next > m { SlopeAboveFloor(next, m, b, c, d0, precision, dec); }
      NeverEnds(next, m, b, c, d0, precision, dec, rounds - 1);
    }
  }

  /** Where the smallest quote unit is the unit of the common precision, the search stops at the floor. */
  lemma UnitStops(m: nat, b: nat, c: nat, d0: nat, precision: nat, dec: nat)
    requires dec >= 1 && precision >= 1 && precision % dec == 0 && Quotient(precision, dec) == 1
    requires IsQuoteFloor(m, b, c, d0, precision, dec)
    ensures StopsAtFloor(m, b, c, d0, precision, dec)
  {
    var slope := Slope(m, b, d0);
    if slope > 0 {
      ResidualForm(m, b, c, d0);
      ResidualForm(m + 1, b, c, d0);
      StepFromFloor(m, m, b, c, d0, precision, dec);
      GridFloor(Quotient(m * m + c, slope), precision, dec);
      FloorBounds(m * m + c, slope);
      UnitStepCore(m, b - d0, c, Quotient(m * m + c, slope));
    }
  }

  lemma UnitStepCore(m: nat, k: int, c: nat, e: nat)
    requires 2 * m + k > 0 && (m + 1) * (m + 1 + k) - c > 0 && e * (2 * m + k) <= m * m + c
    ensures e <= m + 1
  {
    assert (m + 1) * (m + 1 + k) == m * m + m * k + (2 * m + k) + 1;
    assert (m + 2) * (2 * m + k) == 2 * (m * m) + m * k + 2 * (2 * m + k);
    assert m * m + c < (m + 2) * (2 * m + k);
    MulCancelStrict(e, m + 2, 2 * m + k);
  }

  /** Some number of rounds is enough for the search to end, with a value or a fault. */
  ghost predicate SearchEnds(start: nat, b: nat, c: nat, d0: nat, precision: nat, dec: nat)
    requires precision >= 1 && dec >= 1
  {
    exists rounds :: !Search(start, b, c, d0, precision, dec, rounds).Unfinished?
  }

  lemma FirstFaultEnds(start: nat, b: nat, c: nat, d0: nat, precision: nat, dec: nat)
    requires precision >= 1 && dec >= 1 && Slope(start, b, d0) <= 0
    ensures SearchEnds(start, b, c, d0, precision, dec)
  {
    assert !Search(start, b, c, d0, precision, dec, 1).Unfinished?;
  }

  lemma StoppingEnds(start: nat, m: nat, b: nat, c: nat, d0: nat, precision: nat, dec: nat)
    requires dec >= 1 && precision >= 1 && precision % dec == 0 && Slope(start, b, d0) > 0
    requires IsQuoteFloor(m, b, c, d0, precision, dec) && OnGrid(start, precision, dec)
    requires StopsAtFloor(m, b, c, d0, precision, dec)
    ensures SearchEnds(start, b, c, d0, precision, dec)
  {
    StepFromFloor(start, m, b, c, d0, precision, dec);
    var next := QuoteStep(start, b, c, d0, precision, dec);
    var rounds := EndsFromAbove(next, m, b, c, d0, precision, dec);
    assert !Search(start, b, c, d0, precision, dec, rounds + 1).Unfinished?;
  }

  lemma CirclingDoesNotEnd(start: nat, m: nat, b: nat, c: nat, d0: nat, precision: nat, dec: nat)
    requires dec >= 1 && precision >= 1 && precision % dec == 0 && Quotient(precision, dec) >= 2
    requires IsQuoteFloor(m, b, c, d0, precision, dec) && OnGrid(start, precision, dec) && Slope(start, b, d0) > 0
    requires !StopsAtFloor(m, b, c, d0, precision, dec)
    ensures !SearchEnds(start, b, c, d0, precision, dec)
  {
    forall rounds: nat ensures Search(start, b, c, d0, precision, dec, rounds).Unfinished? {
      NeverEnds(start, m, b, c, d0, precision, dec, rounds);
    }
  }

  /** The search for the quote balance ends if and only if its first step is a fault or it can stop at the
      quote floor; it always ends where the quote token has the largest decimals. */
  lemma SearchEndsExactly(start: nat, m: nat, b: nat, c: nat, d0: nat, precision: nat, dec: nat)
    requires dec >= 1 && precision >= 1 && precision % dec == 0
    requires IsQuoteFloor(m, b, c, d0, precision, dec) && OnGrid(start, precision, dec)
    ensures SearchEnds(start, b, c, d0, precision, dec) <==>
            Slope(start, b, d0) <= 0 || StopsAtFloor(m, b, c, d0, precision, dec)
    ensures Quotient(precision, dec) == 1 ==> SearchEnds(start, b, c, d0, precision, dec)
  {
    ScaleExact(1, precision, dec);
    if Quotient(precision, dec) == 1 { UnitStops(m, b, c, d0, precision, dec); }
    if Slope(start, b, d0) <= 0 {
      FirstFaultEnds(start, b, c, d0, precision, dec);
    } else if StopsAtFloor(m, b, c, d0, precision, dec) {
      StoppingEnds(start, m, b, c, d0, precision, dec);
    } else {
      CirclingDoesNotEnd(start, m, b, c, d0, precision, dec);
    }
  }

  /** Stopping at the floor in plain numbers: the quadratic misses the next whole token by more than a step. */
  lemma StopsInNumbers(m: nat, b: nat, c: nat, d0: nat, precision: nat, dec: nat)
    requires dec >= 1 && precision >= 1 && precision % dec == 0 && Quotient(precision, dec) >= 2
    requires IsQuoteFloor(m, b, c, d0, precision, dec)
    ensures StopsAtFloor(m, b, c, d0, precision, dec) <==>
            Slope(m, b, d0) <= 0 || m * m + c < (m + Quotient(precision, dec)) * Slope(m, b, d0)
  {
    var unit, slope := Quotient(precision, dec), Slope(m, b, d0);
    if slope > 0 {
      var exact, next := Quotient(m * m + c, slope), QuoteStep(m, b, c, d0, precision, dec);
      StepFromFloor(m, m, b, c, d0, precision, dec);
      GridFloor(exact, precision, dec);
      FloorBounds(m * m + c, slope);
      if m * m + c < (m + unit) * slope {
        MulCancelStrict(exact, m + unit, slope);
        if next > m { GridGap(m, next, precision, dec); }
      } else {
        FloorAtLeast(m * m + c, slope, m + unit);
        GridGap(m, next, precision, dec);
      }
    }
  }
}

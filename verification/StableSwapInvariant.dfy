/** Model of cardano-offchain-stableswap/src/stable_swap_invariant.rs. */
module StableSwapInvariant {
  import opened Arithmetic

  // ---- Totals of a balance list ------------------------------------------

  function Sum(b: seq<nat>): nat {
    if b == [] then 0 else b[0] + Sum(b[1..])
  }

  function Prod(b: seq<nat>): nat {
    if b == [] then 1 else b[0] * Prod(b[1..])
  }

  /** Balances the invariant is defined for: at least two assets, none of them empty. */
  predicate Tradable(b: seq<nat>) {
    |b| >= 2 && forall k :: 0 <= k < |b| ==> b[k] >= 1
  }

  lemma AmGmTangent(n: nat, v: nat, u: nat, un: nat, w: nat, c: int)
    requires w + n * (u * un) >= (n + 1) * (v * un)
    requires (n + 1) * v - n * u == c
    ensures w >= un * c
  {
    Assoc(n + 1, v, un);
    Assoc(n, u, un);
    Distribute(c, n * u, un);
  }

  lemma AmGmLinear(n: nat, x: nat, s: nat)
    ensures (n + 1) * ((x + s) * n) - n * (s * (n + 1)) == (n * (n + 1)) * x
  {
    var m := n * (n + 1);
    Assoc(x + s, n, n + 1);
    Assoc(s, n + 1, n);
    Distribute(x, s, m);
  }

  lemma AmGmStep(n: nat, x: nat, s: nat, p: nat)
    requires n >= 1
    requires Pow(n, n) * p <= Pow(s, n)
    ensures Pow(n + 1, n + 1) * (x * p) <= Pow(x + s, n + 1)
  {
    var v, u := (x + s) * n, s * (n + 1);
    Tangent(v, u, n);
    AmGmLinear(n, x, s);
    AmGmTangent(n, v, u, Pow(u, n), Pow(v, n + 1), (n * (n + 1)) * x);
    PowProduct(x + s, n, n + 1);
    PowProduct(s, n + 1, n);
    PowPositive(n, n);
    AmGmCancel(n, x, p, Pow(n, n), Pow(n + 1, n), Pow(s, n), Pow(x + s, n + 1));
  }

  lemma AmGmCancel(n: nat, x: nat, p: nat, nn: nat, mn: nat, sn: nat, t: nat)
    requires n >= 1 && nn >= 1
    requires nn * p <= sn
    requires t * (n * nn) >= (sn * mn) * ((n * (n + 1)) * x)
    ensures ((n + 1) * mn) * (x * p) <= t
  {
    var m := (n + 1) * mn;
    AmGmLeft(n, x, mn, sn);
    AmGmRight(n, x, p, nn, m);
    MulMono(nn * p, sn, n);
    MulMono(n * (nn * p), n * sn, m * x);
    MulMono(1, nn, n);
    MulCancel(m * (x * p), t, n * nn);
  }

  lemma AmGmLeft(n: nat, x: nat, mn: nat, sn: nat)
    ensures (sn * mn) * ((n * (n + 1)) * x) == (((n + 1) * mn) * x) * (n * sn)
  {
    Assoc(n, n + 1, x);
    MulSwap(sn, mn, n, (n + 1) * x);
    Assoc(n + 1, mn, x);
  }

  lemma AmGmRight(n: nat, x: nat, p: nat, nn: nat, m: nat)
    ensures (m * x) * (n * (nn * p)) == (m * (x * p)) * (n * nn)
  {
    Assoc(n, nn, p);
    Assoc(m, x, p);
    Assoc(m * x, p, n * nn);
  }

  /** The inequality of arithmetic and geometric means, cleared of denominators. */
  lemma {:induction false} AmGm(b: seq<nat>)
    requires b != []
    ensures Pow(|b|, |b|) * Prod(b) <= Pow(Sum(b), |b|)
  {
    if |b| == 1 {
      PowSmall(1); PowSmall(b[0]);
      assert b[1..] == [];
    } else {
      AmGm(b[1..]);
      AmGmStep(|b| - 1, b[0], Sum(b[1..]), Prod(b[1..]));
    }
  }

  lemma ProductFromSum(x: nat, p: nat)
    requires x >= 1 && p >= 1
    ensures x * p >= x + p - 1
  {
    Distribute(x - 1, 1, p);
    MulMono(1, p, x - 1);
  }

  /** Among positive balances with a given sum the product is least when all but one are 1. */
  lemma {:induction false} ProdFromSum(b: seq<nat>)
    requires forall k :: 0 <= k < |b| ==> b[k] >= 1
    ensures Sum(b) >= |b| && Prod(b) >= 1
    ensures b != [] ==> Prod(b) >= Sum(b) - |b| + 1
  {
    if b != [] {
      ProdFromSum(b[1..]);
      ProductFromSum(b[0], Prod(b[1..]));
      if |b| == 1 { assert b[1..] == []; }
    }
  }

  // ---- The invariant curve ------------------------------------------------

  /** The totals the error functions work from: number of assets, sum and product
      of the balances, `n^n`, amplification times `n^n`, product times `n^n`, and
      sum times amplification times `n^n`. */
  datatype Totals = Totals(n: nat, s: nat, p: nat, nn: nat, ann: nat, k: nat, t: nat)

  /** What makes the error increase with `d`. */
  predicate Shaped(c: Totals) {
    c.n >= 2 && c.nn >= 4 && c.ann >= c.nn && c.k >= c.nn
  }

  /** Totals that belong to some list of positive balances. */
  ghost predicate Ok(c: Totals) {
    && Shaped(c)
    && c.nn == Pow(c.n, c.n) && c.k == c.nn * c.p && c.t == c.ann * c.s
    && c.n <= c.s <= c.p + c.n - 1
    && c.k <= Pow(c.s, c.n)
  }

  function TotalsOf(b: seq<nat>, ampl: nat): (c: Totals)
    requires Tradable(b) && ampl >= 1
    ensures Ok(c)
  {
    AmGm(b);
    ProdFromSum(b);
    SelfPowStep(|b|);
    var nn, s, p := Pow(|b|, |b|), Sum(b), Prod(b);
    MulMono(1, ampl, nn);
    MulMono(1, p, nn);
    Totals(|b|, s, p, nn, ampl * nn, nn * p, (ampl * nn) * s)
  }

  function P(c: Totals, d: nat): nat
    requires Shaped(c)
  {
    Pow(d, c.n + 1) / c.k
  }

  /** Signed invariant error: left side minus right side of the invariant equation. */
  function F(c: Totals, d: nat): int
    requires Shaped(c)
  {
    (c.ann - 1) * d + P(c, d) - c.t
  }

  function Err(c: Totals, d: nat): nat
    requires Shaped(c)
  {
    if F(c, d) >= 0 then F(c, d) else -F(c, d)
  }

  /** The error before flooring, scaled by `k`. */
  ghost function G(c: Totals, d: nat): int {
    ((c.ann - 1) * d - c.t) * c.k + Pow(d, c.n + 1)
  }

  lemma ErrorIsFlooredCurve(c: Totals, d: nat)
    requires Shaped(c)
    ensures G(c, d) > 0 ==> F(c, d) >= 0
    ensures G(c, d) <= 0 ==> F(c, d) <= 0
  {
    var l := (c.ann - 1) * d - c.t;
    FloorBounds(Pow(d, c.n + 1), c.k);
    FlooredSign(l, P(c, d), Pow(d, c.n + 1), c.k);
  }

  lemma FlooredSign(l: int, z: nat, x: nat, k: nat)
    requires z * k <= x < z * k + k
    ensures l * k + x > 0 ==> l + z >= 0
    ensures l * k + x <= 0 ==> l + z <= 0
  {
    Distribute(l, z, k);
    if l + z < 0 { MulMono(l + z, -1, k); }
    if l + z > 0 { MulMono(1, l + z, k); }
  }

  lemma ErrorDifference(c: Totals, d: nat, j: nat)
    requires Shaped(c) && j <= d
    ensures F(c, d - j) == F(c, d) - (c.ann - 1) * j - P(c, d) + P(c, d - j)
  {
    Distribute(d - j, j, c.ann - 1);
  }

  /** The signed error grows strictly with `d`. */
  lemma ErrorIncreases(c: Totals, d: nat, e: nat)
    requires Shaped(c) && d < e
    ensures F(c, d) + 3 <= F(c, e)
    ensures P(c, d) <= P(c, e)
  {
    PowMono(d, e, c.n + 1);
    FloorMono(Pow(d, c.n + 1), Pow(e, c.n + 1), c.k);
    ErrorDifference(c, e, e - d);
    MulMono(1, e - d, c.ann - 1);
  }

  // ---- One Newton step ----------------------------------------------------

  function Den(c: Totals, d: nat): (r: nat)
    requires Shaped(c)
    ensures d >= 1 ==> r >= 1
    ensures r == F(c, d) + c.t + c.n * P(c, d)
  {
    MulMono(3, c.ann - 1, d);
    Distribute(c.n, 1, P(c, d));
    (c.ann - 1) * d + (c.n + 1) * P(c, d)
  }

  function Num(c: Totals, d: nat): nat
    requires Shaped(c)
  {
    MulMono(0, c.t + c.n * P(c, d), d);
    (c.t + c.n * P(c, d)) * d
  }

  function Step(c: Totals, d: nat): nat
    requires Shaped(c) && d >= 1
  {
    Quotient(Num(c, d), Den(c, d))
  }

  lemma NewtonCore(n: nat, d: nat, y: nat, b: nat, t: nat, k: nat, p: nat, q: nat, yn: nat, dn: nat)
    requires k > 0 && q == d * dn
    requires p * k <= q
    requires (b * y - t) * k + yn <= 0
    requires yn + n * q >= (n + 1) * (y * dn)
    ensures y * (b * d + (n + 1) * p) <= (t + n * p) * d
  {
    var e, g := (n + 1) * y - n * d, t - b * y;
    Distribute(b * y - t, g, k);
    MulCancel(0, g, k);
    if e <= 0 {
      MulMono(e, 0, p);
      MulMono(0, g, d);
    } else {
      NewtonConvex(n, d, y, q, yn, dn, e);
      NewtonScale(d, e, g, k, p, q, yn);
    }
    NewtonLinear(n, d, y, b, t, p);
  }

  lemma NewtonScale(d: nat, e: nat, g: nat, k: nat, p: nat, q: nat, yn: nat)
    requires k > 0 && p * k <= q && yn <= g * k && d * yn >= e * q
    ensures p * e <= d * g
  {
    MulMono(p * k, q, e);
    MulMono(yn, g * k, d);
    Assoc(p, k, e);
    Assoc(g, k, d);
    MulCancel(p * e, d * g, k);
  }

  lemma NewtonConvex(n: nat, d: nat, y: nat, q: nat, yn: nat, dn: nat, e: int)
    requires q == d * dn && e == (n + 1) * y - n * d
    requires yn + n * q >= (n + 1) * (y * dn)
    ensures d * yn >= e * q
  {
    MulMono((n + 1) * (y * dn), yn + n * q, d);
    Distribute(yn, n * q, d);
    Assoc(n + 1, y * dn, d);
    Assoc(y, dn, d);
    Assoc(n + 1, y, q);
    Assoc(n, q, d);
    Distribute(e, n * d, q);
  }

  lemma NewtonLinear(n: nat, d: nat, y: nat, b: nat, t: nat, p: nat)
    ensures (t + n * p) * d - y * (b * d + (n + 1) * p) == d * (t - b * y) - p * ((n + 1) * y - n * d)
  {
    Distribute(t, n * p, d);
    Distribute(b * d, (n + 1) * p, y);
    Assoc(b, d, y); Assoc(n, p, d); Assoc(n + 1, p, y);
    Distribute(t - b * y, b * y, d);
    Distribute((n + 1) * y - n * d, n * d, p);
  }

  /** No Newton step falls below an integer at or below the real root. */
  lemma StepStaysAbove(c: Totals, d: nat, y: nat)
    requires Shaped(c) && d >= 1 && G(c, y) <= 0
    ensures Step(c, d) >= y
  {
    var q := Pow(d, c.n + 1);
    FloorBounds(q, c.k);
    Tangent(y, d, c.n);
    NewtonCore(c.n, d, y, c.ann - 1, c.t, c.k, P(c, d), q, Pow(y, c.n + 1), Pow(d, c.n));
    FloorAtLeast(Num(c, d), Den(c, d), y);
  }

  /** Where a step lands, by the sign of the error it starts from. */
  lemma StepSize(c: Totals, d: nat)
    requires Shaped(c) && d >= 1
    ensures F(c, d) >= 0 ==> Step(c, d) <= d
    ensures F(c, d) >= 0 && Step(c, d) >= d ==> F(c, d) == 0
    ensures F(c, d) >= 0 && Step(c, d) >= d - 1 ==> F(c, d) * d <= Den(c, d)
    ensures F(c, d) <= 0 ==> Step(c, d) >= d
    ensures F(c, d) <= 0 && Step(c, d) >= d + 1 ==> -F(c, d) * d >= Den(c, d)
    ensures F(c, d) <= 0 && Step(c, d) >= d + 2 ==> -F(c, d) * d >= 2 * Den(c, d)
  {
    FloorBounds(Num(c, d), Den(c, d));
    Distribute(c.t + c.n * P(c, d), F(c, d), d);
    StepSizeCore(d, F(c, d), Den(c, d), Step(c, d));
  }

  lemma StepSizeCore(d: nat, f: int, den: nat, e: nat)
    requires d >= 1 && den >= 1
    requires e * den <= den * d - f * d < e * den + den
    ensures f >= 0 ==> e <= d
    ensures f >= 0 && e >= d ==> f == 0
    ensures f >= 0 && e >= d - 1 ==> f * d <= den
    ensures f <= 0 ==> e >= d
    ensures f <= 0 && e >= d + 1 ==> -f * d >= den
    ensures f <= 0 && e >= d + 2 ==> -f * d >= 2 * den
  {
    if f >= 0 {
      MulMono(0, f, d);
      MulCancel(e, d, den);
      if e >= d { MulMono(d, e, den); if f > 0 { MulMono(1, f, d); } }
      if e >= d - 1 { MulMono(d - 1, e, den); Distribute(d, -1, den); }
    }
    if f <= 0 {
      MulMono(f, 0, d);
      Distribute(e, 1, den);
      MulCancelStrict(d, e + 1, den);
      if e >= d + 1 { MulMono(d + 1, e, den); Distribute(d, 1, den); }
      if e >= d + 2 { MulMono(d + 2, e, den); Distribute(d, 2, den); }
    }
  }

  // ---- Neighbouring values of the floored power ---------------------------

  /** Bound on the two powers below `d`, in the range where the curve is smooth. */
  lemma PowersBelow(d: nat, n: nat)
    requires n >= 2 && 2 * d >= 5 * n
    ensures d * (Pow(d - 1, n + 1) + Pow(d - 2, n + 1)) <= (2 * (d - (n + 1))) * Pow(d, n + 1)
  {
    Below(d, 1, n + 1);
    Below(d, 2, n + 1);
    PowersBelowCore(d, n, n + 1, Pow(d - 1, n + 1), Pow(d - 2, n + 1), Pow(d, n + 1));
  }

  lemma PowersBelowCore(d: nat, n: nat, m: nat, x: nat, y: nat, z: nat)
    requires n >= 2 && 2 * d >= 5 * n && m == n + 1
    requires (2 * (d * d)) * x <= z * (2 * (d * d) - 2 * (m * (1 * d)) + (m * (m - 1)) * (1 * 1))
    requires (2 * (d * d)) * y <= z * (2 * (d * d) - 2 * (m * (2 * d)) + (m * (m - 1)) * (2 * 2))
    ensures d * (x + y) <= (2 * (d - m)) * z
  {
    var dd, md, mn := d * d, m * d, m * n;
    PowersBelowTerms(d, n, m);
    assert (2 * dd) * x <= z * (2 * dd - 2 * md + mn);
    assert (2 * dd) * y <= z * (2 * dd - 4 * md + 4 * mn);
    PowersBelowSum(dd, md, mn, x, y, z);
    PowersBelowScale(d, m, x + y, z);
    MulCancel(d * (x + y), (2 * (d - m)) * z, 2 * d);
  }

  lemma PowersBelowTerms(d: nat, n: nat, m: nat)
    requires 2 * d >= 5 * n && m == n + 1
    ensures 5 * (m * n) <= 2 * (m * d) && m * (1 * d) == m * d && m * (2 * d) == 2 * (m * d)
    ensures (m * (m - 1)) * (1 * 1) == m * n && (m * (m - 1)) * (2 * 2) == 4 * (m * n)
  {
    MulMono(5 * n, 2 * d, m);
    Assoc(5, n, m);
    Assoc(2, d, m);
    Assoc(m, d, 2);
  }

  lemma PowersBelowSum(dd: nat, md: nat, mn: nat, x: nat, y: nat, z: nat)
    requires 5 * mn <= 2 * md
    requires (2 * dd) * x <= z * (2 * dd - 2 * md + mn)
    requires (2 * dd) * y <= z * (2 * dd - 4 * md + 4 * mn)
    ensures (2 * dd) * (x + y) <= (4 * dd - 4 * md) * z
  {
    var q1, q2 := 2 * dd - 2 * md + mn, 2 * dd - 4 * md + 4 * mn;
    Distribute(q1, q2, z);
    Distribute(x, y, 2 * dd);
    MulMono(q1 + q2, 4 * dd - 4 * md, z);
  }

  lemma PowersBelowScale(d: nat, m: nat, w: nat, z: nat)
    ensures (4 * (d * d) - 4 * (m * d)) * z == ((2 * (d - m)) * z) * (2 * d)
    ensures (2 * (d * d)) * w == (d * w) * (2 * d)
  {
    Distribute(d - m, m, d);
    Assoc(2, d - m, 2 * d);
    Assoc(d - m, 2, d);
    Assoc(2 * (d - m), 2 * d, z);
    Assoc(2, d, d);
    Assoc(2 * d, d, w);
  }

  lemma FlooredBelow(d: nat, m: nat, k: nat, x: nat, y: nat, z: nat, x': nat, y': nat, z': nat, a: nat)
    requires k > 0 && m <= d && a >= 3
    requires d * (x + y) <= (2 * (d - m)) * z
    requires x' * k <= x && y' * k <= y && z < z' * k + k
    ensures d * (x' + y') + 2 * (m * z') <= a * d + 2 * (d * z')
  {
    FlooredBelowScale(d, 2 * (d - m), k, x + y, z, x' + y', z') by { Distribute(x', y', k); }
    Distribute(z', 1, 2 * (d - m));
    Distribute(d - m, m, z');
    Assoc(2, d - m, z');
    MulMono(3, a, d);
  }

  lemma FlooredBelowScale(d: nat, w: nat, k: nat, x: nat, z: nat, x': nat, z': nat)
    requires k > 0 && d * x <= w * z && x' * k <= x && z < z' * k + k
    ensures d * x' <= w * (z' + 1)
  {
    MulMono(x' * k, x, d);
    Assoc(d, x', k);
    Distribute(z', 1, k);
    MulMono(z, (z' + 1) * k, w);
    Assoc(w, z' + 1, k);
    MulCancel(d * x', w * (z' + 1), k);
  }

  /** When `d` is within five halves of `n`, the power is small beside `ann`. */
  lemma SmallPower(c: Totals, d: nat)
    requires Ok(c) && c.n >= 3 && c.n + 1 <= d <= c.s && 2 * d < 5 * c.n
    ensures (2 * (c.n + 1)) * Pow(d, c.n) <= (c.ann - 1) * c.k
  {
    var n := c.n;
    MulMono(d - n + 1, c.p, c.nn);
    if n == 3 {
      PowSmall(3); PowSmall(d);
      assert (8 * (d * d * d)) <= 26 * (27 * (d - 2));
      MulMono(27 * (d - 2), c.k, 26);
      MulMono(26, c.ann - 1, c.k);
    } else {
      SmallPowerMany(c, d);
    }
  }

  lemma SmallPowerMany(c: Totals, d: nat)
    requires Ok(c) && c.n >= 4 && 2 * d < 5 * c.n && c.p >= 2
    ensures (2 * (c.n + 1)) * Pow(d, c.n) <= (c.ann - 1) * c.k
  {
    var n := c.n;
    SelfPowBeatsFive(n);
    PowMono(2 * d, 5 * n, n);
    PowProduct(2, d, n);
    PowProduct(5, n, n);
    PowPositive(2, n);
    SmallPowerScale(n, c.nn, Pow(2, n), Pow(5, n), Pow(d, n));
    SmallPowerTotal(c.nn, c.ann, c.p);
  }

  lemma SmallPowerTotal(nn: nat, a: nat, p: nat)
    requires nn >= 1 && p >= 2 && a >= nn
    ensures 2 * ((nn - 1) * nn) <= (a - 1) * (nn * p)
  {
    MulMono(nn - 1, a - 1, nn);
    MulMono(2, p, (a - 1) * nn);
    Assoc(a - 1, nn, p);
  }

  lemma SmallPowerScale(n: nat, nn: nat, t: nat, f: nat, e: nat)
    requires t >= 1 && nn >= 1
    requires t * e <= f * nn
    requires (n + 1) * f <= t * (nn - 1)
    ensures (2 * (n + 1)) * e <= 2 * ((nn - 1) * nn)
  {
    var m := n + 1;
    MulMono(t * e, f * nn, m);
    Assoc(m, e, t);
    Assoc(m, f, nn);
    MulMono(m * f, t * (nn - 1), nn);
    Assoc(t, nn - 1, nn);
    MulCancel(m * e, (nn - 1) * nn, t);
    Assoc(2, m, e);
  }

  /** What leaving `d` downwards by one unit costs, for every `d` the iteration can be at. */
  lemma DownwardSlope(c: Totals, d: nat)
    requires Ok(c) && c.n + 1 <= d <= c.s
    ensures d * (P(c, d - 1) + P(c, d - 2)) + 2 * ((c.n + 1) * P(c, d)) <= (c.ann - 1) * d + 2 * (d * P(c, d))
  {
    if 2 * d >= 5 * c.n {
      DownwardSmooth(c, d);
    } else if c.n >= 3 {
      SmallTerm(c, d);
      DownwardSmall(c, d);
    } else {
      DownwardPair(c, d);
    }
  }

  lemma DownwardSmooth(c: Totals, d: nat)
    requires Shaped(c) && c.n + 1 <= d && 2 * d >= 5 * c.n
    ensures d * (P(c, d - 1) + P(c, d - 2)) + 2 * ((c.n + 1) * P(c, d)) <= (c.ann - 1) * d + 2 * (d * P(c, d))
  {
    var x, y, z := Pow(d - 1, c.n + 1), Pow(d - 2, c.n + 1), Pow(d, c.n + 1);
    FloorBounds(x, c.k); FloorBounds(y, c.k); FloorBounds(z, c.k);
    PowersBelow(d, c.n);
    FlooredBelow(d, c.n + 1, c.k, x, y, z, P(c, d - 1), P(c, d - 2), P(c, d), c.ann - 1);
  }

  lemma DownwardSmall(c: Totals, d: nat)
    requires Shaped(c) && 2 <= d
    requires 2 * ((c.n + 1) * P(c, d)) <= (c.ann - 1) * d
    ensures d * (P(c, d - 1) + P(c, d - 2)) + 2 * ((c.n + 1) * P(c, d)) <= (c.ann - 1) * d + 2 * (d * P(c, d))
  {
    ErrorIncreases(c, d - 1, d);
    ErrorIncreases(c, d - 2, d);
    SmallTotal(d, P(c, d - 1), P(c, d - 2), P(c, d), (c.n + 1) * P(c, d), c.ann - 1);
  }

  lemma SmallTotal(d: nat, x: nat, y: nat, z: nat, mz: nat, a: nat)
    requires x <= z && y <= z && 2 * mz <= a * d
    ensures d * (x + y) + 2 * mz <= a * d + 2 * (d * z)
  {
    MulMono(x + y, 2 * z, d);
    Assoc(2, z, d);
  }

  lemma SmallTerm(c: Totals, d: nat)
    requires Ok(c) && 3 <= c.n && c.n + 1 <= d <= c.s && 2 * d < 5 * c.n
    ensures 2 * ((c.n + 1) * P(c, d)) <= (c.ann - 1) * d
  {
    SmallPower(c, d);
    FloorBounds(Pow(d, c.n + 1), c.k);
    SmallSlope(d, c.n + 1, c.k, c.ann - 1, P(c, d), Pow(d, c.n));
  }

  lemma SmallSlope(d: nat, m: nat, k: nat, a: nat, z': nat, e: nat)
    requires k > 0
    requires z' * k <= d * e
    requires (2 * m) * e <= a * k
    ensures 2 * (m * z') <= a * d
  {
    MulMono(z' * k, d * e, 2 * m);
    MulMono((2 * m) * e, a * k, d);
    Assoc(2 * m, z', k); Assoc(2, m, z');
    Assoc(2 * m, e, d);
    Assoc(a, k, d);
    MulCancel(2 * (m * z'), a * d, k);
  }

  /** The two-asset pools the smooth estimates do not reach. */
  lemma DownwardPair(c: Totals, d: nat)
    requires Ok(c) && c.n == 2 && 3 <= d <= 4 && d <= c.s
    ensures d * (P(c, d - 1) + P(c, d - 2)) + 2 * ((c.n + 1) * P(c, d)) <= (c.ann - 1) * d + 2 * (d * P(c, d))
  {
    PowSmall(1); PowSmall(2); PowSmall(3);
    assert c.k >= 4 * (d - 1);
    if d == 3 {
      FloorAntitone(8, 8, c.k); FloorAntitone(1, 8, c.k);
      assert P(c, 2) <= 1 && P(c, 1) == 0;
    } else {
      FloorAntitone(8, 12, c.k); FloorAntitone(27, 12, c.k);
      assert P(c, 2) == 0 && P(c, 3) <= 2;
    }
  }

  /** What leaving `m` upwards by one unit costs. */
  lemma UpwardSlope(c: Totals, m: nat)
    requires Ok(c) && c.n <= m && c.p >= 2
    ensures (P(c, m + 1) - P(c, m)) * m < (c.ann - 1) * m + 2 * ((c.n + 1) * P(c, m))
  {
    if m >= 2 * c.n {
      UpwardSmooth(c, m);
    } else if c.n >= 3 {
      UpwardSmall(c, m);
      UpwardSmallSlope(m, P(c, m + 1), P(c, m), c.ann - 1, (c.n + 1) * P(c, m));
    } else {
      UpwardPair(c, m);
    }
  }

  lemma UpwardSmallSlope(m: nat, x: nat, z: nat, a: nat, mz: nat)
    requires m >= 1 && x < a
    ensures (x - z) * m < a * m + 2 * mz
  {
    MulMono(x - z + 1, a, m);
    Distribute(x - z, 1, m);
  }

  lemma UpwardSmooth(c: Totals, m: nat)
    requires Shaped(c) && m >= 2 * c.n
    ensures (P(c, m + 1) - P(c, m)) * m < (c.ann - 1) * m + 2 * ((c.n + 1) * P(c, m))
  {
    var x, z := Pow(m + 1, c.n + 1), Pow(m, c.n + 1);
    FloorBounds(x, c.k); FloorBounds(z, c.k);
    Above(m, c.n + 1);
    UpwardCore(m, c.n + 1, c.k, x, z, P(c, m + 1), P(c, m), c.ann - 1);
  }

  lemma UpwardCore(m: nat, e: nat, k: nat, x: nat, z: nat, x': nat, z': nat, a: nat)
    requires k > 0 && a >= 3 && m >= 1 && e <= m
    requires m * x <= z * (m + 2 * e)
    requires x' * k <= x && z < z' * k + k
    ensures (x' - z') * m < a * m + 2 * (e * z')
  {
    UpwardScale(m, m + 2 * e, k, x, z, x', z');
    UpwardExpand(m, e, z');
    Distribute(x' - z', z', m);
    MulMono(3, a, m);
  }

  lemma UpwardExpand(m: nat, e: nat, z: nat)
    ensures (z + 1) * (m + 2 * e) == z * m + 2 * (e * z) + m + 2 * e
  {
    Distribute(z, 1, m + 2 * e);
    Distribute(m, 2 * e, z);
    Assoc(2, e, z);
  }

  lemma UpwardScale(m: nat, w: nat, k: nat, x: nat, z: nat, x': nat, z': nat)
    requires w > 0 && m * x <= z * w && x' * k <= x && z < z' * k + k
    ensures x' * m < (z' + 1) * w
  {
    MulMono(x' * k, x, m);
    Assoc(x', k, m);
    Distribute(z', 1, k);
    MulMono(z + 1, (z' + 1) * k, w);
    Distribute(z, 1, w);
    Assoc(z' + 1, k, w);
    MulCancelStrict(x' * m, (z' + 1) * w, k);
  }

  lemma UpwardSmall(c: Totals, m: nat)
    requires Ok(c) && 3 <= c.n <= m < 2 * c.n && c.p >= 2
    ensures P(c, m + 1) < c.ann - 1
  {
    var n := c.n;
    PowMono(m + 1, 2 * n, n + 1);
    PowProduct(2, n, n);
    SelfPowBeatsTwo(n);
    FloorBounds(Pow(m + 1, n + 1), c.k);
    UpwardSmallCore(n, c.nn, c.ann, c.p, Pow(2, n), Pow(2 * n, n + 1), P(c, m + 1));
  }

  lemma UpwardSmallCore(n: nat, nn: nat, a: nat, p: nat, t: nat, x: nat, x': nat)
    requires nn >= 1 && a >= nn && p >= 2
    requires x == (2 * n) * (t * nn)
    requires n * t < nn - 1
    requires x' * (nn * p) <= x
    ensures x' < a - 1
  {
    MulSwap(2, n, nn, t);
    MulMono(n * t + 1, nn - 1, 2 * nn);
    Distribute(n * t, 1, 2 * nn);
    Assoc(2, nn - 1, nn);
    SmallPowerTotal(nn, a, p);
    MulCancelStrict(x', a - 1, nn * p);
  }

  lemma UpwardPair(c: Totals, m: nat)
    requires Ok(c) && c.n == 2 && 2 <= m <= 3 && c.p >= 2
    ensures (P(c, m + 1) - P(c, m)) * m < (c.ann - 1) * m + 2 * ((c.n + 1) * P(c, m))
  {
    PowSmall(2); PowSmall(3); PowSmall(4);
    assert c.k == 4 * c.p;
    if c.p >= 6 {
      FloorAntitone(27, 24, c.k); FloorAntitone(64, 24, c.k);
    } else {
      assert c.k in {8, 12, 16, 20};
    }
  }

  // ---- The Newton iteration -----------------------------------------------

  /** The iterates: no smaller than `n` and the floor of the real root, no larger than the sum. */
  ghost predicate Reach(c: Totals, d: nat) {
    c.n <= d <= c.s && G(c, d + 1) > 0
  }

  lemma StartFromSum(c: Totals)
    requires Ok(c)
    ensures F(c, c.s) >= 0 && Reach(c, c.s)
  {
    var s := c.s;
    MulMono(c.k, Pow(s, c.n), s);
    FloorAtLeast(Pow(s, c.n + 1), c.k, s);
    Distribute(c.ann - 1, 1, s);
    ErrorIncreases(c, s, s + 1);
    ErrorIsFlooredCurve(c, s + 1);
  }

  lemma RootAboveCount(c: Totals)
    requires Ok(c)
    ensures G(c, c.n) <= 0 && F(c, c.n) <= 0
  {
    assert Pow(c.n, c.n + 1) == c.n * c.nn;
    RootAboveCore(c.n, c.nn, c.ann, c.s, c.k);
    ErrorIsFlooredCurve(c, c.n);
  }

  lemma RootAboveCore(n: nat, nn: nat, a: nat, s: nat, k: nat)
    requires a >= 1 && n <= s && nn <= k
    ensures ((a - 1) * n - a * s) * k + n * nn <= 0
  {
    Distribute(a - 1, 1, n);
    MulMono(n, s, a);
    MulMono(nn, k, n);
    MulMono((a - 1) * n - a * s, 0 - n, k);
  }

  lemma LandingDown(c: Totals, d: nat)
    requires Ok(c) && c.n + 1 <= d <= c.s
    requires F(c, d) * d <= Den(c, d)
    ensures F(c, d - 1) + F(c, d - 2) <= 0
  {
    DownwardSlope(c, d);
    ErrorDifference(c, d, 1);
    ErrorDifference(c, d, 2);
    LandingDownCore(d, F(c, d), c.ann - 1, P(c, d - 1), P(c, d - 2), P(c, d), (c.n + 1) * P(c, d));
  }

  lemma LandingDownCore(d: nat, f: int, b: nat, x: nat, y: nat, z: nat, mz: nat)
    requires d >= 1
    requires f * d <= b * d + mz
    requires d * (x + y) + 2 * mz <= b * d + 2 * (d * z)
    ensures 2 * f - 3 * b - 2 * z + x + y <= 0
  {
    var t := 2 * f - 3 * b - 2 * z + x + y;
    assert t * d == 2 * (f * d) - 3 * (b * d) - 2 * (d * z) + d * (x + y);
    if t > 0 { MulMono(1, t, d); }
  }

  lemma LandingUp(c: Totals, d: nat)
    requires Ok(c) && c.n <= d && c.p >= 2
    ensures -F(c, d) * d >= Den(c, d) ==> F(c, d + 1) + F(c, d) <= 0
    ensures F(c, d + 1) >= 0 ==> -F(c, d) * d < 2 * Den(c, d)
  {
    UpwardSlope(c, d);
    ErrorDifference(c, d + 1, 1);
    LandingUpCore(d, F(c, d), c.ann - 1, P(c, d + 1) - P(c, d), (c.n + 1) * P(c, d));
  }

  lemma LandingUpCore(d: nat, f: int, b: nat, r: int, mz: nat)
    requires d >= 1
    requires r * d < b * d + 2 * mz
    ensures -f * d >= b * d + mz ==> 2 * f + b + r <= 0
    ensures f + b + r >= 0 ==> -f * d < 2 * (b * d + mz)
  {
    var t := 2 * f + b + r;
    assert t * d == 2 * (f * d) + b * d + r * d;
    if t > 0 { MulMono(1, t, d); }
    if f + b + r >= 0 {
      MulMono(-f, b + r, d);
      Distribute(b, r, d);
    }
  }

  /** Where a Newton step leads: never below the floor of the real root, never up
      by more than one unit, and within one unit only once the error can no longer
      fall by going further down. */
  lemma NewtonStep(c: Totals, d: nat)
    requires Ok(c) && Reach(c, d)
    ensures var e := Step(c, d);
      && e >= c.n && G(c, e + 1) > 0 && e <= d + 1
      && (e < d - 1 ==> Reach(c, e))
      && (e >= d - 1 ==> F(c, e) + F(c, e - 1) <= 0)
  {
    var e := Step(c, d);
    RootAboveCount(c);
    StepStaysAbove(c, d, c.n);
    if G(c, e + 1) <= 0 { StepStaysAbove(c, d, e + 1); }
    StepSize(c, d);
    ErrorIsFlooredCurve(c, d + 1);
    if F(c, d) >= 0 {
      if e == d - 1 {
        LandingDown(c, d);
      } else if e == d {
        ErrorIncreases(c, d - 1, d);
      }
    } else {
      BelowRootIsUneven(c, d);
      LandingUp(c, d);
      ErrorIncreases(c, d - 1, d);
    }
  }

  lemma BelowRootIsUneven(c: Totals, d: nat)
    requires Ok(c) && Reach(c, d) && F(c, d) < 0
    ensures c.p >= 2
  {
    if c.p < 2 { StartFromSum(c); }
  }

  /** The value at which the Newton loop stops when it stands at `d`. */
  function NewtonFrom(c: Totals, d: nat): (e: nat)
    requires Ok(c) && Reach(c, d)
    ensures e >= c.n && F(c, e) + F(c, e - 1) <= 0
    decreases d
  {
    NewtonStep(c, d);
    var e := Step(c, d);
    if e >= d - 1 then e else NewtonFrom(c, e)
  }

  // ---- Fine tuning --------------------------------------------------------

  /** The value at which the tuning loop stops when it stands at `d`. */
  function TuneFrom(c: Totals, d: nat): (e: nat)
    requires Shaped(c)
    ensures d <= e && Err(c, e) <= Err(c, e + 1)
    ensures e > d ==> Err(c, e) < Err(c, e - 1)
    decreases Err(c, d)
  {
    if Err(c, d + 1) < Err(c, d) then TuneFrom(c, d + 1) else d
  }

  /** The invariant value `CalculateInvariant` computes. */
  function Invariant(c: Totals): nat
    requires Ok(c)
  {
    StartFromSum(c);
    TuneFrom(c, NewtonFrom(c, c.s))
  }

  ghost predicate IsMinimiser(c: Totals, d: nat)
    requires Shaped(c)
  {
    forall e: nat :: Err(c, d) <= Err(c, e)
  }

  /** The error is V-shaped, so a local minimum is a global one. */
  lemma LocalMinimumIsGlobal(c: Totals, d: nat)
    requires Shaped(c) && d >= 1
    ensures Err(c, d - 1) >= Err(c, d) && Err(c, d + 1) >= Err(c, d) <==> IsMinimiser(c, d)
  {
    if Err(c, d - 1) >= Err(c, d) && Err(c, d + 1) >= Err(c, d) {
      ErrorIncreases(c, d - 1, d);
      ErrorIncreases(c, d, d + 1);
      forall e: nat ensures Err(c, d) <= Err(c, e) {
        if e < d - 1 { ErrorIncreases(c, e, d - 1); }
        if e > d + 1 { ErrorIncreases(c, d + 1, e); }
      }
    }
  }

  /** For every pool the computed invariant has the least error of all natural numbers. */
  lemma InvariantIsMinimiser(c: Totals)
    requires Ok(c)
    ensures Invariant(c) >= c.n && IsMinimiser(c, Invariant(c))
  {
    StartFromSum(c);
    var d := NewtonFrom(c, c.s);
    ErrorIncreases(c, d - 1, d);
    LocalMinimumIsGlobal(c, Invariant(c));
  }

  /** A value strictly better than both its neighbours is the one that is computed. */
  lemma StrictMinimumIsComputed(c: Totals, d: nat)
    requires Ok(c) && d >= 1 && Err(c, d) < Err(c, d - 1) && Err(c, d) < Err(c, d + 1)
    ensures Invariant(c) == d
  {
    InvariantIsMinimiser(c);
    var e := Invariant(c);
    assert Err(c, e) <= Err(c, d);
    ErrorIncreases(c, d - 1, d);
    ErrorIncreases(c, d, d + 1);
    if e < d - 1 { ErrorIncreases(c, e, d - 1); }
    if e > d + 1 { ErrorIncreases(c, d + 1, e); }
  }

  // ---- The functions of the source ----------------------------------------

  function ErrorFromTotals(n: nat, ann: nat, nnProd: nat, annSum: nat, d: nat): nat
    requires nnProd > 0
  {
    var right := d * ann + Pow(d, n + 1) / nnProd;
    var left := annSum + d;
    if right > left then right - left else left - right
  }

  function ErrorFromBalances(n: nat, ann: nat, b: seq<nat>, d: nat): nat
    requires Pow(n, n) * Prod(b) > 0
  {
    ErrorFromTotals(n, ann, Pow(n, n) * Prod(b), ann * Sum(b), d)
  }

  /** The source subtracts one unit from `d` and aborts when it cannot. */
  predicate CheckInvariantExtremum(n: nat, ann: nat, b: seq<nat>, d: nat)
    requires Pow(n, n) * Prod(b) > 0 && d >= 1
  {
    var errEq := ErrorFromBalances(n, ann, b, d);
    && ErrorFromBalances(n, ann, b, d - 1) >= errEq
    && ErrorFromBalances(n, ann, b, d + 1) >= errEq
  }

  lemma ErrorIsAbsolute(c: Totals, d: nat)
    requires Shaped(c)
    ensures ErrorFromTotals(c.n, c.ann, c.k, c.t, d) == Err(c, d)
  {
    Distribute(c.ann - 1, 1, d);
  }

  /** The extremum check accepts exactly the global minimisers of the error. */
  lemma ExtremumCheckIsExact(b: seq<nat>, ampl: nat, d: nat)
    requires Tradable(b) && ampl >= 1 && d >= 1
    ensures Pow(|b|, |b|) * Prod(b) > 0
    ensures var ann := ampl * Pow(|b|, |b|);
      CheckInvariantExtremum(|b|, ann, b, d)
      <==> forall e: nat :: ErrorFromBalances(|b|, ann, b, d) <= ErrorFromBalances(|b|, ann, b, e)
  {
    var c := TotalsOf(b, ampl);
    forall e: nat ensures ErrorFromBalances(|b|, c.ann, b, e) == Err(c, e) { ErrorIsAbsolute(c, e); }
    LocalMinimumIsGlobal(c, d);
  }

  /** The step as the source writes it, with two floored divisions. */
  lemma SourceStep(c: Totals, d: nat)
    requires Ok(c) && d >= 1
    ensures Pow(d, c.n + 1) / c.nn / c.p == P(c, d)
  {
    FloorFloor(Pow(d, c.n + 1), c.nn, c.p);
  }

  method NewtonRaphson(n: nat, nn: nat, ann: nat, s: nat, p: nat, ghost c: Totals) returns (d: nat)
    requires Ok(c) && Reach(c, s)
    requires c.n == n && c.nn == nn && c.ann == ann && c.s == s && c.p == p
    ensures d == NewtonFrom(c, s)
  {
    d := s;
    var absDError := d;
    while absDError > 1
      invariant absDError > 1 ==> Reach(c, d) && NewtonFrom(c, d) == NewtonFrom(c, s)
      invariant absDError <= 1 ==> d == NewtonFrom(c, s)
      decreases if absDError > 1 then d + 1 else 0
    {
      var dPrevious := d;
      SourceStep(c, dPrevious);
      NewtonStep(c, dPrevious);
      var dP := Pow(dPrevious, n + 1) / nn / p;
      assert Den(c, dPrevious) == (ann - 1) * dPrevious + (n + 1) * dP;
      assert Num(c, dPrevious) == (ann * s + n * dP) * dPrevious;
      d := (ann * s + n * dP) * dPrevious / ((ann - 1) * dPrevious + (n + 1) * dP);
      absDError := if d >= dPrevious then d - dPrevious else dPrevious - d;
    }
  }

  method FineTune(n: nat, ann: nat, nnTotalProd: nat, annTotalSum: nat, start: nat, ghost c: Totals) returns (d: nat)
    requires Shaped(c) && start >= 1
    requires c.n == n && c.ann == ann && c.k == nnTotalProd && c.t == annTotalSum
    ensures d == TuneFrom(c, start)
  {
    d := start;
    forall e: nat ensures ErrorFromTotals(n, ann, nnTotalProd, annTotalSum, e) == Err(c, e) { ErrorIsAbsolute(c, e); }
    var invErr := ErrorFromTotals(n, ann, nnTotalProd, annTotalSum, d);
    var invErrUpper := ErrorFromTotals(n, ann, nnTotalProd, annTotalSum, d + 1);
    var invErrLower := ErrorFromTotals(n, ann, nnTotalProd, annTotalSum, d - 1);
    if !(invErr < invErrUpper && invErr < invErrLower) {
      var invErrPrevious := invErr + 1;
      while invErr < invErrPrevious
        invariant d >= 1 && invErr == Err(c, d)
        invariant invErr < invErrPrevious ==> TuneFrom(c, d) == TuneFrom(c, start)
        invariant invErr >= invErrPrevious ==> d - 1 == TuneFrom(c, start)
        decreases invErrPrevious
      {
        invErrPrevious := invErr;
        d := d + 1;
        invErr := ErrorFromTotals(n, ann, nnTotalProd, annTotalSum, d);
      }
      d := d - 1;
    }
  }

  /** `calculate_invariant`: Newton-Raphson from the sum of the balances, then fine tuning. */
  method CalculateInvariant(balances: seq<nat>, nAssets: nat, ampl: nat) returns (d: nat)
    requires |balances| == nAssets && Tradable(balances) && ampl >= 1
    ensures d >= nAssets && d == Invariant(TotalsOf(balances, ampl))
    ensures Pow(nAssets, nAssets) * Prod(balances) > 0
    ensures CheckInvariantExtremum(nAssets, ampl * Pow(nAssets, nAssets), balances, d)
    ensures forall e: nat :: ErrorFromBalances(nAssets, ampl * Pow(nAssets, nAssets), balances, d)
                          <= ErrorFromBalances(nAssets, ampl * Pow(nAssets, nAssets), balances, e)
  {
    ghost var c := TotalsOf(balances, ampl);
    StartFromSum(c);
    var nn := Pow(nAssets, nAssets);
    var ann := ampl * nn;
    var s, p := Sum(balances), Prod(balances);
    d := NewtonRaphson(nAssets, nn, ann, s, p, c);
    d := FineTune(nAssets, ann, nn * p, ann * s, d, c);
    InvariantOfBalances(balances, ampl);
    ComputedPassesCheck(balances, ampl);
  }

  /** No natural number comes closer to the invariant equation than the computed value. */
  lemma InvariantOfBalances(b: seq<nat>, ampl: nat)
    requires Tradable(b) && ampl >= 1
    ensures Pow(|b|, |b|) * Prod(b) > 0
    ensures var ann, d := ampl * Pow(|b|, |b|), Invariant(TotalsOf(b, ampl));
      forall e: nat :: ErrorFromBalances(|b|, ann, b, d) <= ErrorFromBalances(|b|, ann, b, e)
  {
    var c := TotalsOf(b, ampl);
    InvariantIsMinimiser(c);
    forall e: nat ensures ErrorFromBalances(|b|, c.ann, b, e) == Err(c, e) { ErrorIsAbsolute(c, e); }
  }

  /** A computed invariant passes the extremum check. */
  lemma ComputedPassesCheck(b: seq<nat>, ampl: nat)
    requires Tradable(b) && ampl >= 1
    ensures Pow(|b|, |b|) * Prod(b) > 0 && Invariant(TotalsOf(b, ampl)) >= |b|
    ensures CheckInvariantExtremum(|b|, ampl * Pow(|b|, |b|), b, Invariant(TotalsOf(b, ampl)))
  {
    InvariantIsMinimiser(TotalsOf(b, ampl));
    InvariantOfBalances(b, ampl);
    ExtremumCheckIsExact(b, ampl, Invariant(TotalsOf(b, ampl)));
  }

  // ---- Monotonicity and equal balances ------------------------------------

  ghost predicate AtMost(b: seq<nat>, b': seq<nat>) {
    |b| == |b'| && forall k :: 0 <= k < |b| ==> b[k] <= b'[k]
  }

  lemma {:induction false} TotalsMonotone(b: seq<nat>, b': seq<nat>)
    requires AtMost(b, b')
    ensures Sum(b) <= Sum(b') && Prod(b) <= Prod(b')
    ensures b != b' ==> Sum(b) < Sum(b')
  {
    if b != [] {
      TotalsMonotone(b[1..], b'[1..]);
      MulMono(b[0], b'[0], Prod(b[1..]));
      MulMono(Prod(b[1..]), Prod(b'[1..]), b'[0]);
      if b != b' && b[0] == b'[0] {
        assert b == [b[0]] + b[1..] && b' == [b'[0]] + b'[1..];
      }
    }
  }

  lemma CurveMonotone(c: Totals, c': Totals, d: nat)
    requires Shaped(c) && Shaped(c')
    requires c'.n == c.n && c'.ann == c.ann && c.k <= c'.k && c.t + c.ann <= c'.t
    ensures F(c', d) + c.ann <= F(c, d)
  {
    FloorAntitone(Pow(d, c.n + 1), c.k, c'.k);
  }

  /** Minimisers follow the curve when the curve moves down. */
  lemma MinimisersFollow(c: Totals, c': Totals, d: nat, d': nat)
    requires Shaped(c) && Shaped(c')
    requires c'.n == c.n && c'.ann == c.ann && c.k <= c'.k && c.t + c.ann <= c'.t
    requires IsMinimiser(c, d) && IsMinimiser(c', d')
    ensures d <= d'
  {
    if d' < d {
      assert Err(c, d) <= Err(c, d - 1);
      assert Err(c', d') <= Err(c', d' + 1);
      ErrorIncreases(c, d - 1, d);
      CurveMonotone(c, c', d - 1);
      CurveMonotone(c, c', d);
      // going up from d' by one unit still lowers the error of c'
      if d' < d - 1 { ErrorIncreases(c', d', d - 1); ErrorIncreases(c', d' + 1, d); }
      ErrorIncreases(c', d', d' + 1);
    }
  }

  /** With one balance strictly larger, every minimiser is at least as large as every old one. */
  lemma MinimisersOrdered(b: seq<nat>, b': seq<nat>, ampl: nat, d: nat, d': nat)
    requires Tradable(b) && Tradable(b') && AtMost(b, b') && b != b' && ampl >= 1
    requires IsMinimiser(TotalsOf(b, ampl), d) && IsMinimiser(TotalsOf(b', ampl), d')
    ensures d <= d'
  {
    TotalsMonotone(b, b');
    TotalsOrdered(TotalsOf(b, ampl), TotalsOf(b', ampl));
    MinimisersFollow(TotalsOf(b, ampl), TotalsOf(b', ampl), d, d');
  }

  lemma TotalsOrdered(c: Totals, c': Totals)
    requires Ok(c) && Ok(c') && c.nn == c'.nn && c.ann == c'.ann
    requires c.p <= c'.p && c.s < c'.s
    ensures c.k <= c'.k && c.t + c.ann <= c'.t
  {
    MulMono(c.p, c'.p, c.nn);
    MulMono(c.s + 1, c'.s, c.ann);
    Distribute(c.s, 1, c.ann);
  }

  /** Raising balances never lowers the invariant. */
  lemma InvariantMonotone(b: seq<nat>, b': seq<nat>, ampl: nat)
    requires Tradable(b) && Tradable(b') && AtMost(b, b') && ampl >= 1
    ensures Invariant(TotalsOf(b, ampl)) <= Invariant(TotalsOf(b', ampl))
  {
    if b != b' {
      InvariantIsMinimiser(TotalsOf(b, ampl));
      InvariantIsMinimiser(TotalsOf(b', ampl));
      MinimisersOrdered(b, b', ampl, Invariant(TotalsOf(b, ampl)), Invariant(TotalsOf(b', ampl)));
    }
  }

  lemma {:induction false} EqualTotals(b: seq<nat>, x: nat)
    requires forall k :: 0 <= k < |b| ==> b[k] == x
    ensures Sum(b) == |b| * x && Prod(b) == Pow(x, |b|)
  {
    if b != [] {
      EqualTotals(b[1..], x);
      Distribute(|b| - 1, 1, x);
    }
  }

  lemma SumIsRoot(c: Totals)
    requires Ok(c) && Pow(c.s, c.n) == c.k
    ensures Invariant(c) == c.s
  {
    Distribute(c.s, 1, c.k);
    FloorIs(Pow(c.s, c.n + 1), c.k, c.s);
    Distribute(c.ann - 1, 1, c.s);
    StartFromSum(c);
    StepSize(c, c.s);
    assert NewtonFrom(c, c.s) == c.s;
  }

  /** Equal balances give exactly their sum. */
  lemma EqualBalances(b: seq<nat>, x: nat, ampl: nat)
    requires |b| >= 2 && x >= 1 && ampl >= 1
    requires forall k :: 0 <= k < |b| ==> b[k] == x
    ensures Invariant(TotalsOf(b, ampl)) == |b| * x
  {
    EqualTotals(b, x);
    PowProduct(|b|, x, |b|);
    SumIsRoot(TotalsOf(b, ampl));
  }
}

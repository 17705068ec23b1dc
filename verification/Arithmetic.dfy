/** Powers of natural numbers and the inequalities about them that the
    StableSwap proofs rest on. */
module Arithmetic {

  function Pow(b: nat, e: nat): nat {
    if e == 0 then 1 else b * Pow(b, e - 1)
  }

  // ---- Products -----------------------------------------------------------

  lemma MulMono(a: int, b: int, c: nat)
    requires a <= b
    ensures a * c <= b * c
  {
  }

  lemma MulCancel(a: int, b: int, c: nat)
    requires c > 0 && a * c <= b * c
    ensures a <= b
  {
    if b < a {
      MulMono(b + 1, a, c);
      Distribute(b, 1, c);
    }
  }

  lemma MulCancelStrict(a: int, b: int, c: nat)
    requires a * c < b * c
    ensures a < b
  {
    if b <= a { MulMono(b, a, c); }
  }

  lemma Distribute(a: int, b: int, c: int)
    ensures (a + b) * c == a * c + b * c
  {
  }

  lemma Assoc(a: int, b: int, c: int)
    ensures (a * b) * c == a * (b * c)
    ensures (a * b) * c == (a * c) * b
    ensures (a * b) * c == (b * c) * a
  {
  }

  lemma MulSwap(a: int, b: int, x: int, y: int)
    ensures (a * b) * (x * y) == (a * x) * (b * y)
  {
    calc {
      (a * b) * (x * y);
      a * (b * (x * y));
      a * ((b * x) * y);
      a * ((x * b) * y);
      a * (x * (b * y));
      (a * x) * (b * y);
    }
  }

  // ---- Floored division ---------------------------------------------------

  /** `q` is the floor of `x / k`. */
  lemma FloorIs(x: nat, k: nat, q: nat)
    requires k > 0
    requires q * k <= x < (q + 1) * k
    ensures x / k == q
  {
    FloorBounds(x, k);
    var r := x / k;
    if r < q { MulMono(r + 1, q, k); }
    if q < r { MulMono(q + 1, r, k); }
  }

  lemma FloorBounds(x: nat, k: nat)
    requires k > 0
    ensures (x / k) * k <= x < (x / k) * k + k
  {
    assert x == (x / k) * k + x % k;
  }

  function Quotient(x: nat, k: nat): nat
    requires k > 0
  {
    x / k
  }

  /** `q` is `x / k` rounded down; there is no such `q` unless `k` is positive. */
  ghost predicate IsFloor(q: int, x: int, k: int) {
    q * k <= x < q * k + k
  }

  lemma FloorExactly(q: nat, x: nat, k: nat)
    ensures IsFloor(q, x, k) <==> k > 0 && q == Quotient(x, k)
  {
    if k > 0 {
      FloorBounds(x, k);
      if IsFloor(q, x, k) {
        Distribute(q, 1, k);
        FloorIs(x, k, q);
      }
    }
  }

  lemma FloorAtLeast(x: nat, k: nat, y: nat)
    requires k > 0 && y * k <= x
    ensures x / k >= y
  {
    FloorBounds(x, k);
    if x / k < y { MulMono(x / k + 1, y, k); }
  }

  lemma FloorMono(x: nat, y: nat, k: nat)
    requires k > 0 && x <= y
    ensures x / k <= y / k
  {
    FloorBounds(x, k);
    FloorBounds(y, k);
    if y / k < x / k { MulMono(y / k + 1, x / k, k); }
  }

  /** A larger divisor gives a smaller quotient. */
  lemma FloorAntitone(x: nat, k: nat, l: nat)
    requires 0 < k <= l
    ensures x / l <= x / k
  {
    FloorBounds(x, k);
    FloorBounds(x, l);
    if x / k < x / l {
      MulMono(x / k + 1, x / l, k);
      MulMono(k, l, x / l);
    }
  }

  /** Two successive floors merge into one. */
  lemma FloorFloor(x: nat, a: nat, b: nat)
    requires a > 0 && b > 0
    ensures a * b > 0
    ensures x / a / b == x / (a * b)
  {
    var q := x / a;
    var r := q / b;
    FloorBounds(x, a);
    FloorBounds(q, b);
    MulMono(r * b, q, a);
    MulMono(q + 1, r * b + b, a);
    Distribute(q, 1, a);
    Distribute(r * b, b, a);
    Assoc(r, b, a);
    MulMono(1, a, b);
    Distribute(r, 1, a * b);
    FloorIs(x, a * b, r);
  }

  // ---- Powers -------------------------------------------------------------

  lemma {:induction false} PowPositive(b: nat, e: nat)
    requires b >= 1
    ensures Pow(b, e) >= 1
  {
    if e > 0 { PowPositive(b, e - 1); }
  }

  lemma {:induction false} PowMono(a: nat, b: nat, e: nat)
    requires a <= b
    ensures Pow(a, e) <= Pow(b, e)
  {
    if e > 0 {
      PowMono(a, b, e - 1);
      MulMono(a, b, Pow(a, e - 1));
      MulMono(Pow(a, e - 1), Pow(b, e - 1), b);
    }
  }

  lemma {:induction false} PowProduct(a: nat, b: nat, e: nat)
    ensures Pow(a * b, e) == Pow(a, e) * Pow(b, e)
  {
    if e > 0 {
      PowProduct(a, b, e - 1);
      MulSwap(a, b, Pow(a, e - 1), Pow(b, e - 1));
    }
  }

  lemma PowSmall(b: nat)
    ensures Pow(b, 0) == 1 && Pow(b, 1) == b && Pow(b, 2) == b * b
    ensures Pow(b, 3) == b * b * b && Pow(b, 4) == b * b * b * b
  {
    assert Pow(b, 1) == b * Pow(b, 0);
    assert Pow(b, 2) == b * Pow(b, 1);
    assert Pow(b, 3) == b * Pow(b, 2);
    assert Pow(b, 4) == b * Pow(b, 3);
  }

  // ---- Convexity ----------------------------------------------------------

  lemma SquareOfDifference(u: int, v: int)
    ensures u * u + v * v - 2 * (u * v) >= 0
  {
    var w := u - v;
    assert w * w >= 0;
    Distribute(u, 0 - v, w);
    assert w * w == u * u - u * v - v * u + v * v;
  }

  lemma TangentStep(v: nat, u: nat, x: nat, y: nat, m: nat)
    requires m >= 1
    requires x + (m - 1) * (u * y) >= m * (v * y)
    ensures v * x + m * (u * (u * y)) >= (m + 1) * (v * (u * y))
  {
    var a, b, z := u * y, v * y, m * y;
    MulMono(m * b, x + (m - 1) * a, v);
    Distribute(x, (m - 1) * a, v);
    Assoc(m, b, v); Assoc(m - 1, a, v);
    Assoc(u, y, v);
    SquareOfDifference(u, v);
    MulMono(0, u * u + v * v - 2 * (u * v), z);
    TangentExpand(u, v, y, m);
    Distribute(m, 1, v * a);
    Distribute(m - 1, 1, v * a);
  }

  lemma TangentExpand(u: nat, v: nat, y: nat, m: nat)
    ensures (u * u + v * v - 2 * (u * v)) * (m * y) == m * (u * (u * y)) + m * (v * (v * y)) - 2 * (m * (v * (u * y)))
  {
    var z := m * y;
    Distribute(u * u, v * v - 2 * (u * v), z);
    Distribute(v * v, 0 - 2 * (u * v), z);
    Assoc(2, u * v, z);
    MulSwap(u, u, m, y); Assoc(u, m, u * y); Assoc(m, u, u * y);
    MulSwap(v, v, m, y); Assoc(m, v, v * y);
    MulSwap(v, u, m, y); Assoc(m, v, u * y);
  }

  /** The power curve lies above its tangent at `u`. */
  lemma {:induction false} Tangent(v: nat, u: nat, m: nat)
    ensures Pow(v, m + 1) + m * Pow(u, m + 1) >= (m + 1) * (v * Pow(u, m))
  {
    if m > 0 {
      Tangent(v, u, m - 1);
      assert Pow(u, m + 1) == u * (u * Pow(u, m - 1));
      TangentStep(v, u, Pow(v, m), Pow(u, m - 1), m);
    } else {
      PowSmall(v);
    }
  }

  // ---- Upper bounds for neighbouring powers -------------------------------

  lemma BelowIdentity(d: int, j: int, n: int, q: int, q': int)
    requires q == 2 * (d * d) - 2 * (n * (j * d)) + (n * (n - 1)) * (j * j)
    requires q' == q - 2 * (j * d) + 2 * (n * (j * j))
    ensures d * q' - (d - j) * q == (n * (n - 1)) * (j * (j * j))
  {
    var jj, jd, c := j * j, j * d, n * (n - 1);
    assert d * q' == d * q - 2 * (d * jd) + 2 * (d * (n * jj));
    assert (d - j) * q == d * q - j * q;
    assert j * q == 2 * (j * (d * d)) - 2 * (j * (n * jd)) + j * (c * jj);
    Assoc(j, d, d);
    Assoc(n, jj, d); Assoc(j, j, d); Assoc(n, jd, j);
    Assoc(c, jj, j);
  }

  lemma BelowLink(d: nat, j: nat, n: nat, q: int, q': int)
    requires q == 2 * (d * d) - 2 * (n * (j * d)) + (n * (n - 1)) * (j * j)
    requires q' == q - 2 * (j * d) + 2 * (n * (j * j))
    ensures (d - j) * q <= d * q'
  {
    BelowIdentity(d, j, n, q, q');
    assert n * (n - 1) >= 0;
    MulMono(0, n * (n - 1), j * (j * j));
  }

  lemma BoundsMultiply(p: int, x: int, y: nat, q: int, e: nat, d: int, q': int)
    requires p * x <= y * q && e * q <= d * q'
    ensures p * (e * x) <= (d * y) * q'
  {
    MulMono(p * x, y * q, e);
    MulMono(e * q, d * q', y);
    Assoc(p, x, e);
    Assoc(y, q, e);
    Assoc(d, q', y);
  }

  /** Second-order upper bound for a power a little below `d`. */
  lemma {:induction false} Below(d: nat, j: nat, n: nat)
    requires j <= d
    ensures (2 * (d * d)) * Pow(d - j, n)
         <= Pow(d, n) * (2 * (d * d) - 2 * (n * (j * d)) + (n * (n - 1)) * (j * j))
  {
    if n > 0 {
      Below(d, j, n - 1);
      var q := 2 * (d * d) - 2 * ((n - 1) * (j * d)) + ((n - 1) * (n - 2)) * (j * j);
      var q' := q - 2 * (j * d) + 2 * ((n - 1) * (j * j));
      BelowLink(d, j, n - 1, q, q');
      BoundsMultiply(2 * (d * d), Pow(d - j, n - 1), Pow(d, n - 1), q, d - j, d, q');
      assert q' == 2 * (d * d) - 2 * (n * (j * d)) + (n * (n - 1)) * (j * j) by {
        Distribute(n - 1, 1, j * d);
        assert (n - 1) * (n - 2) + 2 * (n - 1) == n * (n - 1);
        Distribute((n - 1) * (n - 2), 2 * (n - 1), j * j);
        Assoc(2, n - 1, j * j);
      }
    }
  }

  lemma AboveStep(m: nat, j: nat, x: nat, y: nat)
    requires 2 * j <= m
    requires m * x <= y * (m + 2 * j)
    ensures m * ((m + 1) * x) <= (m * y) * (m + 2 * (j + 1))
  {
    MulMono(m * x, y * (m + 2 * j), m + 1);
    Assoc(m, x, m + 1);
    assert (m + 2 * j) * (m + 1) == m * (m + 2 * j) + (m + 2 * j);
    assert m * (m + 2 * (j + 1)) == m * (m + 2 * j) + 2 * m;
    MulMono((m + 2 * j) * (m + 1), m * (m + 2 * (j + 1)), y);
    Assoc(y, m + 2 * j, m + 1);
    Assoc(m, m + 2 * (j + 1), y);
  }

  /** Upper bound for the power just above `m`, when `m` is large beside the exponent. */
  lemma {:induction false} Above(m: nat, j: nat)
    requires 2 * j <= m + 2
    ensures m * Pow(m + 1, j) <= Pow(m, j) * (m + 2 * j)
  {
    if j > 0 {
      Above(m, j - 1);
      AboveStep(m, j - 1, Pow(m + 1, j - 1), Pow(m, j - 1));
    }
  }

  // ---- Growth of n^n ------------------------------------------------------

  lemma SelfPowStep(n: nat)
    requires n >= 2
    ensures Pow(n, n) >= 4
    ensures Pow(n + 1, n + 1) - 1 >= (n + 1) * (Pow(n, n) - 1)
  {
    PowMono(2, n, n);
    PowGe4(n);
    PowMono(n, n + 1, n);
    MulMono(Pow(n, n), Pow(n + 1, n), n + 1);
  }

  lemma {:induction false} PowGe4(n: nat)
    requires n >= 2
    ensures Pow(2, n) >= 4
  {
    if n == 2 { PowSmall(2); } else { PowGe4(n - 1); }
  }

  lemma {:induction false} SelfPowBeatsTwo(n: nat)
    requires n >= 3
    ensures n * Pow(2, n) < Pow(n, n) - 1
  {
    if n == 3 {
      PowSmall(2); PowSmall(3);
    } else {
      SelfPowBeatsTwo(n - 1);
      SelfPowStep(n - 1);
      TwoStep(n, Pow(2, n - 1), Pow(n - 1, n - 1) - 1, Pow(n, n) - 1);
    }
  }

  lemma TwoStep(n: nat, t: nat, w: nat, w': nat)
    requires n >= 4 && (n - 1) * t < w && n * w <= w'
    ensures n * (2 * t) < w'
  {
    MulMono(2, n - 1, t);
    MulMono(2 * t + 1, w, n);
    Distribute(2 * t, 1, n);
  }

  lemma {:induction false} SelfPowBeatsFive(n: nat)
    requires n >= 4
    ensures (n + 1) * Pow(5, n) <= Pow(2, n) * (Pow(n, n) - 1)
  {
    if n == 4 {
      PowSmall(5); PowSmall(2); PowSmall(4);
    } else {
      SelfPowBeatsFive(n - 1);
      SelfPowStep(n - 1);
      var f, t, w := Pow(5, n - 1), Pow(2, n - 1), Pow(n - 1, n - 1) - 1;
      assert n * f <= t * w;
      assert Pow(5, n) == 5 * f && Pow(2, n) == 2 * t;
      FiveStep(n, f, t, w, Pow(n, n) - 1);
    }
  }

  lemma FiveStep(n: nat, f: nat, t: nat, w: nat, w': nat)
    requires n >= 5 && n * f <= t * w && n * w <= w'
    ensures (n + 1) * (5 * f) <= (2 * t) * w'
  {
    MulMono(5 * (n + 1), (2 * n) * n, f);
    MulMono(n * f, t * w, 2 * n);
    MulMono(n * w, w', 2 * t);
    Assoc(5, n + 1, f);
    Assoc(2 * n, n, f);
    MulSwap(2, n, t, w);
  }
}

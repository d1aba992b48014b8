/**
 * The special-function library of the hydrogen orbital viewer: the factorial,
 * the associated Legendre function P(l, m, x) and the generalised Laguerre
 * polynomial L(p, k, x).
 *
 * JavaScript numbers are modelled as `real` (exact arithmetic); the factorial,
 * which the source only ever applies to integers, is an `int`. The one square
 * root of the Legendre routine, sqrt((1 - x)(1 + x)), is passed in as `s`.
 */
module SpecialFunctions {

  // ---------------------------------------------------------------------------
  // Factorial and binomial coefficients
  // ---------------------------------------------------------------------------

  /** n!, where every n <= 1 (negative n included) yields 1. */
  function Factorial(n: int): (r: int)
    ensures r >= 1
  {
    if n <= 1 then 1 else n * Factorial(n - 1)
  }

  /** Sample values, among them a negative argument, which also yields 1. */
  lemma FactorialValues()
    ensures Factorial(0) == 1 && Factorial(1) == 1 && Factorial(5) == 120 && Factorial(-3) == 1
  {
    assert Factorial(2) == 2 && Factorial(3) == 6 && Factorial(4) == 24;
  }

  /** Binomial coefficient by Pascal's rule: an independent reference for the factorial ratios. */
  function Binomial(n: nat, k: nat): nat
  {
    if k > n then 0
    else if k == 0 || k == n then 1
    else Binomial(n - 1, k - 1) + Binomial(n - 1, k)
  }

  /** The step n! = n * (n - 1)! holds for every n >= 1, including 1! = 1 * 0!. */
  lemma FactorialStep(n: int)
    requires n >= 1
    ensures Factorial(n) == n * Factorial(n - 1)
  {
  }

  /** n! = C(n, k) * k! * (n - k)!, so the factorial ratio n! / (k! (n - k)!) is a binomial coefficient. */
  lemma {:induction false} FactorialSplit(n: nat, k: nat)
    requires k <= n
    ensures Factorial(n) == Binomial(n, k) * Factorial(k) * Factorial(n - k)
  {
    if k == 0 || k == n {
    } else {
      FactorialSplit(n - 1, k - 1);
      FactorialSplit(n - 1, k);
      FactorialStep(k);
      FactorialStep(n - k);
      FactorialStep(n);
      SplitAlgebra(n, k, Binomial(n - 1, k - 1), Binomial(n - 1, k), Factorial(n - 1),
                   Factorial(k), Factorial(k - 1), Factorial(n - k), Factorial(n - k - 1));
    }
  }

  /**
   * The arithmetic of one Pascal step: k (n - 1)! + (n - k) (n - 1)! = n (n - 1)!.
   * The factorials are passed as plain integers so that the solver does not
   * unfold Factorial while it rearranges the products.
   */
  lemma SplitAlgebra(n: int, k: int, a: int, b: int, f: int, fk: int, fk1: int, fnk: int, fnk1: int)
    requires fk == k * fk1 && fnk == (n - k) * fnk1
    requires f == a * fk1 * fnk && f == b * fk * fnk1
    ensures (a + b) * fk * fnk == n * f
  {
    calc {
      (a + b) * fk * fnk;
      a * fk * fnk + b * fk * fnk;
      a * (k * fk1) * fnk + b * fk * ((n - k) * fnk1);
      k * (a * fk1 * fnk) + (n - k) * (b * fk * fnk1);
      k * f + (n - k) * f;
      n * f;
    }
  }

  // ---------------------------------------------------------------------------
  // Powers and signs
  // ---------------------------------------------------------------------------

  /** b^e for a natural exponent, as Math.pow computes it exactly for integer exponents (0^0 = 1). */
  function Pow(b: real, e: nat): real
  {
    if e == 0 then 1.0 else b * Pow(b, e - 1)
  }

  /** (-1)^m. */
  function NegOnePow(m: nat): real
  {
    if m == 0 then 1.0 else -NegOnePow(m - 1)
  }

  /** (-1)^m is 1 for even m and -1 for odd m, which is how the source computes the sign. */
  lemma {:induction false} NegOnePowParity(m: nat)
    ensures NegOnePow(m) == if m % 2 == 0 then 1.0 else -1.0
  {
    if m > 0 {
      NegOnePowParity(m - 1);
    }
  }

  /** (-1)^m is a unit: 1 or -1. */
  lemma {:induction false} NegOnePowUnit(m: nat)
    ensures NegOnePow(m) == 1.0 || NegOnePow(m) == -1.0
  {
    if m > 0 {
      NegOnePowUnit(m - 1);
    }
  }

  // The step lemmas name the successor m' instead of writing m + 1, so that a
  // caller's arguments match the terms already in its proof context.
  lemma NegOnePowStep(m: nat, m': nat)
    requires m' == m + 1
    ensures NegOnePow(m') == -NegOnePow(m)
  {
  }

  /** 0^e = 0 for every positive exponent. */
  lemma PowZero(e: nat)
    requires e >= 1
    ensures Pow(0.0, e) == 0.0
  {
  }

  /** The quotient a / b of two integers, b non-zero, as a real. */
  function Ratio(a: int, b: int): real
    requires b != 0
  {
    a as real / b as real
  }

  /** (c * d) / d = c. */
  lemma RatioCancel(c: int, d: int)
    requires d != 0
    ensures Ratio(c * d, d) == c as real
  {
    var cr, dr := c as real, d as real;
    assert (c * d) as real == cr * dr;
    assert (cr * dr) / dr == cr;
  }

  // ---------------------------------------------------------------------------
  // Associated Legendre function
  // ---------------------------------------------------------------------------

  /** The odd double factorial 1 * 3 * ... * (2m - 1); the empty product 1 when m = 0. */
  function OddProduct(m: nat): real
  {
    if m == 0 then 1.0 else OddProduct(m - 1) * ((2 * m - 1) as real)
  }

  /** The diagonal term P(m, m) = (-1)^m (2m - 1)!! s^m, with s = sqrt(1 - x^2). */
  function Diagonal(m: nat, s: real): real
  {
    NegOnePow(m) * OddProduct(m) * Pow(s, m)
  }

  /** One step of the three-term recurrence: P(l) from P(l - 1) = p1 and P(l - 2) = p2. */
  function LegendreNext(l: int, m: int, x: real, p1: real, p2: real): real
    requires l != m
  {
    ((2.0 * l as real - 1.0) * x * p1 - (l as real + m as real - 1.0) * p2) / ((l - m) as real)
  }

  /** The recurrence step, with the division by l - m cleared. */
  lemma LegendreNextTimes(l: int, m: int, x: real, p1: real, p2: real)
    requires l != m
    ensures LegendreNext(l, m, x, p1, p2) * ((l - m) as real)
         == (2.0 * l as real - 1.0) * x * p1 - (l as real + m as real - 1.0) * p2
  {
    var n, q := (2.0 * l as real - 1.0) * x * p1 - (l as real + m as real - 1.0) * p2, (l - m) as real;
    assert LegendreNext(l, m, x, p1, p2) == n / q;
  }

  /**
   * Reference definition of P(l, m, x) for order m >= 0, seeded with the
   * diagonal value d = P(m, m): zero below the diagonal, d on it,
   * x (2m + 1) d just below it, and the three-term recurrence above that.
   */
  function LegendreFrom(l: int, m: nat, x: real, d: real): real
    decreases l
  {
    if l < m then 0.0
    else if l == m then d
    else if l == m + 1 then x * (2.0 * m as real + 1.0) * d
    else LegendreNext(l, m, x, LegendreFrom(l - 1, m, x, d), LegendreFrom(l - 2, m, x, d))
  }

  /** P(l, m, x) for any integer order: a negative order is reduced to |m| with the sign (-1)^|m|. */
  function LegendreSpec(l: int, m: int, x: real, s: real): real
  {
    if m < 0 then NegOnePow(-m) * LegendreFrom(l, -m, x, Diagonal(-m, s))
    else LegendreFrom(l, m, x, Diagonal(m, s))
  }

  /**
   * The source's legendre(l, m, x): a sign flip and recursive call for a
   * negative order, a loop building the diagonal term, then the three-term
   * recurrence over rolling variables.
   */
  method Legendre(l: int, m: int, x: real, s: real) returns (r: real)
    ensures r == LegendreSpec(l, m, x, s)
    decreases if m < 0 then 1 else 0
  {
    if m < 0 {
      var mm := -m;
      var sign := if mm % 2 == 0 then 1.0 else -1.0;
      NegOnePowParity(mm);
      var p := Legendre(l, mm, x, s);
      return sign * p;
    }

    var pmm := 1.0;
    if m > 0 {
      var fact := 1.0;
      for i := 1 to m + 1
        invariant pmm == Diagonal(i - 1, s)
        invariant fact == (2 * i - 1) as real
      {
        DiagonalStep(i, s);
        pmm := pmm * (-fact * s);
        fact := fact + 2.0;
      }
    }
    ghost var d := Diagonal(m, s);
    if l == m {
      return pmm;
    }

    var pmp1m := x * (2.0 * m as real + 1.0) * pmm;
    if l == m + 1 {
      return pmp1m;
    }

    var plm := 0.0;
    if m + 2 <= l {
      for ll := m + 2 to l + 1
        invariant pmm == LegendreFrom(ll - 2, m, x, d)
        invariant pmp1m == LegendreFrom(ll - 1, m, x, d)
        invariant plm == if ll == m + 2 then 0.0 else LegendreFrom(ll - 1, m, x, d)
      {
        plm := ((2.0 * ll as real - 1.0) * x * pmp1m - (ll as real + m as real - 1.0) * pmm) / ((ll - m) as real);
        LegendreNextIs(ll, m, x, pmp1m, pmm);
        LegendreFromStep(ll, m, x, d);
        pmm := pmp1m;
        pmp1m := plm;
      }
    }
    r := plm;
  }

  lemma LegendreNextIs(l: int, m: int, x: real, p1: real, p2: real)
    requires l != m
    ensures LegendreNext(l, m, x, p1, p2)
         == ((2.0 * l as real - 1.0) * x * p1 - (l as real + m as real - 1.0) * p2) / ((l - m) as real)
  {
  }

  lemma LegendreFromStep(l: int, m: nat, x: real, d: real)
    requires l >= m + 2
    ensures LegendreFrom(l, m, x, d)
         == LegendreNext(l, m, x, LegendreFrom(l - 1, m, x, d), LegendreFrom(l - 2, m, x, d))
  {
  }

  /** Step i of the diagonal loop multiplies P(i - 1, i - 1) by -(2i - 1) s. */
  lemma DiagonalStep(m: nat, s: real)
    requires m > 0
    ensures Diagonal(m, s) == Diagonal(m - 1, s) * (-((2 * m - 1) as real) * s)
  {
    NegOnePowStep(m - 1, m);
    PowStep(s, m - 1, m);
    DiagonalAlgebra(Diagonal(m, s), Diagonal(m - 1, s), NegOnePow(m), OddProduct(m), Pow(s, m),
                    NegOnePow(m - 1), OddProduct(m - 1), Pow(s, m - 1), (2 * m - 1) as real, s);
  }

  // The algebra of DiagonalStep over plain reals, so that the solver does not
  // unfold the recursive factors while it rearranges the products.
  lemma DiagonalAlgebra(c1: real, c0: real, a: real, b: real, c: real, sg: real, op: real, pw: real, q: real, s: real)
    requires c1 == a * b * c && c0 == sg * op * pw
    requires a == -sg && b == op * q && c == s * pw
    ensures c1 == c0 * (-q * s)
  {
  }

  /** b^(e+1) = b * b^e, with the successor named as in NegOnePowStep. */
  lemma PowStep(b: real, e: nat, e': nat)
    requires e' == e + 1
    ensures Pow(b, e') == b * Pow(b, e)
  {
  }

  /** For m < 0 the result is (-1)^|m| times the result for order |m|. */
  lemma LegendreNegativeOrder(l: int, m: int, x: real, s: real)
    requires m < 0
    ensures LegendreSpec(l, m, x, s) == NegOnePow(-m) * LegendreSpec(l, -m, x, s)
  {
  }

  /** Below the diagonal (0 <= m, l < m) the result is 0. */
  lemma LegendreBelowDiagonal(l: int, m: int, x: real, s: real)
    requires 0 <= m && l < m
    ensures LegendreSpec(l, m, x, s) == 0.0
  {
  }

  /** On the diagonal the result is the closed form (-1)^m (2m - 1)!! s^m. */
  lemma LegendreDiagonal(m: nat, x: real, s: real)
    ensures LegendreSpec(m, m, x, s) == NegOnePow(m) * OddProduct(m) * Pow(s, m)
  {
  }

  /** Just below the diagonal, P(m + 1, m) = x (2m + 1) P(m, m). */
  lemma LegendreFirstStep(m: nat, x: real, s: real)
    ensures LegendreSpec(m + 1, m, x, s) == x * (2.0 * m as real + 1.0) * LegendreSpec(m, m, x, s)
  {
  }

  /**
   * From degree m + 2 on, P(l) is the three-term recurrence applied to
   * P(l - 1) and P(l - 2); LegendreNextTimes gives it in multiplied-out form.
   */
  lemma LegendreRecurrence(l: int, m: nat, x: real, s: real)
    requires l >= m + 2
    ensures LegendreSpec(l, m, x, s)
         == LegendreNext(l, m, x, LegendreSpec(l - 1, m, x, s), LegendreSpec(l - 2, m, x, s))
  {
    LegendreFromStep(l, m, x, Diagonal(m, s));
  }

  /** The low-degree polynomials: P0 = 1, P1 = x, P2 = (3x^2 - 1)/2, P(1,1) = -s, P(2,1) = -3xs, P(2,2) = 3s^2. */
  lemma LegendreLowDegrees(x: real, s: real)
    ensures LegendreSpec(0, 0, x, s) == 1.0
    ensures LegendreSpec(1, 0, x, s) == x
    ensures LegendreSpec(2, 0, x, s) == (3.0 * x * x - 1.0) / 2.0
    ensures LegendreSpec(1, 1, x, s) == -s
    ensures LegendreSpec(2, 1, x, s) == -3.0 * x * s
    ensures LegendreSpec(2, 2, x, s) == 3.0 * s * s
  {
    assert Diagonal(0, s) == 1.0;
    assert Diagonal(1, s) == -s;
    assert Diagonal(2, s) == 3.0 * s * s;
    LegendreFromStep(2, 0, x, 1.0);
    LegendreNextIs(2, 0, x, x, 1.0);
  }

  /** Every Legendre polynomial of order 0 takes the value 1 at x = 1. */
  lemma LegendreAtOne(l: nat, s: real)
    ensures LegendreSpec(l, 0, 1.0, s) == 1.0
  {
    assert Diagonal(0, s) == 1.0;
    LegendreFromAtOne(l);
  }

  lemma {:induction false} LegendreFromAtOne(l: nat)
    ensures LegendreFrom(l, 0, 1.0, 1.0) == 1.0
  {
    if l >= 2 {
      LegendreFromAtOne(l - 1);
      LegendreFromAtOne(l - 2);
      LegendreFromStep(l, 0, 1.0, 1.0);
      LegendreNextTimes(l, 0, 1.0, 1.0, 1.0);
      var lr := l as real;
      assert (2.0 * lr - 1.0) * 1.0 * 1.0 - (lr + 0.0 - 1.0) * 1.0 == lr;
    }
  }

  /** Parity: P(l, m, -x) = (-1)^(l - m) P(l, m, x) on and above the diagonal (s is even in x). */
  lemma LegendreParity(l: int, m: nat, x: real, s: real)
    requires l >= m
    ensures LegendreSpec(l, m, -x, s) == NegOnePow(l - m) * LegendreSpec(l, m, x, s)
  {
    LegendreFromParity(l, m, x, Diagonal(m, s));
    NegOnePowParity(l - m);
  }

  /** The value parity predicts for P(l, m, -x): P(l, m, x) when l - m is even, its negation when odd. */
  function Reflected(l: int, m: nat, x: real, d: real): real
    requires l >= m
  {
    if (l - m) % 2 == 0 then LegendreFrom(l, m, x, d) else -LegendreFrom(l, m, x, d)
  }

  lemma {:induction false} LegendreFromParity(l: int, m: nat, x: real, d: real)
    requires l >= m
    ensures LegendreFrom(l, m, -x, d) == Reflected(l, m, x, d)
    decreases l
  {
    if l >= m + 2 {
      LegendreFromParity(l - 1, m, x, d);
      LegendreFromParity(l - 2, m, x, d);
      LegendreFromParityStep(l, m, x, d);
    }
  }

  /** The parity step: if P(l - 1) and P(l - 2) have parity l - 1 - m and l - 2 - m, P(l) has parity l - m. */
  lemma LegendreFromParityStep(l: int, m: nat, x: real, d: real)
    requires l >= m + 2
    requires LegendreFrom(l - 1, m, -x, d) == Reflected(l - 1, m, x, d)
    requires LegendreFrom(l - 2, m, -x, d) == Reflected(l - 2, m, x, d)
    ensures LegendreFrom(l, m, -x, d) == Reflected(l, m, x, d)
  {
    LegendreFromStep(l, m, -x, d);
    LegendreFromStep(l, m, x, d);
    LegendreNextParity(l, m, x, (l - m) % 2 == 0,
                       LegendreFrom(l - 1, m, x, d), LegendreFrom(l - 2, m, x, d),
                       LegendreFrom(l - 1, m, -x, d), LegendreFrom(l - 2, m, -x, d));
  }

  /**
   * The recurrence step commutes with a sign change of x: when P(l - 1)
   * flips sign exactly when l - m is even and P(l - 2) exactly when it is odd,
   * P(l) flips sign exactly when l - m is odd.
   */
  lemma LegendreNextParity(l: int, m: int, x: real, even: bool, a: real, b: real, a': real, b': real)
    requires l != m
    requires a' == (if even then -a else a) && b' == (if even then b else -b)
    ensures LegendreNext(l, m, -x, a', b')
         == (if even then LegendreNext(l, m, x, a, b) else -LegendreNext(l, m, x, a, b))
  {
    var c1, c2, q := 2.0 * l as real - 1.0, l as real + m as real - 1.0, (l - m) as real;
    LegendreNextIs(l, m, -x, a', b');
    LegendreNextIs(l, m, x, a, b);
    var n := c1 * x * a - c2 * b;
    if even {
      assert c1 * (-x) * a' - c2 * b' == n;
    } else {
      assert c1 * (-x) * a' - c2 * b' == -n;
      NegatedQuotient(n, q);
    }
  }

  lemma NegatedQuotient(n: real, q: real)
    requires q != 0.0
    ensures (-n) / q == -(n / q)
  {
  }

  // ---------------------------------------------------------------------------
  // Generalised Laguerre polynomial
  // ---------------------------------------------------------------------------

  /** Term m of the sum: (p + k)! / ((p - m)! m! (k + m)!) * (-x)^m. */
  function LaguerreTerm(p: int, k: int, x: real, m: nat): real
  {
    ProductPositive(Factorial(p - m), Factorial(m), Factorial(k + m));
    Ratio(Factorial(p + k), Factorial(p - m) * Factorial(m) * Factorial(k + m)) * Pow(-x, m)
  }

  // Regrouping a product of three integers. Stated once over plain integers:
  // asserted inline on factorial terms, it sends the solver out of resource.
  lemma MulAssoc(a: int, b: int, c: int)
    ensures a * b * c == a * (b * c)
  {
  }

  lemma ProductPositive(a: int, b: int, c: int)
    requires a >= 1 && b >= 1 && c >= 1
    ensures a * b * c >= 1
  {
    assert a * b >= 1;
  }

  /** The sum of terms 0 .. j - 1. */
  function LaguerrePartial(p: int, k: int, x: real, j: nat): real
  {
    if j == 0 then 0.0 else LaguerrePartial(p, k, x, j - 1) + LaguerreTerm(p, k, x, j - 1)
  }

  /** L(p, k, x) = sum over m = 0 .. p of the terms; the empty sum 0 when p < 0. */
  function LaguerreSpec(p: int, k: int, x: real): real
  {
    if p < 0 then 0.0 else LaguerrePartial(p, k, x, p + 1)
  }

  /** The source's nested laguerre(p, k, x): a loop accumulating the terms for m = 0 .. p. */
  method Laguerre(p: int, k: int, x: real) returns (r: real)
    ensures r == LaguerreSpec(p, k, x)
  {
    r := 0.0;
    var m := 0;
    while m <= p
      invariant 0 <= m <= if p >= 0 then p + 1 else 0
      invariant r == LaguerrePartial(p, k, x, m)
      decreases p - m
    {
      var num, den := Factorial(p + k), Factorial(p - m) * Factorial(m) * Factorial(k + m);
      LaguerreTermIs(p, k, x, m, num, den);
      var term := (num as real / den as real) * Pow(-x, m);
      LaguerrePartialStep(p, k, x, m, m + 1, term);
      r := r + term;
      m := m + 1;
    }
  }

  /** One more term of the sum; the successor is named as in NegOnePowStep. */
  lemma LaguerrePartialStep(p: int, k: int, x: real, m: nat, m': nat, term: real)
    requires m' == m + 1 && term == LaguerreTerm(p, k, x, m)
    ensures LaguerrePartial(p, k, x, m') == LaguerrePartial(p, k, x, m) + term
  {
  }

  lemma LaguerreTermIs(p: int, k: int, x: real, m: nat, num: int, den: int)
    requires num == Factorial(p + k) && den == Factorial(p - m) * Factorial(m) * Factorial(k + m)
    ensures den >= 1
    ensures LaguerreTerm(p, k, x, m) == (num as real / den as real) * Pow(-x, m)
  {
    ProductPositive(Factorial(p - m), Factorial(m), Factorial(k + m));
  }

  /** A negative degree gives the empty sum. */
  lemma LaguerreNegativeDegree(p: int, k: int, x: real)
    requires p < 0
    ensures LaguerreSpec(p, k, x) == 0.0
  {
  }

  /** L(0, k, x) = 1. */
  lemma LaguerreDegreeZero(k: int, x: real)
    ensures LaguerreSpec(0, k, x) == 1.0
  {
    assert LaguerrePartial(0, k, x, 1) == LaguerreTerm(0, k, x, 0);
    var f := Factorial(k);
    assert Factorial(0) * Factorial(0) * Factorial(k) == 1 * f;
    RatioCancel(1, f);
  }

  /** L(1, k, x) = (k + 1) - x for every k >= 0. */
  lemma LaguerreDegreeOne(k: int, x: real)
    requires k >= 0
    ensures LaguerreSpec(1, k, x) == (k + 1) as real - x
  {
    assert LaguerrePartial(1, k, x, 1) == LaguerreTerm(1, k, x, 0);
    assert LaguerrePartial(1, k, x, 2) == LaguerreTerm(1, k, x, 0) + LaguerreTerm(1, k, x, 1);
    FactorialStep(k + 1);
    var f, g := Factorial(k), Factorial(k + 1);
    assert Factorial(0) == 1 && Factorial(1) == 1;
    assert Factorial(1) * Factorial(0) * Factorial(k) == f;
    RatioCancel(k + 1, f);
    assert LaguerreTerm(1, k, x, 0) == (k + 1) as real;
    assert Factorial(0) * Factorial(1) * Factorial(k + 1) == 1 * g;
    RatioCancel(1, g);
    assert LaguerreTerm(1, k, x, 1) == -x;
  }

  /** At x = 0 only the first term survives: L(p, k, 0) = (p + k)! / (p! k!). */
  lemma LaguerreAtZero(p: int, k: int)
    requires p >= 0
    ensures LaguerreSpec(p, k, 0.0) == Ratio(Factorial(p + k), Factorial(p) * Factorial(k))
  {
    LaguerrePartialAtZero(p, k, p + 1);
    assert Factorial(p) * Factorial(0) * Factorial(k) == Factorial(p) * Factorial(k);
  }

  lemma {:induction false} LaguerrePartialAtZero(p: int, k: int, j: nat)
    requires j >= 1
    ensures LaguerrePartial(p, k, 0.0, j) == LaguerreTerm(p, k, 0.0, 0)
  {
    if j > 1 {
      LaguerrePartialAtZero(p, k, j - 1);
      PowZero(j - 1);
      assert -0.0 == 0.0;
    }
  }

  /** For k >= 0 the value at x = 0 is the binomial coefficient C(p + k, p). */
  lemma LaguerreAtZeroBinomial(p: nat, k: nat)
    ensures LaguerreSpec(p, k, 0.0) == Binomial(p + k, p) as real
  {
    LaguerreAtZero(p, k);
    FactorialSplit(p + k, p);
    assert p + k - p == k;
    var c, d := Binomial(p + k, p), Factorial(p) * Factorial(k);
    ProductPositive(Factorial(p), Factorial(k), 1);
    MulAssoc(c, Factorial(p), Factorial(k));
    RatioCancel(c, d);
  }
}

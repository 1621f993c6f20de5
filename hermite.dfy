/** Hermite-Gaussian basis functions: the harmonic-oscillator eigenfunction of a
    given order, rescaled by a width alpha and shifted by a center, with its first
    two derivatives obtained from the raising and lowering relations. */
module HermiteBasis {
  import opened Errors

  /** The floating-point library calls the model leaves uninterpreted: the square
      root of a quotient, sqrtRatio(p, q) = sqrt(p/q) as the library computes it
      (q = 1.0 for a plain square root), the two closed-form seeds of the recurrence
      (each a product of sqrt, exp and pi factors, as a function of the shifted
      position y and alpha), and the reciprocal square root used by the solver's
      canonical orthogonalization. */
  datatype Numerics = Numerics(
    sqrtRatio: (real, real) -> real,
    seed0: (real, real) -> real,
    seed1: (real, real) -> real,
    invSqrt: real -> real)

  /** The order-n Hermite function at y, defined recursively by the three-term
      recurrence phi(n) = alpha*y*sqrt(2/n)*phi(n-1) - sqrt((n-1)/n)*phi(n-2). */
  function Phi(num: Numerics, y: real, alpha: real, n: nat): real
    decreases n
  {
    if n == 0 then num.seed0(y, alpha)
    else if n == 1 then num.seed1(y, alpha)
    else alpha * y * num.sqrtRatio(2.0, n as real) * Phi(num, y, alpha, n - 1)
         - num.sqrtRatio(n as real - 1.0, n as real) * Phi(num, y, alpha, n - 2)
  }

  /** The iterative evaluation of the recurrence: two rolling terms carried from
      orders 0 and 1 up to the requested order. */
  method HermiteValue(num: Numerics, y: real, alpha: real, order: nat) returns (r: real)
    ensures r == Phi(num, y, alpha, order)
    ensures order == 0 ==> r == num.seed0(y, alpha)
    ensures order == 1 ==> r == num.seed1(y, alpha)
  {
    if order == 0 {
      return num.seed0(y, alpha);
    } else if order == 1 {
      return num.seed1(y, alpha);
    }
    var a := num.seed0(y, alpha);
    var b := num.seed1(y, alpha);
    var i := 2;
    while i <= order
      invariant 2 <= i <= order + 1
      invariant a == Phi(num, y, alpha, i - 2)
      invariant b == Phi(num, y, alpha, i - 1)
    {
      var next := alpha * y * num.sqrtRatio(2.0, i as real) * b - num.sqrtRatio(i as real - 1.0, i as real) * a;
      a := b;
      b := next;
      i := i + 1;
    }
    r := b;
  }

  /** A basis function. The default constructor yields `Uninitialized`; the
      three-argument constructor stores order, width and center. Immutable. */
  datatype Hermite = Uninitialized | Hermite(order: nat, alpha: real, center: real)

  /** The value of the basis function at x. */
  function F(h: Hermite, x: real, num: Numerics): (r: Result<real>)
    ensures r.Err? <==> h.Uninitialized?
    ensures r.Err? ==> r.error == InitError
  {
    match h
    case Uninitialized => Err(InitError)
    case Hermite(order, alpha, center) => Ok(Phi(num, x - center, alpha, order))
  }

  /** The first derivative at the shifted position y: the order-1 term is
      skipped at order 0. */
  function FirstDerivative(num: Numerics, y: real, alpha: real, order: nat): real
  {
    var b := -num.sqrtRatio(order as real + 1.0, 2.0) * Phi(num, y, alpha, order + 1);
    if order == 0 then alpha * b
    else alpha * (num.sqrtRatio(order as real, 2.0) * Phi(num, y, alpha, order - 1) + b)
  }

  /** The second derivative at the shifted position y: the order-2 term is
      skipped at orders 0 and 1. */
  function SecondDerivative(num: Numerics, y: real, alpha: real, order: nat): real
  {
    var c := num.sqrtRatio((order as real + 2.0) * (order as real + 1.0), 1.0) * Phi(num, y, alpha, order + 2);
    var b := (2.0 * order as real + 1.0) * Phi(num, y, alpha, order);
    if order == 0 then -0.5 * (alpha * alpha) * ((order as real + 1.0) * Phi(num, y, alpha, order) - c)
    else if order == 1 then 0.5 * (alpha * alpha) * (c - b)
    else
      var a := num.sqrtRatio((order as int * (order as int - 1)) as real, 1.0) * Phi(num, y, alpha, order - 2);
      0.5 * (alpha * alpha) * (a - b + c)
  }

  /** The first derivative of the basis function at x. */
  function D1F(h: Hermite, x: real, num: Numerics): (r: Result<real>)
    ensures r.Err? <==> h.Uninitialized?
    ensures r.Err? ==> r.error == InitError
  {
    match h
    case Uninitialized => Err(InitError)
    case Hermite(order, alpha, center) => Ok(FirstDerivative(num, x - center, alpha, order))
  }

  /** The second derivative of the basis function at x. */
  function D2F(h: Hermite, x: real, num: Numerics): (r: Result<real>)
    ensures r.Err? <==> h.Uninitialized?
    ensures r.Err? ==> r.error == InitError
  {
    match h
    case Uninitialized => Err(InitError)
    case Hermite(order, alpha, center) => Ok(SecondDerivative(num, x - center, alpha, order))
  }

  /** The general first-derivative formula alpha*(sqrt(n/2)*phi(n-1) - sqrt((n+1)/2)*phi(n+1)),
      with the order n-1 term supplied as `lower`. */
  function D1General(num: Numerics, y: real, alpha: real, n: nat, lower: real): real
  {
    alpha * (num.sqrtRatio(n as real, 2.0) * lower - num.sqrtRatio(n as real + 1.0, 2.0) * Phi(num, y, alpha, n + 1))
  }

  /** The general second-derivative formula 0.5*alpha^2*(a - b + c), with the order
      n-2 function value inside `a` supplied as `lower`. */
  function D2General(num: Numerics, y: real, alpha: real, n: nat, lower: real): real
  {
    var a := num.sqrtRatio((n as int * (n as int - 1)) as real, 1.0) * lower;
    var b := (2.0 * n as real + 1.0) * Phi(num, y, alpha, n);
    var c := num.sqrtRatio((n as real + 2.0) * (n as real + 1.0), 1.0) * Phi(num, y, alpha, n + 2);
    0.5 * (alpha * alpha) * (a - b + c)
  }

  /** Every order case of the first derivative is the general formula, with the
      missing order -1 term taken as zero. */
  lemma FirstDerivativeMatchesGeneral(num: Numerics, y: real, alpha: real, n: nat)
    ensures FirstDerivative(num, y, alpha, n)
         == D1General(num, y, alpha, n, if n == 0 then 0.0 else Phi(num, y, alpha, n - 1))
  {
    var up := num.sqrtRatio(n as real + 1.0, 2.0) * Phi(num, y, alpha, n + 1);
    if n == 0 {
      var z := num.sqrtRatio(n as real, 2.0);
      assert z * 0.0 == 0.0;
      assert D1General(num, y, alpha, n, 0.0) == alpha * (z * 0.0 - up);
      assert FirstDerivative(num, y, alpha, n) == alpha * -up;
    }
  }

  /** Every order case of the second derivative is the general formula, with the
      missing order -2 term taken as zero. */
  lemma SecondDerivativeMatchesGeneral(num: Numerics, y: real, alpha: real, n: nat)
    ensures SecondDerivative(num, y, alpha, n)
         == D2General(num, y, alpha, n, if n < 2 then 0.0 else Phi(num, y, alpha, n - 2))
  {
    var p := Phi(num, y, alpha, n);
    var b := (2.0 * n as real + 1.0) * p;
    var c := num.sqrtRatio((n as real + 2.0) * (n as real + 1.0), 1.0) * Phi(num, y, alpha, n + 2);
    var k := 0.5 * (alpha * alpha);
    if n < 2 {
      var z := num.sqrtRatio((n as int * (n as int - 1)) as real, 1.0);
      assert z * 0.0 == 0.0;
      assert D2General(num, y, alpha, n, 0.0) == k * (z * 0.0 - b + c);
      if n == 0 {
        assert b == p;
        assert SecondDerivative(num, y, alpha, n) == -0.5 * (alpha * alpha) * (1.0 * p - c);
        assert -0.5 * (alpha * alpha) * (1.0 * p - c) == k * (c - p);
      } else {
        assert SecondDerivative(num, y, alpha, n) == k * (c - b);
      }
    }
  }

  /** The basis function and its derivatives depend on x only through x - center. */
  lemma ShiftInvariance(h: Hermite, x: real, d: real, num: Numerics)
    requires h.Hermite?
    ensures F(h.(center := h.center + d), x + d, num) == F(h, x, num)
    ensures D1F(h.(center := h.center + d), x + d, num) == D1F(h, x, num)
    ensures D2F(h.(center := h.center + d), x + d, num) == D2F(h, x, num)
  {
    var g := h.(center := h.center + d);
    assert (x + d) - g.center == x - h.center;
  }
}

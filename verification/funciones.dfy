/**
 The functions of the lesson on functions: a two-argument sum, a division
 returning quotient and remainder, an anonymous squaring closure and a
 recursive factorial, all on Go's 64-bit `int` (see module GoInt), so every
 sum and product wraps around exactly as the compiled Go code does.
 */
module Funciones {

  import opened GoInt
  import opened Optional

  // ---------------------------------------------------------------------
  // suma

  /** `suma(a, b)`: exactly `a + b` whenever that fits, and otherwise the
      word Go's wrapping `+` leaves. */
  function Suma(a: Int, b: Int): (r: Int)
    ensures InRange(a + b) ==> r == a + b
    ensures a + b > MaxInt ==> r == a + b - Modulus
    ensures a + b < MinInt ==> r == a + b + Modulus
  {
    Add(a, b)
  }

  lemma SumaCommutes(a: Int, b: Int)
    ensures Suma(a, b) == Suma(b, a)
  {
  }

  /** Wrapping does not break associativity: Go's `+` is addition modulo 2^64. */
  lemma {:induction false} SumaAssociates(a: Int, b: Int, c: Int)
    ensures Suma(Suma(a, b), c) == Suma(a, Suma(b, c))
  {
    WrapAddLeft(a + b, c);
    WrapAddRight(a, b + c);
    assert (a + b) + c == a + (b + c);
  }

  // ---------------------------------------------------------------------
  // dividir (quotient and remainder)

  /** `dividir(a, b)` returns `(a / b, a % b)`. A zero divisor makes Go panic,
      so `b != 0` is required. The quotient and remainder recombine to `a`
      (modulo 2^64, and exactly unless the quotient overflowed); the
      remainder is smaller than the divisor and has the sign of `a`. */
  function Dividir(a: Int, b: Int): (r: (Int, Int))
    requires b != 0
    ensures !QuoOverflows(a, b) ==> r.0 * b + r.1 == a
    ensures Wrap(r.0 * b + r.1) == a
    ensures Abs(r.1) < Abs(b)
    ensures r.1 == 0 || ((r.1 < 0) <==> (a < 0))
    ensures QuoOverflows(a, b) ==> r == (MinInt as Int, 0 as Int)
  {
    TruncDivMod(a, b);
    (Quo(a, b), Rem(a, b))
  }

  /** The quotient and remainder of `dividir` are the only pair of words
      meeting the identity, the bound and the sign rule, i.e. `dividir`
      rounds toward zero. */
  lemma {:induction false} DividirUnique(a: Int, b: Int, q: Int, m: Int)
    requires b != 0
    requires q * b + m == a
    requires Abs(m) < Abs(b)
    requires m == 0 || ((m < 0) <==> (a < 0))
    ensures Dividir(a, b) == (q, m)
  {
    TruncUnique(a, b, q, m);
    if QuoOverflows(a, b) {
      assert false;
    }
  }

  /** The quotient of `dividir` is the exact quotient rounded toward zero:
      its magnitude is `|a| / |b|` and, when it is not zero, it is negative
      exactly when the signs of the operands differ. */
  lemma DividirTruncates(a: Int, b: Int)
    requires b != 0 && !QuoOverflows(a, b)
    ensures Abs(Dividir(a, b).0) == Abs(a) / Abs(b)
    ensures Dividir(a, b).0 != 0 ==> ((Dividir(a, b).0 < 0) <==> ((a < 0) != (b < 0)))
  {
  }

  // ---------------------------------------------------------------------
  // The anonymous closure `func(x int) int { return x * x }`

  /** Largest magnitude whose square fits in a 64-bit `int`. */
  const SquareLimit: int := 3037000499

  lemma SquareFits(x: int)
    requires Abs(x) <= SquareLimit
    ensures 0 <= x * x <= MaxInt
  {
    var y: nat := Abs(x);
    assert x * x == y * y;
    MulMonotone(y, SquareLimit, y);
    MulMonotone(y, SquareLimit, SquareLimit);
  }

  function Anonima(x: Int): (r: Int)
    ensures Abs(x) <= SquareLimit ==> r == x * x && r >= 0
    ensures Congruent(r, x * x)
  {
    assert Abs(x) <= SquareLimit ==> 0 <= x * x <= MaxInt by {
      if Abs(x) <= SquareLimit {
        SquareFits(x);
      }
    }
    Mul(x, x)
  }

  /** Squaring ignores the sign, also when the negation wraps. */
  lemma {:induction false} AnonimaIsEven(x: Int)
    ensures Anonima(Neg(x)) == Anonima(x)
  {
    var n: int := -(x as int);
    assert Neg(x) == Wrap(n);
    WrapMulLeft(n, Neg(x));
    WrapMulRight(n, n);
    NegMul(x, n);
    NegMul(x, x);
    assert n * n == x * x;
  }

  /** The square limit is tight: one more and the square wraps negative. */
  lemma AnonimaLimitIsTight()
    ensures Anonima(SquareLimit as Int) == SquareLimit * SquareLimit
    ensures Anonima((SquareLimit + 1) as Int) < 0
  {
    var y := SquareLimit + 1;
    assert y * y == 9223372037000250000;
    WrapUnique(y * y, y * y - Modulus);
  }

  // ---------------------------------------------------------------------
  // factorial

  /** Mathematical factorial, the value `factorial` is meant to compute. */
  function Fact(n: nat): (r: nat)
    ensures r >= 1
    ensures r >= n
  {
    if n == 0 then 1 else n * Fact(n - 1)
  }

  /** `factorial(n)` as Go computes it: the recursion on `n - 1` with a
      wrapping product, which yields the mathematical factorial reduced
      modulo 2^64. The recursion only reaches its base case from a
      non-negative argument, and this definition assumes the stack never
      runs out (see FactorialWithStack for a bounded stack). */
  function Factorial(n: Int): (r: Int)
    requires n >= 0
    ensures r == Wrap(Fact(n))
    decreases n
  {
    if n == 0 then 1
    else
      WrapMulRight(n, Fact(n - 1));
      Mul(n, Factorial(n - 1))
  }

  lemma FactStep(n: nat)
    requires n >= 1
    ensures Fact(n - 1) <= Fact(n)
  {
    var f := Fact(n - 1);
    assert Fact(n) == n * f;
    assert n * f == f + (n - 1) * f;
  }

  lemma {:induction false} FactMonotone(m: nat, n: nat)
    requires m <= n
    ensures Fact(m) <= Fact(n)
    decreases n
  {
    if m < n {
      FactMonotone(m, n - 1);
      FactStep(n);
    }
  }

  /** 20! is the largest factorial that fits, so `factorial` is exact up to 20. */
  lemma {:induction false} FactorialExact(n: Int)
    requires 0 <= n <= 20
    ensures Factorial(n) == Fact(n)
    ensures Factorial(n) >= 1
  {
    assert Fact(10) == 3628800;
    assert Fact(20) == 2432902008176640000;
    FactMonotone(n, 20);
  }

  /** The recurrence of the source holds over the integers, without any
      wrap-around, as long as the result fits: `factorial(0) == 1` and
      `factorial(n) == n * factorial(n - 1)` for `1 <= n <= 20`. */
  lemma FactorialRecurrence(n: Int)
    requires 0 <= n <= 20
    ensures n == 0 ==> Factorial(n) == 1
    ensures n > 0 ==> Factorial(n) == n * Factorial(n - 1)
  {
    FactorialExact(n);
    if n > 0 {
      FactorialExact(n - 1);
    }
  }

  /** `factorial(21)` overflows: Go returns a negative number. */
  lemma FactorialOverflowsAt21()
    ensures Factorial(21) == -4249290049419214848
    ensures Factorial(21) != Fact(21)
  {
    assert Fact(10) == 3628800;
    assert Fact(21) == 51090942171709440000;
    WrapUnique(Fact(21), Fact(21) - 3 * Modulus);
  }

  /** Number of nested calls `factorial(n)` makes below the first one before
      it reaches `n == 0`. A negative argument first counts down to MinInt,
      wraps to MaxInt and only then descends to 0. */
  function Depth(n: Int): (d: nat) {
    if n >= 0 then n else n + Modulus
  }

  /** Each recursive call is one level shallower, also across the wrap from
      MinInt to MaxInt. */
  lemma DepthStep(n: Int)
    requires n != 0
    ensures Depth(Sub(n, 1)) + 1 == Depth(n)
  {
    if n == MinInt {
      WrapUnique(n - 1, MaxInt);
    }
  }

  /** `factorial(n)` run with room for `frames` nested calls: None when the
      call stack is exhausted before the base case, which Go reports as a
      fatal stack overflow. It returns exactly when the stack has more
      frames than the recursion depth. */
  function FactorialWithStack(n: Int, frames: nat): (r: Option<Int>)
    ensures r.Some? <==> frames > Depth(n)
    decreases frames
  {
    if frames == 0 then None
    else if n == 0 then Some(1)
    else
      DepthStep(n);
      match FactorialWithStack(Sub(n, 1), frames - 1)
      case None => None
      case Some(f) => Some(Mul(n, f))
  }

  /** With enough stack, a non-negative argument yields `Factorial(n)`. */
  lemma {:induction false} StackedFactorialAgrees(n: Int, frames: nat)
    requires n >= 0 && frames > n
    ensures FactorialWithStack(n, frames) == Some(Factorial(n))
    decreases frames
  {
    if n > 0 {
      StackedFactorialAgrees(n - 1, frames - 1);
    }
  }

  /** A negative argument needs more than 2^63 nested calls, so no real
      stack lets it return. */
  lemma {:induction false} NegativeFactorialDiverges(n: Int, frames: nat)
    requires n < 0 && frames <= -MinInt
    ensures FactorialWithStack(n, frames) == None
  {
  }

  // ---------------------------------------------------------------------
  // The values main prints

  lemma MainValues()
    ensures Suma(3, 4) == 7
    ensures Dividir(10, 3) == (3, 1)
    ensures Anonima(5) == 25
    ensures Factorial(5) == 120
  {
    FactorialExact(5);
  }
}

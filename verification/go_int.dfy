/**
 Go's predeclared `int` on a 64-bit platform and the integer operators the
 tutorial functions use on it, as the sections "Arithmetic operators" and
 "Integer overflow" of The Go Programming Language Specification define them:

 - values are two's-complement words in [-2^63, 2^63);
 - `+`, `-` and `*` are computed exactly and then reduced modulo 2^64
   (they wrap around, they never trap);
 - `/` truncates toward zero and `%` is the matching remainder, so the
   remainder is zero or has the sign of the dividend;
 - the one quotient that does not fit, `MinInt / -1`, wraps to `MinInt`
   and the matching remainder is 0.

 Dafny's own `/` and `%` on `int` are Euclidean, so the truncating pair is
 defined here explicitly.
 */
module GoInt {

  const Modulus: int := 0x1_0000_0000_0000_0000
  const MinInt: int := -0x8000_0000_0000_0000
  const MaxInt: int := 0x7fff_ffff_ffff_ffff

  predicate InRange(x: int) {
    MinInt <= x <= MaxInt
  }

  /** A value of Go's 64-bit `int`. */
  type Int = x: int | MinInt <= x <= MaxInt

  function Abs(x: int): nat {
    if x < 0 then -x else x
  }

  /** `x` and `y` are the same 64-bit machine word. */
  predicate Congruent(x: int, y: int) {
    (x - y) % Modulus == 0
  }

  // ---------------------------------------------------------------------
  // Reduction modulo 2^64

  lemma MultipleIsCongruent(x: int, y: int, k: int)
    requires x - y == k * Modulus
    ensures Congruent(x, y)
  {
  }

  lemma CongruentIsMultiple(x: int, y: int)
    requires Congruent(x, y)
    ensures x - y == ((x - y) / Modulus) * Modulus
  {
  }

  lemma CongruentTransitive(x: int, y: int, z: int)
    requires Congruent(x, y) && Congruent(y, z)
    ensures Congruent(x, z)
  {
    CongruentIsMultiple(x, y);
    CongruentIsMultiple(y, z);
    MultipleIsCongruent(x, z, (x - y) / Modulus + (y - z) / Modulus);
  }

  lemma CongruentSymmetric(x: int, y: int)
    requires Congruent(x, y)
    ensures Congruent(y, x)
  {
    CongruentIsMultiple(x, y);
    MultipleIsCongruent(y, x, -((x - y) / Modulus));
  }

  /** The machine word that holds the exact result `x`: what Go keeps of an
      integer result that does not fit. */
  function Wrap(x: int): (r: Int)
    ensures Congruent(r, x)
    ensures InRange(x) ==> r == x
  {
    MultipleIsCongruent((x - MinInt) % Modulus + MinInt, x, -((x - MinInt) / Modulus));
    (x - MinInt) % Modulus + MinInt
  }

  /** Wrap is the only word congruent to its argument, so it is fully
      characterised by its contract. */
  lemma {:induction false} WrapUnique(x: int, y: int)
    requires InRange(y) && Congruent(y, x)
    ensures y == Wrap(x)
  {
    CongruentSymmetric(Wrap(x), x);
    CongruentTransitive(y, x, Wrap(x));
    CongruentIsMultiple(y, Wrap(x));
  }

  lemma {:induction false} WrapAddLeft(x: int, y: int)
    ensures Wrap(Wrap(x) + y) == Wrap(x + y)
  {
    CongruentTransitive(Wrap(Wrap(x) + y), Wrap(x) + y, x + y);
    WrapUnique(x + y, Wrap(Wrap(x) + y));
  }

  lemma {:induction false} WrapAddRight(x: int, y: int)
    ensures Wrap(x + Wrap(y)) == Wrap(x + y)
  {
    WrapAddLeft(y, x);
  }

  lemma {:induction false} WrapMulLeft(x: int, y: int)
    ensures Wrap(Wrap(x) * y) == Wrap(x * y)
  {
    var k := (Wrap(x) - x) / Modulus;
    CongruentIsMultiple(Wrap(x), x);
    assert Wrap(x) * y - x * y == (k * y) * Modulus by {
      assert Wrap(x) == x + k * Modulus;
      assert Wrap(x) * y == x * y + (k * Modulus) * y;
    }
    MultipleIsCongruent(Wrap(x) * y, x * y, k * y);
    CongruentTransitive(Wrap(Wrap(x) * y), Wrap(x) * y, x * y);
    WrapUnique(x * y, Wrap(Wrap(x) * y));
  }

  lemma {:induction false} WrapMulRight(x: int, y: int)
    ensures Wrap(x * Wrap(y)) == Wrap(x * y)
  {
    WrapMulLeft(y, x);
  }

  // ---------------------------------------------------------------------
  // Truncating division over the mathematical integers

  lemma DivNonNegative(A: nat, B: nat)
    requires B > 0
    ensures A / B >= 0
  {
  }

  /** Go's `/`: the quotient truncated toward zero. */
  function TruncDiv(a: int, b: int): (q: int)
    requires b != 0
    ensures Abs(q) == Abs(a) / Abs(b)
    ensures q == 0 || ((q < 0) <==> ((a < 0) != (b < 0)))
  {
    var A: nat, B: nat := Abs(a), Abs(b);
    DivNonNegative(A, B);
    var m: nat := A / B;
    if (a < 0) == (b < 0) then m else -(m as int)
  }

  /** Go's `%`: the remainder of the truncated quotient. */
  function TruncMod(a: int, b: int): (r: int)
    requires b != 0
    ensures Abs(r) < Abs(b)
    ensures r == 0 || ((r < 0) <==> (a < 0))
  {
    if a < 0 then -(Abs(a) % Abs(b)) else Abs(a) % Abs(b)
  }

  lemma NegMul(x: int, y: int)
    ensures (-x) * y == -(x * y)
    ensures x * (-y) == -(x * y)
  {
  }

  lemma SubMul(x: int, y: int, z: int)
    ensures (x - y) * z == x * z - y * z
  {
  }

  lemma MulMonotone(x: nat, y: nat, c: nat)
    requires x <= y
    ensures x * c <= y * c
  {
    var d: nat := y - x;
    assert y * c == x * c + d * c;
  }

  /** Signing a natural division `A == Q*B + R` by the signs of `a` and `b`
      the way TruncDiv and TruncMod do keeps the identity. */
  lemma SignedIdentity(a: int, b: int, A: int, B: int, Q: int, R: int)
    requires A == Abs(a) && B == Abs(b) && A == Q * B + R
    ensures (if (a < 0) == (b < 0) then Q else -Q) * b + (if a < 0 then -R else R) == a
  {
    NegMul(Q, B);
    if b < 0 {
      NegMul(-Q, B);
    }
  }

  /** The defining identity of the pair: `q*b + r == a`. */
  lemma {:induction false} TruncDivMod(a: int, b: int)
    requires b != 0
    ensures TruncDiv(a, b) * b + TruncMod(a, b) == a
  {
    var A: int, B: int := Abs(a), Abs(b);
    SignedIdentity(a, b, A, B, A / B, A % B);
  }

  lemma {:induction false} NonzeroMultipleIsLarge(k: int, b: int)
    requires k != 0
    ensures Abs(k * b) >= Abs(b)
  {
    if k > 0 {
      if b >= 0 {
        assert k * b == (k - 1) * b + b;
      } else {
        assert k * b == -((k - 1) * (-b)) + b;
      }
    } else {
      if b >= 0 {
        assert k * b == -((-k - 1) * b) - b;
      } else {
        assert k * b == (-k - 1) * (-b) - b;
      }
    }
  }

  /** Truncated division is the only pair satisfying the identity, the
      bound and the sign rule: these three facts are a complete, independent
      description of Go's `/` and `%`. */
  lemma {:induction false} TruncUnique(a: int, b: int, q: int, r: int)
    requires b != 0
    requires q * b + r == a
    requires Abs(r) < Abs(b)
    requires r == 0 || ((r < 0) <==> (a < 0))
    ensures q == TruncDiv(a, b) && r == TruncMod(a, b)
  {
    var q0, r0 := TruncDiv(a, b), TruncMod(a, b);
    TruncDivMod(a, b);
    SubMul(q, q0, b);
    assert (q - q0) * b == r0 - r;
    assert Abs(r0 - r) < Abs(b);
    if q != q0 {
      NonzeroMultipleIsLarge(q - q0, b);
      assert false;
    }
  }

  /** How Go's pair departs from Dafny's Euclidean pair: they agree unless
      the dividend is negative and the division is inexact, and then the
      truncated remainder is the Euclidean one minus `|b|`. */
  lemma {:induction false} TruncVersusEuclid(a: int, b: int)
    requires b != 0
    ensures a >= 0 || a % b == 0 ==> TruncDiv(a, b) == a / b && TruncMod(a, b) == a % b
    ensures a < 0 && a % b != 0 ==>
      TruncMod(a, b) == a % b - Abs(b) && TruncDiv(a, b) == a / b + (if b < 0 then -1 else 1)
  {
    assert a == (a / b) * b + a % b;
    if a >= 0 || a % b == 0 {
      TruncUnique(a, b, a / b, a % b);
    } else {
      var s := if b < 0 then -1 else 1;
      assert s * b == Abs(b);
      assert (a / b + s) * b == (a / b) * b + s * b;
      TruncUnique(a, b, a / b + s, a % b - Abs(b));
    }
  }

  // ---------------------------------------------------------------------
  // Go's operators on 64-bit `int`

  /** Go's `a + b`: the exact sum, or the sum moved by 2^64 back into range. */
  function Add(a: Int, b: Int): (r: Int)
    ensures Congruent(r, a + b)
    ensures a + b > MaxInt ==> r == a + b - Modulus
    ensures a + b < MinInt ==> r == a + b + Modulus
    ensures InRange(a + b) ==> r == a + b
  {
    var s: int := a + b;
    assert s > MaxInt ==> Wrap(s) == s - Modulus by {
      if s > MaxInt {
        MultipleIsCongruent(s - Modulus, s, -1);
        WrapUnique(s, s - Modulus);
      }
    }
    assert s < MinInt ==> Wrap(s) == s + Modulus by {
      if s < MinInt {
        MultipleIsCongruent(s + Modulus, s, 1);
        WrapUnique(s, s + Modulus);
      }
    }
    Wrap(s)
  }

  /** Go's `a - b`; in particular `MinInt - 1` wraps to `MaxInt`. */
  function Sub(a: Int, b: Int): (r: Int)
    ensures Congruent(r, a - b)
    ensures a - b > MaxInt ==> r == a - b - Modulus
    ensures a - b < MinInt ==> r == a - b + Modulus
    ensures InRange(a - b) ==> r == a - b
  {
    var d: int := a - b;
    assert d > MaxInt ==> Wrap(d) == d - Modulus by {
      if d > MaxInt {
        MultipleIsCongruent(d - Modulus, d, -1);
        WrapUnique(d, d - Modulus);
      }
    }
    assert d < MinInt ==> Wrap(d) == d + Modulus by {
      if d < MinInt {
        MultipleIsCongruent(d + Modulus, d, 1);
        WrapUnique(d, d + Modulus);
      }
    }
    Wrap(d)
  }

  /** Go's `a * b`: the word congruent to the exact product. */
  function Mul(a: Int, b: Int): (r: Int)
    ensures Congruent(r, a * b)
    ensures InRange(a * b) ==> r == a * b
  {
    Wrap(a * b)
  }

  /** The one division whose exact quotient, 2^63, is not an `Int`. */
  predicate QuoOverflows(a: int, b: int) {
    a == MinInt && b == -1
  }

  lemma DivShrinks(A: int, B: int)
    requires A > 0 && B >= 2
    ensures A / B < A
  {
    var Q := A / B;
    assert Q * B <= A;
    MulMonotone(2, B, Q);
  }

  lemma {:induction false} QuotientFits(a: Int, b: Int)
    requires b != 0 && !QuoOverflows(a, b)
    ensures InRange(TruncDiv(a, b))
  {
    var A: int, B: int := Abs(a), Abs(b);
    var q := TruncDiv(a, b);
    assert A <= Modulus / 2;
    if A == 0 {
      assert q == 0;
    } else if B == 1 {
      assert Abs(q) == A;
      if a == MinInt {
        assert b == 1 && q == a;
      }
    } else {
      DivShrinks(A, B);
      assert Abs(q) < Modulus / 2;
    }
  }

  /** Go's `a / b`; `b == 0` is a run-time panic, so it is excluded here. */
  function Quo(a: Int, b: Int): (q: Int)
    requires b != 0
    ensures !QuoOverflows(a, b) ==> q == TruncDiv(a, b)
    ensures QuoOverflows(a, b) ==> q == MinInt
  {
    assert !QuoOverflows(a, b) ==> InRange(TruncDiv(a, b)) by {
      if !QuoOverflows(a, b) {
        QuotientFits(a, b);
      }
    }
    Wrap(TruncDiv(a, b))
  }

  /** Go's `a % b`; the remainder always fits, since `|r| < |b|`. */
  function Rem(a: Int, b: Int): (r: Int)
    requires b != 0
    ensures r == TruncMod(a, b)
  {
    var m: int := TruncMod(a, b);
    assert Abs(m) < Abs(b) <= -MinInt;
    m
  }

  /** Go's unary `-a`, which is `0 - a` and so also wraps. */
  function Neg(a: Int): (r: Int)
    ensures Congruent(r, -(a as int))
    ensures a != MinInt ==> r == -(a as int)
  {
    Wrap(-(a as int))
  }
}

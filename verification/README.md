# Go tutorial: functions and error returns, in Dafny

This project models the two lessons of the Go tutorial that hold pure integer
logic:

- the lesson on functions (`3.Funciones/funciones.go`): `suma`, `dividir`
  returning quotient and remainder, the anonymous squaring closure bound to
  `anonima` in `main`, and the recursive `factorial`;
- the lesson on errors (`7.Errores/errores.go`): a second `dividir` that
  returns `(int, error)` and reports a zero divisor as the error
  "división por cero" instead of panicking.

Files:

- `go_int.dfy` (module `GoInt`): Go's `int` as a 64-bit two's-complement
  word. `Wrap` reduces an exact result modulo 2^64 into [-2^63, 2^63), which
  is what Go's `+`, `-` and `*` keep of a result that does not fit.
  `TruncDiv` and `TruncMod` are Go's `/` and `%`, which truncate toward zero,
  as the "Arithmetic operators" section of The Go Programming Language
  Specification defines them. Dafny's own `/` and `%` are Euclidean, and
  `TruncVersusEuclid` states exactly where the two pairs differ. `Quo` models
  the one overflowing division: `MinInt / -1` is `MinInt`; `Rem` gives the
  matching remainder 0.
- `funciones.dfy` (module `Funciones`): the four functions of the first
  lesson, with `Fact` as the mathematical factorial they are compared against.
  `FactorialWithStack` models the recursion with a bounded number of stack
  frames, which is how the model states when `factorial` returns.
- `errores.dfy` (module `Errores`): the error-returning `dividir`. Its result
  is the Go pair `Returned(value, err)`, where `err == None` stands for a nil
  error.
- `optional.dfy` (module `Optional`): the `Option` type used for a nilable
  error and for a call that may exhaust the stack.

Overflow: `int` is taken to be 64 bits wide, as it is on the usual 64-bit
platforms. Every operation wraps, so the properties that hold over the
mathematical integers are stated with an explicit no-overflow hypothesis, and
the model proves what happens when that hypothesis fails. For example,
`factorial(21)` is the negative word -4249290049419214848.

## Model

| member | source | states |
|---|---|---|
| Funciones.Suma | 3.Funciones/funciones.go:8-10 | the result is exactly `a + b` when the sum fits in an `int`; otherwise it is `a + b` shifted by 2^64 into range, which is Go's wrap-around |
| GoInt.Add | 3.Funciones/funciones.go:9 | Go's `a + b` on words is congruent to the exact sum modulo 2^64, equal to it when it fits, and otherwise the exact sum minus 2^64 (above `MaxInt`) or plus 2^64 (below `MinInt`) |
| GoInt.Sub | 3.Funciones/funciones.go:41 | Go's `n-1` (any `a - b`) is congruent to the exact difference, equal to it when it fits, and otherwise moved by 2^64 back into range, so `MinInt - 1` is `MaxInt` |
| GoInt.Mul | 3.Funciones/funciones.go:28 | Go's `x * x` (any `a * b`, also the `n * factorial(n-1)` of line 41) is the word congruent to the exact product modulo 2^64, and equal to the product when it fits |
| Funciones.SumaCommutes | 3.Funciones/funciones.go:8-10 | `suma(a, b) == suma(b, a)` for all words |
| Funciones.SumaAssociates | 3.Funciones/funciones.go:8-10 | wrapping `suma` is still associative: `suma(suma(a, b), c) == suma(a, suma(b, c))` for all words, overflow included |
| GoInt.TruncDiv | 3.Funciones/funciones.go:14 | the quotient's magnitude is `abs(a) / abs(b)`, and a non-zero quotient is negative exactly when the operands' signs differ (rounding toward zero) |
| GoInt.TruncMod | 3.Funciones/funciones.go:15 | the remainder satisfies `abs(r) < abs(b)` and is zero or has the sign of the dividend |
| GoInt.TruncDivMod | 3.Funciones/funciones.go:14-15 | the identity `(a / b) * b + a % b == a` for every non-zero `b` |
| GoInt.TruncUnique | 3.Funciones/funciones.go:14-15 | any `q, r` with `q*b + r == a`, `abs(r) < abs(b)` and `r` zero or signed like `a` is exactly the truncated quotient and remainder, so these three facts fully characterise Go's `/` and `%` |
| GoInt.TruncVersusEuclid | 3.Funciones/funciones.go:14-15 | Go's pair equals Dafny's Euclidean pair when `a >= 0` or the division is exact; otherwise the remainder is the Euclidean one minus `abs(b)`, and the quotient is the Euclidean one moved one step toward zero |
| GoInt.Quo | 3.Funciones/funciones.go:14 | on 64-bit words `a / b` is the truncated quotient, except `MinInt / -1`, which wraps to `MinInt` |
| Funciones.Dividir | 3.Funciones/funciones.go:13-17 | needs `b != 0`, because Go panics on a zero divisor; `cociente*b + resto == a` unless the quotient overflowed, and always modulo 2^64; `abs(resto) < abs(b)`; `resto` is zero or has the sign of `a`; `dividir(MinInt, -1) == (MinInt, 0)` |
| GoInt.Rem | 3.Funciones/funciones.go:15 | Go's `a % b` on words is the truncated remainder for every non-zero `b`, including `MinInt % -1 == 0`, and it always fits in an `int` |
| Funciones.DividirUnique | 3.Funciones/funciones.go:13-17 | every pair of words that meets the identity, the bound and the sign rule is the pair `dividir` returns |
| Funciones.DividirTruncates | 3.Funciones/funciones.go:14 | without overflow, `abs(cociente) == abs(a) / abs(b)`, and a non-zero `cociente` is negative exactly when the signs of `a` and `b` differ |
| Funciones.Anonima | 3.Funciones/funciones.go:27-29 | the closure returns exactly `x*x` (non-negative) when `abs(x) <= 3037000499`, and always a word congruent to `x*x` modulo 2^64 |
| Funciones.AnonimaIsEven | 3.Funciones/funciones.go:27-29 | squaring `-x` gives the same word as squaring `x`, including when `-x` wraps |
| Funciones.AnonimaLimitIsTight | 3.Funciones/funciones.go:27-29 | 3037000499 squared fits, while the square of 3037000500 wraps to a negative word |
| Funciones.Factorial | 3.Funciones/funciones.go:37-42 | for `n >= 0`, Go's `factorial(n)` is the mathematical `n!` reduced modulo 2^64 (assuming the stack does not run out) |
| Funciones.FactorialExact | 3.Funciones/funciones.go:37-42 | for `0 <= n <= 20`, `factorial(n) == n!` exactly (and is at least 1) |
| Funciones.FactorialRecurrence | 3.Funciones/funciones.go:37-42 | `factorial(0) == 1`, and `factorial(n) == n * factorial(n-1)` over the integers, with no wrap-around, for `1 <= n <= 20` |
| Funciones.FactorialOverflowsAt21 | 3.Funciones/funciones.go:37-42 | `factorial(21)` overflows: it is -4249290049419214848, not 21! |
| Funciones.FactorialWithStack | 3.Funciones/funciones.go:38-41 | with a bounded stack, the recursion reaches its base case and returns exactly when the stack has more frames than the number of decrements from `n` to 0, counting the wrap from `MinInt` to `MaxInt` |
| Funciones.StackedFactorialAgrees | 3.Funciones/funciones.go:37-42 | with more than `n` frames, a non-negative `n` returns `factorial(n)` |
| Funciones.NegativeFactorialDiverges | 3.Funciones/funciones.go:38-41 | a negative argument does not return with 2^63 frames or fewer, because `n - 1` has to wrap past `MinInt` before it can reach 0 |
| Funciones.MainValues | 3.Funciones/funciones.go:19-34 | the values `main` prints: `suma(3, 4) == 7`, `dividir(10, 3) == (3, 1)`, `anonima(5) == 25`, `factorial(5) == 120` |
| Errores.Dividir | 7.Errores/errores.go:26-31 | total on all words: the error is non-nil exactly when `b == 0`, and then it is "división por cero" and the value is 0; otherwise the value is the truncated quotient, or `MinInt` for `MinInt / -1` |
| Errores.ExactlyOneOutcome | 7.Errores/errores.go:26-31 | exactly one outcome holds: a nil error with the quotient, or the division-by-zero error with value 0 |
| Errores.AgreesWithFunciones | 7.Errores/errores.go:30 | for `b != 0` the value equals the quotient of the functions lesson's `dividir`, and without overflow it recombines with that remainder into `a` |
| Errores.MainTakesErrorBranch | 7.Errores/errores.go:10-12 | `dividir(10, 0)` in `main` returns the non-nil error "división por cero" |

## Left out

- Go's `int` on 32-bit platforms: the model fixes the width at 64 bits.
- Funciones.Dividir: a zero divisor is excluded by `requires b != 0`, as it is for `GoInt.Quo` and `GoInt.Rem`. Go's run-time panic ("integer divide by zero") and any recovery from it are not modelled.
- `factorial` on a negative or very large argument: in Go it recurses until the goroutine stack limit ends the program with a fatal error. The model describes this with a bounded number of frames (`FactorialWithStack`), not with Go's actual stack size in bytes.
- Funciones.Factorial: assumes an unbounded stack. For an `n` in the tens of millions, Go's capped goroutine stack overflows first. `Funciones.FactorialWithStack` and `Funciones.StackedFactorialAgrees` cover the bounded case. The recurrence holds exactly only up to `n = 20`; above that, each step wraps modulo 2^64.
- `Errores.Dividir`'s error is compared by message only. Go compares two `errors.New` values by identity, so two calls produce distinct errors.
- `puedePanic` and the `defer`/`recover` blocks of `7.Errores/errores.go` are not modelled: they are run-time control flow and printing, with no data contract.
- Both `main` functions and all printing are I/O. Only the values they pass and print are stated, in `Funciones.MainValues` and `Errores.MainTakesErrorBranch`.
- The other lessons are not modelled. They cover `4.Punteros`, interfaces, concurrency, file I/O, JSON, HTTP servers, an ORM example and deployment notes. They are either I/O and library calls or have no behaviour beyond constants.
- `Sumar`, which `11.Testing/main_test.go` checks with `Sumar(3, 4) == 7`, is not part of this model. `Sumar` is declared in another file of `11.Testing` that this model does not cover; `Funciones.Suma` covers the same sum.

# Factorial

A Dafny model of `fact(n)`, the recursive factorial function of
`notebooks/examples/fact.py`, with proofs of what it computes.

`fact` takes an integer `n`. If `n < 0` it raises a `ValueError`. Otherwise it
returns `1` for `n == 0` and `n * fact(n - 1)` for `n > 0`. Python integers have
arbitrary precision, so the model uses Dafny's unbounded `int` and there is no
overflow to model. The raised exception becomes a `Failure` result carrying a
`ValueError` with its message (module `Factorial`, file `fact.dfy`). The
recursive branch propagates a failure of the recursive call unchanged, as the
exception would. The contract of `Fact` proves that this never happens.

The independent reference definition is `Product(lo, hi)`, the product of the
integers `lo..hi`, multiplied from the bottom up. `FactUnique` also
characterises the factorial by its two defining equations. `CallArguments(n)`
lists the arguments of the successive calls that evaluating `fact(n)` makes.
The guard and termination properties are stated over that list.

The `{n}` placeholder in the error message suggests the value was meant to be
filled in, but the literal has no `f` prefix, so the text is literally
`Cannot compute factorial of values less than 0: {n}` for every negative
input. The model keeps that literal text.

## Model

| member | source | states |
|---|---|---|
| Factorial.Fact | notebooks/examples/fact.py:1-4 | fails exactly when `n < 0`; every failure is the `ValueError` with the fixed message; every result is at least 1 and at least `n` (never zero or negative) |
| Factorial.FactEquations | notebooks/examples/fact.py:4 | `fact(0) == 1`; for `n > 0`, `fact(n - 1)` succeeds and `fact(n) == n * fact(n - 1)` |
| Factorial.FactUnique | notebooks/examples/fact.py:4 | any function satisfying `g(0) == 1` and `g(m) == m * g(m - 1)` for `m > 0` equals `fact` on every `n >= 0` |
| Factorial.NegativeFailsAlike | notebooks/examples/fact.py:2-3 | all negative inputs give the same failure, so the message does not depend on the input |
| Factorial.FactIsProduct | notebooks/examples/fact.py:4 | for `n >= 0`, `fact(n)` is the product of the integers `1..n` |
| Factorial.FactDivisible | notebooks/examples/fact.py:4 | for `1 <= k <= n`, `fact(n)` succeeds and `k` divides it |
| Factorial.CallArgumentsDescend | notebooks/examples/fact.py:4 | from `n >= 0` the calls are on `n, n - 1, ..., 0`: each recursive call has an argument in `0..n-1`, and the last one is the base case |
| Factorial.CallArguments | notebooks/examples/fact.py:2-4 | the first call is on `n`; a call on a negative value or on 0 makes no further call |
| Factorial.CallsChain | notebooks/examples/fact.py:4 | from `n >= 0`, each listed call after the first is on the previous argument minus 1, it succeeds, and the previous call returns its argument times that result |
| Factorial.GuardOnlyAtTop | notebooks/examples/fact.py:2-4 | no recursive call has a negative argument; `fact(n)` fails exactly when some call's guard fires |
| Factorial.Examples | notebooks/examples/fact.py:1-4 | `fact(0) == 1`, `fact(1) == 1`, `fact(5) == 120`, `fact(10) == 3628800`, `fact(20) == 2432902008176640000`, and `fact(-1)` fails with the fixed message |

## Left out

- Exception unwinding: the raised `ValueError` is a `Failure` result, and propagation through callers is an explicit match.
- Stack depth: a `RecursionError` for very large `n` comes from the interpreter's limit, not from the code.
- Non-integer arguments: the `int` annotation is not enforced at run time; the input is a mathematical integer.
- Purity and repeatability: `Fact` is a Dafny function, so equal arguments give equal results by construction; no lemma states it.

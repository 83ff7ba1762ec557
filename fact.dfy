/**
 A model of the factorial function `fact(n)`.

 The source takes an arbitrary-precision integer, raises a `ValueError` for a
 negative argument, returns 1 for 0 and `n * fact(n - 1)` otherwise. Here the
 integer is Dafny's unbounded `int`, and the raised exception is a `Failure`
 result that carries the error.
 */
module Factorial {

  /** The exception the source raises: a `ValueError` with its message text. */
  datatype Error = ValueError(message: string)

  /** What a call of `fact` does: return an integer, or raise an error. */
  datatype Result = Success(value: int) | Failure(error: Error)

  /** The message of the `ValueError`. The source writes it as a plain string
      literal, not an interpolated one, so the braces are part of the text and
      the offending value does not appear in it. */
  const NEGATIVE_INPUT_MESSAGE: string := "Cannot compute factorial of values less than 0: {n}"

  /** `fact(n)`: the guard on a negative argument, then the base case or the
      recursive call. An error raised by the recursive call would propagate
      unchanged, as an exception does; the contract shows that it never is. */
  function Fact(n: int): (r: Result)
    decreases n
    ensures r.Failure? <==> n < 0
    ensures r.Failure? ==> r.error == ValueError(NEGATIVE_INPUT_MESSAGE)
    ensures r.Success? ==> r.value >= 1 && r.value >= n
  {
    if n < 0 then
      Failure(ValueError(NEGATIVE_INPUT_MESSAGE))
    else if n == 0 then
      Success(1)
    else
      match Fact(n - 1)
      case Success(v) => Success(n * v)
      case Failure(e) => Failure(e)
  }

  /** The two defining equations of the factorial hold of `Fact`: 0! = 1 and,
      for every positive n, n! = n * (n - 1)!, with neither call failing. */
  lemma FactEquations(n: int)
    requires n >= 0
    ensures Fact(0) == Success(1)
    ensures n > 0 ==> Fact(n - 1).Success? && Fact(n) == Success(n * Fact(n - 1).value)
  {
  }

  /** Those two equations determine the factorial: any function of the
      integers that satisfies them agrees with `Fact` on every n >= 0. */
  lemma {:induction false} FactUnique(g: int -> int, n: int)
    requires g(0) == 1
    requires forall m :: m > 0 ==> g(m) == m * g(m - 1)
    requires n >= 0
    ensures Fact(n) == Success(g(n))
    decreases n
  {
    if n > 0 {
      FactUnique(g, n - 1);
    }
  }

  /** Every negative argument gives the same failure: the message does not
      depend on the argument. */
  lemma NegativeFailsAlike(m: int, n: int)
    requires m < 0 && n < 0
    ensures Fact(m) == Fact(n) == Failure(ValueError(NEGATIVE_INPUT_MESSAGE))
  {
  }

  // ---------------------------------------------------------------------
  // The factorial as a product

  /** The product of the integers lo, lo + 1, ..., hi; 1 when the range is
      empty. It multiplies from the bottom up, while `Fact` multiplies from
      the top down, so it is an independent reference definition. */
  function Product(lo: int, hi: int): int
    decreases hi - lo
  {
    if lo > hi then 1 else lo * Product(lo + 1, hi)
  }

  /** A non-empty range can be split at its top element. */
  lemma {:induction false} ProductTop(lo: int, hi: int)
    requires lo <= hi
    ensures Product(lo, hi) == Product(lo, hi - 1) * hi
    decreases hi - lo
  {
    if lo < hi {
      ProductTop(lo + 1, hi);
    }
  }

  /** A range splits around any of its elements. */
  lemma {:induction false} ProductSplit(lo: int, k: int, hi: int)
    requires lo <= k <= hi
    ensures Product(lo, hi) == Product(lo, k - 1) * (k * Product(k + 1, hi))
    decreases k - lo
  {
    if lo < k {
      ProductSplit(lo + 1, k, hi);
      var below, above := Product(lo + 1, k - 1), Product(k + 1, hi);
      calc {
        Product(lo, hi);
        lo * Product(lo + 1, hi);
        lo * (below * (k * above));
        { MultiplyAssociates(lo, below, k * above); }
        (lo * below) * (k * above);
        Product(lo, k - 1) * (k * above);
      }
    }
  }

  /** Every positive factor of a range divides its product. */
  lemma ProductDivisible(lo: int, hi: int, k: int)
    requires lo <= k <= hi
    requires k > 0
    ensures Product(lo, hi) % k == 0
  {
    ProductSplit(lo, k, hi);
    var below, above := Product(lo, k - 1), Product(k + 1, hi);
    MultiplyAssociates(k, below, above);
    MultipleModulus(k, below * above);
  }

  /** Regrouping a product of three integers. */
  lemma MultiplyAssociates(a: int, b: int, c: int)
    ensures a * (b * c) == (a * b) * c == b * (a * c)
  {
  }

  /** A multiple of a positive k leaves no remainder when divided by k. */
  lemma MultipleModulus(k: int, q: int)
    requires k > 0
    ensures (k * q) % k == 0
  {
    var m := k * q;
    var d := q - m / k;
    assert k * d == m % k;
  }

  /** For every n >= 0, `fact(n)` is the product of the integers 1..n. */
  lemma {:induction false} FactIsProduct(n: int)
    requires n >= 0
    ensures Fact(n) == Success(Product(1, n))
    decreases n
  {
    if n > 0 {
      FactIsProduct(n - 1);
      ProductTop(1, n);
    }
  }

  /** For every n >= 0, each k with 1 <= k <= n divides `fact(n)`. */
  lemma FactDivisible(n: int, k: int)
    requires 1 <= k <= n
    ensures Fact(n).Success? && Fact(n).value % k == 0
  {
    FactIsProduct(n);
    ProductDivisible(1, n, k);
  }

  // ---------------------------------------------------------------------
  // The calls that evaluating fact(n) makes

  /** The arguments of the successive calls of `fact` that evaluating
      `fact(n)` makes, the outermost first. A call with a negative argument
      or with 0 makes no further call. */
  function CallArguments(n: int): (r: seq<int>)
    decreases if n < 0 then 0 else n
    ensures |r| >= 1 && r[0] == n
  {
    if n <= 0 then [n] else [n] + CallArguments(n - 1)
  }

  /** From n >= 0 the call arguments are n, n - 1, ..., 0: each recursive
      call is on an argument in 0..n-1, and the last call is the base case. */
  lemma {:induction false} CallArgumentsDescend(n: int)
    requires n >= 0
    ensures |CallArguments(n)| == n + 1
    ensures forall i :: 0 <= i < |CallArguments(n)| ==> CallArguments(n)[i] == n - i
    decreases n
  {
    if n > 0 {
      CallArgumentsDescend(n - 1);
      assert CallArguments(n) == [n] + CallArguments(n - 1);
    }
  }

  /** The listed calls are the calls `Fact` makes: each call after the first
      is the recursive call of the one before it, which succeeds, and the
      earlier call returns its argument times that call's result. */
  lemma {:induction false} CallsChain(n: int, i: int)
    requires n >= 0
    requires 0 <= i < |CallArguments(n)| - 1
    ensures CallArguments(n)[i + 1] == CallArguments(n)[i] - 1
    ensures Fact(CallArguments(n)[i + 1]).Success?
    ensures Fact(CallArguments(n)[i]) == Success(CallArguments(n)[i] * Fact(CallArguments(n)[i + 1]).value)
  {
    CallArgumentsDescend(n);
  }

  /** The guard fires only in the outermost call, if at all: no recursive call
      has a negative argument, and `fact(n)` fails exactly when some call's
      guard fires. */
  lemma GuardOnlyAtTop(n: int)
    ensures forall i :: 1 <= i < |CallArguments(n)| ==> CallArguments(n)[i] >= 0
    ensures Fact(n).Failure? <==> exists i :: 0 <= i < |CallArguments(n)| && CallArguments(n)[i] < 0
  {
    if n >= 0 {
      CallArgumentsDescend(n);
    } else {
      assert CallArguments(n)[0] < 0;
    }
  }

  /** Some concrete values of `fact`, and the failure on -1. */
  lemma Examples()
    ensures Fact(0) == Success(1)
    ensures Fact(1) == Success(1)
    ensures Fact(5) == Success(120)
    ensures Fact(10) == Success(3628800)
    ensures Fact(20) == Success(2432902008176640000)
    ensures Fact(-1) == Failure(ValueError(NEGATIVE_INPUT_MESSAGE))
  {
  }
}

/** Python semantics the modelled code relies on: exceptions as a Result,
    list indexing and slicing (negative indices, clamped bounds), torch's
    truncating integer division and the built-in round(), which rounds
    half to even. */
module Py {

  /** The exception classes the modelled code can raise. */
  datatype Error =
    | ZeroDivisionError
    | IndexError
    | ValueError
    | AssertionError
    | RuntimeError

  /** Either the value a Python expression returns or the exception it raises. */
  datatype Result<+T> = Ok(value: T) | Err(error: Error) {

    predicate IsFailure() {
      Err?
    }

    function PropagateFailure<U>(): Result<U>
      requires Err?
    {
      Err(error)
    }

    function Extract(): T
      requires Ok?
    {
      value
    }
  }

  function Min(a: int, b: int): int {
    if a <= b then a else b
  }

  function Max(a: int, b: int): int {
    if a >= b then a else b
  }

  /** torch's integer `//` (`floor_divide`) before PyTorch 1.13: the
      quotient rounded towards zero, so that q * b lies between 0 and a and
      misses a by less than |b| (Dafny's `/` is Euclidean instead). */
  function TruncDiv(a: int, b: int): (q: int)
    requires b != 0
    ensures 0 <= a ==> 0 <= q * b <= a < q * b + Abs(b)
    ensures a < 0 ==> q * b - Abs(b) < a <= q * b <= 0
  {
    var n: nat := Abs(a);
    var d: nat := Abs(b);
    NatDivBounds(n, d);
    var u := n / d;
    if a >= 0 && b > 0 then u
    else if a >= 0 then
      assert (-u) * b == u * d;
      -u
    else if b > 0 then
      assert (-u) * b == -(u * d);
      -u
    else
      assert u * b == -(u * d);
      u
  }

  /** The Euclidean quotient of naturals leaves a remainder below d. */
  lemma NatDivBounds(n: nat, d: nat)
    requires d > 0
    ensures 0 <= (n / d) * d <= n < (n / d) * d + d
  {
  }

  function Abs(a: int): nat {
    if a >= 0 then a else -a
  }

  /** Truncation is symmetric in the divisor's sign, which floor division
      is not: 1 // -2 truncates to 0 but floors to -1. */
  lemma TruncDivNegate(a: int, b: int)
    requires b != 0
    ensures TruncDiv(a, -b) == -TruncDiv(a, b)
    ensures TruncDiv(1, -2) == 0
  {
  }

  /** `xs[i]` on a Python list: negative indices count from the end. */
  function Index<T>(xs: seq<T>, i: int): (r: Result<T>)
    ensures r.Ok? <==> -|xs| <= i < |xs|
    ensures r.Ok? ==> r.value == xs[if i < 0 then |xs| + i else i]
  {
    if 0 <= i < |xs| then Ok(xs[i])
    else if -|xs| <= i < 0 then Ok(xs[|xs| + i])
    else Err(IndexError)
  }

  /** `xs[:k]`: a prefix, with a negative k counting from the end and an
      out-of-range k clamped instead of raising. */
  function Prefix<T>(xs: seq<T>, k: int): (r: seq<T>)
    ensures 0 <= k <= |xs| ==> r == xs[..k]
    ensures k > |xs| ==> r == xs
    ensures k < 0 ==> r == xs[..Max(0, |xs| + k)]
  {
    if k >= 0 then xs[..Min(k, |xs|)] else xs[..Max(0, |xs| + k)]
  }

  /** A prefix keeps a sub-multiset of the items. */
  lemma PrefixItems<T>(xs: seq<T>, k: int)
    ensures |Prefix(xs, k)| == (if k >= 0 then Min(k, |xs|) else Max(0, |xs| + k))
    ensures multiset(Prefix(xs, k)) <= multiset(xs)
  {
    var r := Prefix(xs, k);
    assert xs == r + xs[|r|..];
  }

  /** `xs[a:b]` for non-negative bounds: both ends clamped to the length. */
  function Slice<T>(xs: seq<T>, a: nat, b: nat): (r: seq<T>)
    ensures a <= b <= |xs| ==> r == xs[a..b]
    ensures |r| == Max(0, Min(b, |xs|) - Min(a, |xs|))
  {
    var lo := Min(a, |xs|);
    var hi := Min(b, |xs|);
    if lo <= hi then xs[lo..hi] else []
  }

  /** True when k is the value Python's round() gives for the exact
      quotient n / d: the nearest integer, ties going to the even one. */
  ghost predicate IsRoundHalfEven(n: int, d: int, k: int)
    requires d != 0
  {
    var dist := if n - k * d >= 0 then n - k * d else k * d - n;
    var ad := if d >= 0 then d else -d;
    2 * dist <= ad && (2 * dist == ad ==> k % 2 == 0)
  }

  /** Python's `round(n / d)` on integers n and d (d non-zero). */
  function RoundHalfEven(n: int, d: int): (k: int)
    requires d != 0
    ensures IsRoundHalfEven(n, d, k)
    decreases if d < 0 then 1 else 0
  {
    if d < 0 then
      var k := RoundHalfEven(-n, -d);
      RoundNegated(n, d, k);
      k
    else
      var q := n / d;
      var rem := n % d;
      var k := if 2 * rem < d then q
               else if 2 * rem > d then q + 1
               else if q % 2 == 0 then q
               else q + 1;
      RoundFromRemainder(n, d, q, rem, k);
      k
  }

  lemma RoundNegated(n: int, d: int, k: int)
    requires d < 0 && IsRoundHalfEven(-n, -d, k)
    ensures IsRoundHalfEven(n, d, k)
  {
    assert n - k * d == -(-n - k * -d);
  }

  /** Rounding picks q or q + 1 by comparing twice the remainder with d. */
  lemma RoundFromRemainder(n: int, d: int, q: int, rem: int, k: int)
    requires d > 0 && q == n / d && rem == n % d
    requires k == q || k == q + 1
    requires k == q ==> 2 * rem <= d && (2 * rem == d ==> q % 2 == 0)
    requires k == q + 1 ==> 2 * rem >= d && (2 * rem == d ==> q % 2 != 0)
    ensures IsRoundHalfEven(n, d, k)
  {
    assert n - q * d == rem;
    assert n - (q + 1) * d == rem - d;
    if k == q + 1 && 2 * rem == d {
      assert (q + 1) % 2 == 0;
    }
  }

  /** For a positive divisor, the rounded quotient is non-negative exactly
      when n / d >= -1/2: a tie at -1/2 goes to the even 0. */
  lemma RoundSign(n: int, d: int, k: int)
    requires d > 0 && IsRoundHalfEven(n, d, k)
    ensures k >= 0 <==> 2 * n >= -d
  {
    QuotientSign(k, d);
    QuotientSign(k + 1, d);
  }

  lemma QuotientSign(q: int, d: int)
    requires d > 0
    ensures q >= 0 ==> q * d >= 0
    ensures q <= -1 ==> q * d <= -d
  {
    assert (q + 1) * d == q * d + d;
  }

  /** At most one integer satisfies the round-half-even description, so
      the stride the source computes is determined by its inputs. */
  lemma RoundHalfEvenUnique(n: int, d: int, k1: int, k2: int)
    requires d != 0
    requires IsRoundHalfEven(n, d, k1) && IsRoundHalfEven(n, d, k2)
    ensures k1 == k2
  {
    if d < 0 {
      assert n - k1 * d == -(-n - k1 * -d);
      assert n - k2 * d == -(-n - k2 * -d);
      RoundUniquePositive(-n, -d, k1, k2);
    } else {
      RoundUniquePositive(n, d, k1, k2);
    }
  }

  lemma RoundUniquePositive(n: int, d: int, k1: int, k2: int)
    requires d > 0
    requires IsRoundHalfEven(n, d, k1) && IsRoundHalfEven(n, d, k2)
    ensures k1 == k2
  {
    if k1 <= k2 {
      RoundUniqueOrdered(n, d, k1, k2);
    } else {
      RoundUniqueOrdered(n, d, k2, k1);
    }
  }

  lemma RoundUniqueOrdered(n: int, d: int, lo: int, hi: int)
    requires d > 0 && lo <= hi
    requires IsRoundHalfEven(n, d, lo) && IsRoundHalfEven(n, d, hi)
    ensures lo == hi
  {
    var plo := lo * d;
    var phi := hi * d;
    var gap := hi - lo;
    assert phi - plo == gap * d;
    assert 2 * (phi - plo) <= 2 * d;
    AtMostOneStep(gap, d);
  }

  lemma AtMostOneStep(a: nat, d: int)
    requires d > 0 && a * d <= d
    ensures a <= 1
  {
    assert (a - 1) * d <= 0;
  }
}

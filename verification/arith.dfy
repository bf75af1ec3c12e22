/** The integer arithmetic behind slice bounds and the chunk and batch counts. */
module Arith {

  function Min(a: int, b: int): (m: int)
    ensures m <= a && m <= b
    ensures m == a || m == b
  {
    if a <= b then a else b
  }

  function Max(a: int, b: int): (m: int)
    ensures m >= a && m >= b
    ensures m == a || m == b
  {
    if a <= b then b else a
  }

  /** Ceiling of `a / b` for a positive divisor, counted as the number of `b`-sized steps that cover `a`. */
  function CeilDiv(a: nat, b: nat): nat
    requires b > 0
    decreases a
  {
    if a == 0 then 0 else if a <= b then 1 else 1 + CeilDiv(a - b, b)
  }

  /** `CeilDiv(a, b)` is the least `q` with `a <= q * b`. */
  lemma {:induction false} CeilDivBounds(a: nat, b: nat)
    requires b > 0
    ensures a <= CeilDiv(a, b) * b
    ensures (CeilDiv(a, b) - 1) * b < a
    decreases a
  {
    if a > b {
      CeilDivBounds(a - b, b);
      var q := CeilDiv(a - b, b);
      assert (q + 1) * b == q * b + b;
      assert q * b == (q - 1) * b + b;
    }
  }

  /** The count agrees with the closed form `(a + b - 1) / b`. */
  lemma CeilDivIsQuotient(a: nat, b: nat)
    requires b > 0
    ensures CeilDiv(a, b) == (a + b - 1) / b
  {
    var q := CeilDiv(a, b);
    CeilDivBounds(a, b);
    if a == 0 {
      DivUnique(b - 1, b, 0, b - 1);
    } else {
      assert q > 0;
      assert q * b == (q - 1) * b + b;
      DivUnique(a + b - 1, b, q, a + b - 1 - q * b);
    }
  }

  /** Multiplication by a natural number is monotonic in its left factor. */
  lemma {:induction false} MulMono(m: nat, n: nat, b: nat)
    requires m <= n
    ensures m * b <= n * b
    decreases n - m
  {
    if m < n {
      MulMono(m, n - 1, b);
      assert n * b == (n - 1) * b + b;
    }
  }

  /** The only multiple of `b` strictly between `-b` and `b` is zero. */
  lemma SmallMultiple(d: int, b: int)
    requires b > 0 && -b < d * b < b
    ensures d == 0
  {
    if d > 0 {
      MulMono(1, d, b);
    }
  }

  /** Euclidean division is determined by any quotient/remainder pair. */
  lemma DivUnique(x: nat, b: nat, q: nat, r: nat)
    requires b > 0 && r < b && x == q * b + r
    ensures x / b == q
  {
    var q' := x / b;
    var r' := x % b;
    assert x == q' * b + r';
    assert (q - q') * b == q * b - q' * b;
    SmallMultiple(q - q', b);
  }
}

/** Integer helpers for the truncating arithmetic of the original script. */
module Arith {

  /** `t` is the integer part of `num / den`, rounded toward zero, as Python's
      `int()` computes it from an exact quotient. Stated by inequalities only. */
  predicate TruncatesTo(num: int, den: int, t: int)
    requires den > 0
  {
    if num >= 0 then 0 <= t * den <= num < t * den + den
    else t * den - den < num <= t * den <= 0
  }

  /** Division rounding toward zero. Dafny's `/` is Euclidean and would round
      negative quotients down instead. */
  function TruncDiv(num: int, den: int): (t: int)
    requires den > 0
    ensures TruncatesTo(num, den, t)
    ensures num >= 0 ==> t == num / den
  {
    if num >= 0 then num / den else -((-num) / den)
  }

  /** Truncation is symmetric around zero (unlike floor division). */
  lemma TruncDivOdd(num: int, den: int)
    requires den > 0
    ensures TruncDiv(-num, den) == -TruncDiv(num, den)
  {
  }

  /** Only one integer is the truncated quotient. */
  lemma TruncatesToUnique(num: int, den: int, t: int, u: int)
    requires den > 0
    requires TruncatesTo(num, den, t) && TruncatesTo(num, den, u)
    ensures t == u
  {
    if t < u {
      MulStrictMono(t, u, den);
    } else if u < t {
      MulStrictMono(u, t, den);
    }
  }

  /** `a < b` and a positive factor give `a * c + c <= b * c`. */
  lemma {:induction false} MulStrictMono(a: int, b: int, c: int)
    requires a < b && c > 0
    ensures a * c + c <= b * c
    decreases b - a
  {
    if b == a + 1 {
      assert b * c == a * c + c;
    } else {
      MulStrictMono(a, b - 1, c);
      assert b * c == (b - 1) * c + c;
    }
  }

  /** A larger divisor never yields a larger quotient of a non-negative number. */
  lemma TruncDivAntiMonotone(num: int, den: int, den': int)
    requires num >= 0 && 0 < den <= den'
    ensures TruncDiv(num, den') <= TruncDiv(num, den)
  {
    var q, q' := num / den, num / den';
    assert 0 <= q' * den' <= num;
    if q' > q {
      MulStrictMono(q, q', den);
      assert q' * den <= q' * den' by { MulLeftMono(q', den, den'); }
      assert false;
    }
  }

  /** A non-negative factor preserves order. */
  lemma {:induction false} MulLeftMono(a: int, b: int, c: int)
    requires a >= 0 && b <= c
    ensures a * b <= a * c
    decreases a
  {
    if a > 0 {
      MulLeftMono(a - 1, b, c);
      assert a * b == (a - 1) * b + b;
      assert a * c == (a - 1) * c + c;
    }
  }

  /** The quotient and remainder of a division are determined by the
      remainder's range: the round trip of `q * d + r`. */
  lemma DivModUnique(n: int, d: int, q: int, r: int)
    requires d > 0 && 0 <= r < d && n == q * d + r
    ensures n / d == q && n % d == r
  {
    var q0, r0 := n / d, n % d;
    assert n == q0 * d + r0 && 0 <= r0 < d;
    if q < q0 {
      MulStrictMono(q, q0, d);
    } else if q0 < q {
      MulStrictMono(q0, q, d);
    }
  }

  /** Any `t` with `t * den <= num` is at most the floor quotient. */
  lemma FloorGreatest(num: int, den: int, t: int)
    requires den > 0 && t * den <= num
    ensures t <= num / den
  {
    var q := num / den;
    if t > q {
      MulStrictMono(q, t, den);
    }
  }
}

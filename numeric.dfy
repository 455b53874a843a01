/**
 * Machine integer types used by the flame-graph tool, with the constants
 * that bound them, and the two reducers (min/max) used to widen spans.
 */
module Numeric {
  const U8_LIMIT: int := 0x100
  const U32_LIMIT: int := 0x1_0000_0000
  const U64_LIMIT: int := 0x1_0000_0000_0000_0000
  const U32_MAX: int := U32_LIMIT - 1

  type u8 = x: int | 0 <= x < U8_LIMIT
  type u32 = x: int | 0 <= x < U32_LIMIT
  type u64 = x: int | 0 <= x < U64_LIMIT

  /** A byte of a name, as it is held in a Rust `String`. */
  type byte = u8

  function Min(a: int, b: int): (m: int)
    ensures m <= a && m <= b && (m == a || m == b)
  {
    if a <= b then a else b
  }

  function Max(a: int, b: int): (m: int)
    ensures a <= m && b <= m && (m == a || m == b)
  {
    if a <= b then b else a
  }

  // ---------------------------------------------------------------------
  // Euclidean division facts the solver does not find on its own

  lemma MulSign(d: int, m: int)
    requires m > 0
    ensures d >= 1 ==> d * m >= m
    ensures d <= -1 ==> d * m <= -m
  {
  }

  /** Quotient and remainder are unique. */
  lemma DivModUnique(x: int, q: int, r: int, m: int)
    requires m > 0 && 0 <= r < m && x == q * m + r
    ensures x / m == q && x % m == r
  {
    var q', r' := x / m, x % m;
    assert (q - q') * m == r' - r;
    MulSign(q - q', m);
  }

  lemma DivMono(a: int, b: int, m: int)
    requires m > 0 && a <= b
    ensures a / m <= b / m
  {
    var qa, qb := a / m, b / m;
    assert (qa - qb) * m == qa * m - qb * m;
    MulSign(qa - qb, m);
  }

  /** Truncation of a sum loses at least as much as truncating each term. */
  lemma DivAddLe(a: int, b: int, m: int)
    requires m > 0
    ensures a / m + b / m <= (a + b) / m
  {
    var qa, qb, q := a / m, b / m, (a + b) / m;
    assert (q - qa - qb) * m == q * m - qa * m - qb * m;
    MulSign(q - qa - qb, m);
  }

  lemma MulDivCancel(t: int, w: int)
    requires t > 0
    ensures (t * w) / t == w
  {
    DivModUnique(t * w, w, 0, t);
  }

  /** Reducing modulo a multiple of `a` first does not change the remainder modulo `a`. */
  lemma ModMod(x: int, a: int, b: int)
    requires a > 0 && b > 0
    ensures (x % (a * b)) % a == x % a
  {
    var q, r := x / (a * b), x % (a * b);
    var q2, r2 := r / a, r % a;
    assert x == (q * b + q2) * a + r2;
    DivModUnique(x, q * b + q2, r2, a);
  }

  lemma MulLeMono(a: int, b: int, c: int)
    requires a <= b && c >= 0
    ensures a * c <= b * c
  {
  }

  lemma Distrib(a: int, b: int, c: int)
    ensures a * c + b * c == (a + b) * c
  {
  }
}

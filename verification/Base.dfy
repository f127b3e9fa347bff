/** Shared definitions. */
module Base {
  datatype Option<+T> = None | Some(value: T)

  function Max(a: int, b: int): int { if a > b then a else b }
  function Min(a: int, b: int): int { if a < b then a else b }

  /** The lower-case hexadecimal digits. */
  function HexDigit(d: nat): char
    requires d < 16
  {
    "0123456789abcdef"[d]
  }

  /** char path[2048] in the handlers */
  const PATH_SIZE: nat := 2048

  // ---------------------------------------------------------------- division

  /** Quotient and remainder are the only numbers that fit. */
  lemma DivIs(n: nat, d: nat, q: nat, r: nat)
    requires d > 0 && r < d && n == q * d + r
    ensures n / d == q && n % d == r
  {
    var k := n / d;
    assert (q - k) * d == q * d - k * d == n % d - r;
    SmallMultiple(q - k, d);
  }

  lemma Grows(m: int, d: int)
    requires m > 0 && d > 0
    ensures m * d >= d
  {
    assert (m - 1) * d >= 0;
    assert m * d == (m - 1) * d + d;
  }

  lemma SmallMultiple(m: int, d: int)
    requires d > 0 && -d < m * d < d
    ensures m == 0
  {
    if m > 0 {
      Grows(m, d);
    } else if m < 0 {
      assert (-m) * d == -(m * d);
      Grows(-m, d);
    }
  }
}

/** The C string functions that both sides rely on: strstr, decimal printing and strtoll. */
module CText {
  // ---------------------------------------------------------------- strstr

  /** `pat` stands at position `i` of `t`. */
  predicate At(t: string, pat: string, i: nat)
  {
    i + |pat| <= |t| && t[i..i + |pat|] == pat
  }

  lemma AtSplits(t: string, a: string, b: string, i: nat)
    ensures At(t, a + b, i) <==> At(t, a, i) && At(t, b, i + |a|)
  {
    if i + |a| + |b| <= |t| {
      var u := t[i..i + |a| + |b|];
      assert u == t[i..i + |a|] + t[i + |a|..i + |a| + |b|];
      assert u == a + b ==> u[..|a|] == a && u[|a|..] == b;
    }
  }

  lemma AtShift(t: string, pat: string, n: nat, j: nat)
    requires n <= |t|
    ensures At(t, pat, n + j) <==> At(t[n..], pat, j)
  {
    if n + j + |pat| <= |t| {
      var u, v := t[n..][j..j + |pat|], t[n + j..n + j + |pat|];
      assert forall k :: 0 <= k < |pat| ==> u[k] == v[k];
      assert u == v;
    }
  }

  lemma AtThree(t: string, a: string, b: string, c: string, i: nat)
    requires At(t, a + (b + c), i) && c != ""
    ensures At(t, a, i) && At(t, b, i + |a|) && At(t, c, i + |a| + |b|) && t[i + |a| + |b|] == c[0]
  {
    AtSplits(t, a, b + c, i);
    AtSplits(t, b, c, i + |a|);
    AtHead(t, c, i + |a| + |b|);
  }

  lemma AtHead(t: string, a: string, i: nat)
    requires At(t, a, i) && a != ""
    ensures t[i] == a[0]
  {
    assert t[i] == t[i..i + |a|][0];
  }

  /** The first position, not before `from`, at which `pat` stands, or -1. */
  function Find(t: string, pat: string, from: nat): (r: int)
    requires from <= |t|
    ensures r == -1 || (from <= r && At(t, pat, r))
    decreases |t| - from
  {
    if At(t, pat, from) then from
    else if from == |t| then -1
    else Find(t, pat, from + 1)
  }

  /** Before what `Find` returns there is no match. */
  lemma {:induction false} FindIsFirst(t: string, pat: string, from: nat, i: nat)
    requires from <= |t| && from <= i && (Find(t, pat, from) == -1 || i < Find(t, pat, from))
    ensures !At(t, pat, i)
    decreases |t| - from
  {
    if from < i && from < |t| {
      FindIsFirst(t, pat, from + 1, i);
    }
  }

  /** A match is found, or an earlier one. */
  lemma FoundBy(t: string, pat: string, from: nat, i: nat)
    requires from <= i <= |t| && At(t, pat, i)
    ensures from <= Find(t, pat, from) <= i
  {
    if Find(t, pat, from) < 0 || i < Find(t, pat, from) {
      FindIsFirst(t, pat, from, i);
    }
  }

  /** Looking from later on finds the same if nothing matches before. */
  lemma {:induction false} FindSkips(t: string, pat: string, a: nat, b: nat)
    requires a <= b <= |t| && forall i: nat :: a <= i < b ==> !At(t, pat, i)
    ensures Find(t, pat, a) == Find(t, pat, b)
    decreases b - a
  {
    if a < b {
      assert !At(t, pat, a);
      FindSkips(t, pat, a + 1, b);
    }
  }

  /** What `Find` returns is determined by being the first match. */
  lemma {:induction false} FirstMatchIsFound(t: string, pat: string, from: nat, p: nat)
    requires from <= p <= |t| && At(t, pat, p)
    requires forall i: nat :: from <= i < p ==> !At(t, pat, i)
    ensures Find(t, pat, from) == p
    decreases p - from
  {
    if from < p {
      assert !At(t, pat, from);
      FirstMatchIsFound(t, pat, from + 1, p);
    }
  }

  /** strchr: the first `c` at or after `p`, or the end. */
  function Next(t: string, c: char, p: nat): (q: nat)
    requires p <= |t|
    ensures p <= q <= |t| && (q < |t| ==> t[q] == c)
    decreases |t| - p
  {
    if p == |t| || t[p] == c then p else Next(t, c, p + 1)
  }

  lemma {:induction false} NextIsFirst(t: string, c: char, p: nat)
    requires p <= |t|
    ensures forall k :: p <= k < Next(t, c, p) ==> t[k] != c
    decreases |t| - p
  {
    if p < |t| && t[p] != c {
      NextIsFirst(t, c, p + 1);
    }
  }

  lemma {:induction false} NextIs(t: string, c: char, p: nat, q: nat)
    requires p <= q <= |t| && (q < |t| ==> t[q] == c) && forall k :: p <= k < q ==> t[k] != c
    ensures Next(t, c, p) == q
    decreases q - p
  {
    if p < q {
      NextIs(t, c, p + 1, q);
    }
  }

  lemma {:induction false} NextShift(a: string, b: string, t: string, c: char, k: nat)
    requires t == a + b && k <= |b|
    ensures Next(t, c, |a| + k) == |a| + Next(b, c, k)
    decreases |b| - k
  {
    if k < |b| && b[k] != c {
      NextShift(a, b, t, c, k + 1);
    }
  }

  lemma {:induction false} NextStays(a: string, t: string, c: char, k: nat)
    requires a <= t && k <= |a| && (|a| < |t| ==> t[|a|] == c)
    ensures Next(t, c, k) == Next(a, c, k)
    decreases |a| - k
  {
    if k < |a| && a[k] != c {
      NextStays(a, t, c, k + 1);
    }
  }

  // ---------------------------------------------------------------- character by character

  /** Every character replaced by its own piece of text. */
  function Flat(f: char -> string, s: string): string
  {
    if s == "" then "" else Flat(f, s[..|s| - 1]) + f(s[|s| - 1])
  }

  lemma {:induction false} FlatCons(f: char -> string, s: string)
    requires s != ""
    ensures Flat(f, s) == f(s[0]) + Flat(f, s[1..])
    decreases |s|
  {
    var n := |s| - 1;
    if n == 0 {
      assert s[..0] == "" && s[1..] == "";
    } else {
      FlatCons(f, s[..n]);
      var mid := s[..n][1..];
      assert s[1..][..n - 1] == mid;
      assert f(s[0]) + Flat(f, mid) + f(s[n]) == f(s[0]) + (Flat(f, mid) + f(s[n]));
    }
  }

  lemma FlatSnoc(f: char -> string, s: string, i: nat)
    requires i < |s|
    ensures Flat(f, s[..i + 1]) == Flat(f, s[..i]) + f(s[i])
  {
    assert s[..i + 1][..i] == s[..i];
  }

  // ---------------------------------------------------------------- decimal numbers

  const LLONG_MAX: int := 0x7fff_ffff_ffff_ffff
  const LLONG_MIN: int := -0x8000_0000_0000_0000

  predicate IsDigit(c: char) { '0' <= c <= '9' }

  function Digit(d: nat): (c: char)
    requires d < 10
    ensures IsDigit(c) && DigitValue(c) == d
  {
    ('0' as int + d) as char
  }

  function DigitValue(c: char): (d: nat)
    ensures d < 10
  {
    if IsDigit(c) then c as int - '0' as int else 0
  }

  /** The decimal digits of a natural number. */
  function Digits(n: nat): (t: string)
    ensures |t| > 0 && forall i :: 0 <= i < |t| ==> IsDigit(t[i])
  {
    if n < 10 then [Digit(n)] else Digits(n / 10) + [Digit(n % 10)]
  }

  /** %lld */
  function Decimal(n: int): (t: string)
    ensures |t| > 0
  {
    if n < 0 then "-" + Digits(-n) else Digits(n)
  }

  predicate IsSpace(c: char)
  {
    c == ' ' || ('\t' <= c <= '\r')
  }

  /** The `n` characters from `i` on, and no more, satisfy the test. */
  ghost predicate IsSpan(t: string, i: nat, p: char -> bool, n: nat)
  {
    i + n <= |t| && (forall j :: i <= j < i + n ==> p(t[j])) && (i + n < |t| ==> !p(t[i + n]))
  }

  /** The number of characters from `i` on that satisfy the test. */
  function Span(t: string, i: nat, p: char -> bool): (n: nat)
    requires i <= |t|
    ensures i + n <= |t|
    decreases |t| - i
  {
    if i < |t| && p(t[i]) then 1 + Span(t, i + 1, p) else 0
  }

  function Value(digits: string): nat
  {
    if digits == "" then 0 else 10 * Value(digits[..|digits| - 1]) + DigitValue(digits[|digits| - 1])
  }

  function Clamp(n: int): int
  {
    if n > LLONG_MAX then LLONG_MAX else if n < LLONG_MIN then LLONG_MIN else n
  }

  function Signed(digits: string, negative: bool): (v: int)
    ensures LLONG_MIN <= v <= LLONG_MAX
  {
    var n: int := Value(digits);
    Clamp(if negative then -n else n)
  }

  /** Digits from position `j`: their value with the sign, and where they end; (0, 0) if there are none. */
  function Number(t: string, j: nat, negative: bool): (r: (int, nat))
    requires j <= |t|
    ensures LLONG_MIN <= r.0 <= LLONG_MAX && r.1 <= |t|
  {
    var n := Span(t, j, IsDigit);
    if n == 0 then (0, 0) else (Signed(t[j..j + n], negative), j + n)
  }

  /** strtoll in base 10: the value, and the number of characters used (0 if there is no number). */
  function Strtoll(t: string): (r: (int, nat))
    ensures LLONG_MIN <= r.0 <= LLONG_MAX && r.1 <= |t|
  {
    var i := Span(t, 0, IsSpace);
    if i < |t| && t[i] == '-' then Number(t, i + 1, true)
    else if i < |t| && t[i] == '+' then Number(t, i + 1, false)
    else Number(t, i, false)
  }

  lemma {:induction false} SpanIs(t: string, i: nat, p: char -> bool, n: nat)
    requires IsSpan(t, i, p, n)
    ensures Span(t, i, p) == n
    decreases n
  {
    if n > 0 {
      SpanIs(t, i + 1, p, n - 1);
    }
  }

  lemma {:induction false} ValueOfDigits(n: nat)
    ensures Value(Digits(n)) == n
  {
    if n < 10 {
      assert Digits(n)[..0] == "";
    } else {
      var t := Digits(n);
      assert t[..|t| - 1] == Digits(n / 10);
      ValueOfDigits(n / 10);
    }
  }

  predicate AllDigits(d: string)
  {
    forall i :: 0 <= i < |d| ==> IsDigit(d[i])
  }

  lemma DigitsSpan(t: string, j: nat, d: string)
    requires AllDigits(d) && At(t, d, j) && (j + |d| < |t| ==> !IsDigit(t[j + |d|]))
    ensures Span(t, j, IsDigit) == |d|
  {
    forall k | j <= k < j + |d|
      ensures IsDigit(t[k])
    {
      assert t[k] == t[j..j + |d|][k - j] == d[k - j];
    }
    SpanIs(t, j, IsDigit, |d|);
  }

  lemma ReadsDigits(t: string, j: nat, negative: bool, d: string)
    requires d != "" && AllDigits(d) && At(t, d, j) && (j + |d| < |t| ==> !IsDigit(t[j + |d|]))
    ensures Number(t, j, negative) == (Signed(d, negative), j + |d|)
  {
    DigitsSpan(t, j, d);
  }

  lemma NoSpace(t: string)
    requires t != "" && !IsSpace(t[0])
    ensures Span(t, 0, IsSpace) == 0
  {
  }

  lemma ReadsNegative(d: string, rest: string, t: string)
    requires d != "" && AllDigits(d) && (rest == "" || !IsDigit(rest[0])) && t == "-" + d + rest
    ensures Strtoll(t) == (Signed(d, true), 1 + |d|)
  {
    NoSpace(t);
    assert t[1..1 + |d|] == d;
    assert rest != "" ==> t[1 + |d|] == rest[0];
    ReadsDigits(t, 1, true, d);
  }

  lemma ReadsPositive(d: string, rest: string, t: string)
    requires d != "" && AllDigits(d) && (rest == "" || !IsDigit(rest[0])) && t == d + rest
    ensures Strtoll(t) == (Signed(d, false), |d|)
  {
    assert t[0] == d[0];
    NoSpace(t);
    assert t[0..|d|] == d;
    assert rest != "" ==> t[|d|] == rest[0];
    ReadsDigits(t, 0, false, d);
  }

  /** The six characters that are white space. */
  lemma SpacesAre(c: char)
    ensures IsSpace(c) <==> c as int in {9, 10, 11, 12, 13, 32}
  {
  }

  predicate AllSpaces(t: string) { forall i :: 0 <= i < |t| ==> IsSpace(t[i]) }

  /** After white space and perhaps a sign, what strtoll reads is the number there. */
  lemma AfterSign(t: string, blanks: string, sign: string, rest: string)
    requires t == blanks + sign + rest && AllSpaces(blanks) && sign in {"", "+", "-"}
    requires sign == "" ==> rest == "" || (!IsSpace(rest[0]) && rest[0] != '+' && rest[0] != '-')
    ensures Strtoll(t) == Number(t, |blanks| + |sign|, sign == "-")
  {
    assert forall i :: 0 <= i < |blanks| ==> t[i] == blanks[i];
    assert sign != "" ==> t[|blanks|] == sign[0];
    assert sign == "" && rest != "" ==> t[|blanks|] == rest[0];
    SpanIs(t, 0, IsSpace, |blanks|);
  }

  /** All that strtoll reads: white space, perhaps a sign, and digits up to the first character that is none. */
  lemma StrtollReads(blanks: string, sign: string, d: string, rest: string)
    requires AllSpaces(blanks) && sign in {"", "+", "-"}
    requires d != "" && AllDigits(d) && (rest == "" || !IsDigit(rest[0]))
    ensures Strtoll(blanks + sign + (d + rest)) == (Signed(d, sign == "-"), |blanks + sign| + |d|)
  {
    var u := d + rest;
    assert u[0] == d[0];
    AfterSign(blanks + sign + u, blanks, sign, u);
    NumberAfter(blanks + sign, sign == "-", d, rest);
  }

  lemma NumberAfter(before: string, negative: bool, d: string, rest: string)
    requires d != "" && AllDigits(d) && (rest == "" || !IsDigit(rest[0]))
    ensures Number(before + (d + rest), |before|, negative) == (Signed(d, negative), |before| + |d|)
  {
    var t, j := before + (d + rest), |before|;
    assert t[j..j + |d|] == d;
    assert rest != "" ==> t[j + |d|] == rest[0];
    ReadsDigits(t, j, negative, d);
  }

  /** The value of the digits with their sign, saturated at the ends of the range. */
  lemma Saturates(d: string, negative: bool)
    ensures var n: int := if negative then -(Value(d) as int) else Value(d);
      Signed(d, negative) ==
      if n > 0x7fff_ffff_ffff_ffff then 0x7fff_ffff_ffff_ffff
      else if n < -0x8000_0000_0000_0000 then -0x8000_0000_0000_0000 else n
  {
  }

  /** Anything else is no number. */
  lemma StrtollRefuses(blanks: string, sign: string, rest: string)
    requires AllSpaces(blanks) && sign in {"", "+", "-"} && (rest == "" || !IsDigit(rest[0]))
    requires sign == "" ==> rest == "" || (!IsSpace(rest[0]) && rest[0] != '+' && rest[0] != '-')
    ensures Strtoll(blanks + sign + rest) == (0, 0)
  {
    var t := blanks + sign + rest;
    AfterSign(t, blanks, sign, rest);
    assert rest != "" ==> t[|blanks| + |sign|] == rest[0];
  }

  /** Values by place: a digit more is ten times the value and the digit. */
  lemma ValueMore(d: string, c: char)
    requires IsDigit(c)
    ensures Value(d + [c]) == 10 * Value(d) + (c as int - 48)
  {
    assert (d + [c])[..|d|] == d;
  }

  /** Reading a printed number gives it back, whatever non-digit follows. */
  lemma StrtollOfDecimal(n: int, rest: string)
    requires LLONG_MIN <= n <= LLONG_MAX && (rest == "" || !IsDigit(rest[0]))
    ensures Strtoll(Decimal(n) + rest) == (n, |Decimal(n)|)
  {
    var m := if n < 0 then -n else n;
    ValueOfDigits(m);
    if n < 0 {
      ReadsNegative(Digits(m), rest, Decimal(n) + rest);
    } else {
      ReadsPositive(Digits(m), rest, Decimal(n) + rest);
    }
  }

  lemma SplitAt(t: string, at: nat, d: string) returns (rest: string)
    requires At(t, d, at) && (at + |d| < |t| ==> !IsDigit(t[at + |d|]))
    ensures t[at..] == d + rest && (rest == "" || !IsDigit(rest[0]))
  {
    rest := t[at + |d|..];
    assert t[at..] == t[at..at + |d|] + rest;
  }

  /** The same, with the number standing somewhere in a text. */
  lemma StrtollAt(t: string, at: nat, n: int)
    requires LLONG_MIN <= n <= LLONG_MAX && At(t, Decimal(n), at)
    requires at + |Decimal(n)| < |t| ==> !IsDigit(t[at + |Decimal(n)|])
    ensures Strtoll(t[at..]) == (n, |Decimal(n)|)
  {
    var rest := SplitAt(t, at, Decimal(n));
    StrtollOfDecimal(n, rest);
  }

  // ---------------------------------------------------------------- lengths of printed numbers

  predicate IsLong(n: int) { LLONG_MIN <= n <= LLONG_MAX }

  function Power10(k: nat): nat { if k == 0 then 1 else 10 * Power10(k - 1) }

  lemma {:induction false} DigitsLength(n: nat, k: nat)
    requires k > 0 && n < Power10(k)
    ensures |Digits(n)| <= k
    decreases k
  {
    if n >= 10 {
      DigitsLength(n / 10, k - 1);
    }
  }

  lemma DecimalLength(n: int)
    requires LLONG_MIN <= n < 0x1_0000_0000_0000_0000
    ensures |Decimal(n)| <= 20
  {
    assert Power10(10) == 10_000_000_000;
    assert Power10(19) == 1_000_000_000 * Power10(10);
    if n < 0 {
      DigitsLength(-n, 19);
    } else {
      DigitsLength(n, 20);
    }
  }
}

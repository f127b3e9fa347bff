/**
  The compression function of MD5 (md5_transform in src/hash_utils.c) against section 3.4 of RFC 1321.

  The specification is the loop form of the RFC: step `i` belongs to round `i / 16`, reads message word
  `i`, `5i+1`, `3i+5` or `7i` modulo 16, and the four registers rotate.  The program is unrolled by
  hand: every step names its registers, its message word, its shift and its constant.  Both are stated over
  an arbitrary word type with arbitrary operations, because the unrolling does not depend on what the
  operations compute; 32-bit arithmetic is plugged in at the end.
*/
module Md5Compression {
  datatype Regs<W> = Regs(a: W, b: W, c: W, d: W)

  /** The operations a step is made of; `word` embeds the 32-bit constants. */
  datatype Arith<!W> = Arith(add: (W, W) -> W, aux: (nat, W, W, W) -> W, rotate: (W, bv32) -> W, word: bv32 -> W)

  /**
    MD5_STEP: a = b + ((a + Aux(b,c,d) + x + t) <<< s).  Sums are written in the order of the macro; the
    RFC leaves it free, since addition is modulo 2^32.
  */
  function StepValue<W>(m: Arith<W>, round: nat, a: W, b: W, c: W, d: W, x: W, s: bv32, t: bv32): W
  {
    m.add(m.rotate(m.add(a, m.add(m.add(m.aux(round, b, c, d), x), m.word(t))), s), b)
  }

  /** A step rule: the new register from the round, a, b, c, d, the message word, the shift and the constant. */
  type Rule<!W> = (nat, W, W, W, W, W, bv32, bv32) -> W

  function StepRule<W>(m: Arith<W>): Rule<W>
  {
    (round: nat, a, b, c, d, x, s, t) => StepValue(m, round, a, b, c, d, x, s, t)
  }

  // ---------------------------------------------------------------- the loop of section 3.4

  /** The message word that step `i` reads. */
  function WordIndex(i: nat): (k: nat)
    requires i < 64
    ensures k < 16
  {
    if i < 16 then i else if i < 32 then (5 * i + 1) % 16 else if i < 48 then (3 * i + 5) % 16 else (7 * i) % 16
  }

  /** The rotation of step `i`: four amounts per round, used in turn. */
  function Shift(i: nat): (s: bv32)
    requires i < 64
    ensures IsShift(s)
  {
    var q := i % 4;
    if i < 16 then (if q == 0 then 7 else if q == 1 then 12 else if q == 2 then 17 else 22)
    else if i < 32 then (if q == 0 then 5 else if q == 1 then 9 else if q == 2 then 14 else 20)
    else if i < 48 then (if q == 0 then 4 else if q == 1 then 11 else if q == 2 then 16 else 23)
    else (if q == 0 then 6 else if q == 1 then 10 else if q == 2 then 15 else 21)
  }

  predicate IsShift(s: bv32) {
    s in {4, 5, 6, 7, 9, 10, 11, 12, 14, 15, 16, 17, 20, 21, 22, 23}
  }

  /** T[i+1] of the RFC: the integer part of 4294967296 times abs(sin(i+1)). */
  function T(i: nat): bv32
    requires i < 64
  {
    if i < 16 then T1(i) else if i < 32 then T2(i - 16) else if i < 48 then T3(i - 32) else T4(i - 48)
  }

  function T1(j: nat): bv32
    requires j < 16
  {
    match j
    case 0 => 0xd76aa478 case 1 => 0xe8c7b756 case 2 => 0x242070db case 3 => 0xc1bdceee
    case 4 => 0xf57c0faf case 5 => 0x4787c62a case 6 => 0xa8304613 case 7 => 0xfd469501
    case 8 => 0x698098d8 case 9 => 0x8b44f7af case 10 => 0xffff5bb1 case 11 => 0x895cd7be
    case 12 => 0x6b901122 case 13 => 0xfd987193 case 14 => 0xa679438e case _ => 0x49b40821
  }

  function T2(j: nat): bv32
    requires j < 16
  {
    match j
    case 0 => 0xf61e2562 case 1 => 0xc040b340 case 2 => 0x265e5a51 case 3 => 0xe9b6c7aa
    case 4 => 0xd62f105d case 5 => 0x02441453 case 6 => 0xd8a1e681 case 7 => 0xe7d3fbc8
    case 8 => 0x21e1cde6 case 9 => 0xc33707d6 case 10 => 0xf4d50d87 case 11 => 0x455a14ed
    case 12 => 0xa9e3e905 case 13 => 0xfcefa3f8 case 14 => 0x676f02d9 case _ => 0x8d2a4c8a
  }

  function T3(j: nat): bv32
    requires j < 16
  {
    match j
    case 0 => 0xfffa3942 case 1 => 0x8771f681 case 2 => 0x6d9d6122 case 3 => 0xfde5380c
    case 4 => 0xa4beea44 case 5 => 0x4bdecfa9 case 6 => 0xf6bb4b60 case 7 => 0xbebfbc70
    case 8 => 0x289b7ec6 case 9 => 0xeaa127fa case 10 => 0xd4ef3085 case 11 => 0x04881d05
    case 12 => 0xd9d4d039 case 13 => 0xe6db99e5 case 14 => 0x1fa27cf8 case _ => 0xc4ac5665
  }

  function T4(j: nat): bv32
    requires j < 16
  {
    match j
    case 0 => 0xf4292244 case 1 => 0x432aff97 case 2 => 0xab9423a7 case 3 => 0xfc93a039
    case 4 => 0x655b59c3 case 5 => 0x8f0ccc92 case 6 => 0xffeff47d case 7 => 0x85845dd1
    case 8 => 0x6fa87e4f case 9 => 0xfe2ce6e0 case 10 => 0xa3014314 case 11 => 0x4e0811a1
    case 12 => 0xf7537e82 case 13 => 0xbd3af235 case 14 => 0x2ad7d2bb case _ => 0xeb86d391
  }

  /** One step: the rule gives the new register, after which the registers rotate. */
  function LoopStep<W>(rule: Rule<W>, i: nat, r: Regs<W>, x: seq<W>): Regs<W>
    requires i < 64 && |x| == 16
  {
    Regs(r.d, rule(i / 16, r.a, r.b, r.c, r.d, x[WordIndex(i)], Shift(i), T(i)), r.b, r.c)
  }

  /** Steps `lo` up to but not including `hi`. */
  function LoopSteps<W>(rule: Rule<W>, lo: nat, hi: nat, r: Regs<W>, x: seq<W>): Regs<W>
    requires lo <= hi <= 64 && |x| == 16
    decreases hi - lo, x
  {
    if lo == hi then r else LoopStep(rule, hi - 1, LoopSteps(rule, lo, hi - 1, r, x), x)
  }

  lemma {:induction false} LoopStepsCompose<W>(rule: Rule<W>, lo: nat, mid: nat, hi: nat, r: Regs<W>, x: seq<W>)
    requires lo <= mid <= hi <= 64 && |x| == 16
    ensures LoopSteps(rule, lo, hi, r, x) == LoopSteps(rule, mid, hi, LoopSteps(rule, lo, mid, r, x), x)
    decreases hi - mid
  {
    if mid < hi {
      LoopStepsCompose(rule, lo, mid, hi - 1, r, x);
    }
  }

  /** Rules that agree on the shifts of the RFC give the same loop. */
  lemma {:induction false} LoopStepsAgree<W(!new)>(p: Rule<W>, q: Rule<W>, hi: nat, r: Regs<W>, x: seq<W>)
    requires hi <= 64 && |x| == 16
    requires forall k: nat, a, b, c, d, w, s, t :: k < 4 && IsShift(s) ==>
             p(k, a, b, c, d, w, s, t) == q(k, a, b, c, d, w, s, t)
    ensures LoopSteps(p, 0, hi, r, x) == LoopSteps(q, 0, hi, r, x)
  {
    if hi > 0 {
      LoopStepsAgree(p, q, hi - 1, r, x);
    }
  }

  /** Operations that differ only in how they rotate, and agree on the shifts of the RFC, compress alike. */
  lemma RotationsAgree<W(!new)>(p: Arith<W>, q: Arith<W>, r: Regs<W>, x: seq<W>)
    requires |x| == 16
    requires p == q.(rotate := p.rotate)
    requires forall w, s :: IsShift(s) ==> p.rotate(w, s) == q.rotate(w, s)
    ensures CompressWords(p, r, x) == CompressWords(q, r, x)
  {
    LoopStepsAgree(StepRule(p), StepRule(q), 64, r, x);
  }

  function AddRegs<W>(m: Arith<W>, r: Regs<W>, s: Regs<W>): Regs<W>
  {
    Regs(m.add(r.a, s.a), m.add(r.b, s.b), m.add(r.c, s.c), m.add(r.d, s.d))
  }

  /** Section 3.4 as a whole: sixty-four steps, then the old registers are added back. */
  function CompressWords<W>(m: Arith<W>, r: Regs<W>, x: seq<W>): Regs<W>
    requires |x| == 16
  {
    AddRegs(m, r, LoopSteps(StepRule(m), 0, 64, r, x))
  }

  // ---------------------------------------------------------------- the unrolled rounds

  method FirstRound<W>(rule: Rule<W>, x: seq<W>, r: Regs<W>) returns (out: Regs<W>)
    requires |x| == 16
    ensures out == LoopSteps(rule, 0, 16, r, x)
  {
    var a, b, c, d := r.a, r.b, r.c, r.d;
    a := rule(0, a, b, c, d, x[0], 7, 0xd76aa478);
    assert LoopSteps(rule, 0, 1, r, x) == Regs(d, a, b, c);
    d := rule(0, d, a, b, c, x[1], 12, 0xe8c7b756);
    assert LoopSteps(rule, 0, 2, r, x) == Regs(c, d, a, b);
    c := rule(0, c, d, a, b, x[2], 17, 0x242070db);
    assert LoopSteps(rule, 0, 3, r, x) == Regs(b, c, d, a);
    b := rule(0, b, c, d, a, x[3], 22, 0xc1bdceee);
    assert LoopSteps(rule, 0, 4, r, x) == Regs(a, b, c, d);
    a := rule(0, a, b, c, d, x[4], 7, 0xf57c0faf);
    assert LoopSteps(rule, 0, 5, r, x) == Regs(d, a, b, c);
    d := rule(0, d, a, b, c, x[5], 12, 0x4787c62a);
    assert LoopSteps(rule, 0, 6, r, x) == Regs(c, d, a, b);
    c := rule(0, c, d, a, b, x[6], 17, 0xa8304613);
    assert LoopSteps(rule, 0, 7, r, x) == Regs(b, c, d, a);
    b := rule(0, b, c, d, a, x[7], 22, 0xfd469501);
    assert LoopSteps(rule, 0, 8, r, x) == Regs(a, b, c, d);
    a := rule(0, a, b, c, d, x[8], 7, 0x698098d8);
    assert LoopSteps(rule, 0, 9, r, x) == Regs(d, a, b, c);
    d := rule(0, d, a, b, c, x[9], 12, 0x8b44f7af);
    assert LoopSteps(rule, 0, 10, r, x) == Regs(c, d, a, b);
    c := rule(0, c, d, a, b, x[10], 17, 0xffff5bb1);
    assert LoopSteps(rule, 0, 11, r, x) == Regs(b, c, d, a);
    b := rule(0, b, c, d, a, x[11], 22, 0x895cd7be);
    assert LoopSteps(rule, 0, 12, r, x) == Regs(a, b, c, d);
    a := rule(0, a, b, c, d, x[12], 7, 0x6b901122);
    assert LoopSteps(rule, 0, 13, r, x) == Regs(d, a, b, c);
    d := rule(0, d, a, b, c, x[13], 12, 0xfd987193);
    assert LoopSteps(rule, 0, 14, r, x) == Regs(c, d, a, b);
    c := rule(0, c, d, a, b, x[14], 17, 0xa679438e);
    assert LoopSteps(rule, 0, 15, r, x) == Regs(b, c, d, a);
    b := rule(0, b, c, d, a, x[15], 22, 0x49b40821);
    assert LoopSteps(rule, 0, 16, r, x) == Regs(a, b, c, d);
    out := Regs(a, b, c, d);
  }

  method SecondRound<W>(rule: Rule<W>, x: seq<W>, r: Regs<W>) returns (out: Regs<W>)
    requires |x| == 16
    ensures out == LoopSteps(rule, 16, 32, r, x)
  {
    var a, b, c, d := r.a, r.b, r.c, r.d;
    a := rule(1, a, b, c, d, x[1], 5, 0xf61e2562);
    assert LoopSteps(rule, 16, 17, r, x) == Regs(d, a, b, c);
    d := rule(1, d, a, b, c, x[6], 9, 0xc040b340);
    assert LoopSteps(rule, 16, 18, r, x) == Regs(c, d, a, b);
    c := rule(1, c, d, a, b, x[11], 14, 0x265e5a51);
    assert LoopSteps(rule, 16, 19, r, x) == Regs(b, c, d, a);
    b := rule(1, b, c, d, a, x[0], 20, 0xe9b6c7aa);
    assert LoopSteps(rule, 16, 20, r, x) == Regs(a, b, c, d);
    a := rule(1, a, b, c, d, x[5], 5, 0xd62f105d);
    assert LoopSteps(rule, 16, 21, r, x) == Regs(d, a, b, c);
    d := rule(1, d, a, b, c, x[10], 9, 0x02441453);
    assert LoopSteps(rule, 16, 22, r, x) == Regs(c, d, a, b);
    c := rule(1, c, d, a, b, x[15], 14, 0xd8a1e681);
    assert LoopSteps(rule, 16, 23, r, x) == Regs(b, c, d, a);
    b := rule(1, b, c, d, a, x[4], 20, 0xe7d3fbc8);
    assert LoopSteps(rule, 16, 24, r, x) == Regs(a, b, c, d);
    a := rule(1, a, b, c, d, x[9], 5, 0x21e1cde6);
    assert LoopSteps(rule, 16, 25, r, x) == Regs(d, a, b, c);
    d := rule(1, d, a, b, c, x[14], 9, 0xc33707d6);
    assert LoopSteps(rule, 16, 26, r, x) == Regs(c, d, a, b);
    c := rule(1, c, d, a, b, x[3], 14, 0xf4d50d87);
    assert LoopSteps(rule, 16, 27, r, x) == Regs(b, c, d, a);
    b := rule(1, b, c, d, a, x[8], 20, 0x455a14ed);
    assert LoopSteps(rule, 16, 28, r, x) == Regs(a, b, c, d);
    a := rule(1, a, b, c, d, x[13], 5, 0xa9e3e905);
    assert LoopSteps(rule, 16, 29, r, x) == Regs(d, a, b, c);
    d := rule(1, d, a, b, c, x[2], 9, 0xfcefa3f8);
    assert LoopSteps(rule, 16, 30, r, x) == Regs(c, d, a, b);
    c := rule(1, c, d, a, b, x[7], 14, 0x676f02d9);
    assert LoopSteps(rule, 16, 31, r, x) == Regs(b, c, d, a);
    b := rule(1, b, c, d, a, x[12], 20, 0x8d2a4c8a);
    assert LoopSteps(rule, 16, 32, r, x) == Regs(a, b, c, d);
    out := Regs(a, b, c, d);
  }

  method ThirdRound<W>(rule: Rule<W>, x: seq<W>, r: Regs<W>) returns (out: Regs<W>)
    requires |x| == 16
    ensures out == LoopSteps(rule, 32, 48, r, x)
  {
    var a, b, c, d := r.a, r.b, r.c, r.d;
    a := rule(2, a, b, c, d, x[5], 4, 0xfffa3942);
    assert LoopSteps(rule, 32, 33, r, x) == Regs(d, a, b, c);
    d := rule(2, d, a, b, c, x[8], 11, 0x8771f681);
    assert LoopSteps(rule, 32, 34, r, x) == Regs(c, d, a, b);
    c := rule(2, c, d, a, b, x[11], 16, 0x6d9d6122);
    assert LoopSteps(rule, 32, 35, r, x) == Regs(b, c, d, a);
    b := rule(2, b, c, d, a, x[14], 23, 0xfde5380c);
    assert LoopSteps(rule, 32, 36, r, x) == Regs(a, b, c, d);
    a := rule(2, a, b, c, d, x[1], 4, 0xa4beea44);
    assert LoopSteps(rule, 32, 37, r, x) == Regs(d, a, b, c);
    d := rule(2, d, a, b, c, x[4], 11, 0x4bdecfa9);
    assert LoopSteps(rule, 32, 38, r, x) == Regs(c, d, a, b);
    c := rule(2, c, d, a, b, x[7], 16, 0xf6bb4b60);
    assert LoopSteps(rule, 32, 39, r, x) == Regs(b, c, d, a);
    b := rule(2, b, c, d, a, x[10], 23, 0xbebfbc70);
    assert LoopSteps(rule, 32, 40, r, x) == Regs(a, b, c, d);
    a := rule(2, a, b, c, d, x[13], 4, 0x289b7ec6);
    assert LoopSteps(rule, 32, 41, r, x) == Regs(d, a, b, c);
    d := rule(2, d, a, b, c, x[0], 11, 0xeaa127fa);
    assert LoopSteps(rule, 32, 42, r, x) == Regs(c, d, a, b);
    c := rule(2, c, d, a, b, x[3], 16, 0xd4ef3085);
    assert LoopSteps(rule, 32, 43, r, x) == Regs(b, c, d, a);
    b := rule(2, b, c, d, a, x[6], 23, 0x04881d05);
    assert LoopSteps(rule, 32, 44, r, x) == Regs(a, b, c, d);
    a := rule(2, a, b, c, d, x[9], 4, 0xd9d4d039);
    assert LoopSteps(rule, 32, 45, r, x) == Regs(d, a, b, c);
    d := rule(2, d, a, b, c, x[12], 11, 0xe6db99e5);
    assert LoopSteps(rule, 32, 46, r, x) == Regs(c, d, a, b);
    c := rule(2, c, d, a, b, x[15], 16, 0x1fa27cf8);
    assert LoopSteps(rule, 32, 47, r, x) == Regs(b, c, d, a);
    b := rule(2, b, c, d, a, x[2], 23, 0xc4ac5665);
    assert LoopSteps(rule, 32, 48, r, x) == Regs(a, b, c, d);
    out := Regs(a, b, c, d);
  }

  method FourthRound<W>(rule: Rule<W>, x: seq<W>, r: Regs<W>) returns (out: Regs<W>)
    requires |x| == 16
    ensures out == LoopSteps(rule, 48, 64, r, x)
  {
    var a, b, c, d := r.a, r.b, r.c, r.d;
    a := rule(3, a, b, c, d, x[0], 6, 0xf4292244);
    assert LoopSteps(rule, 48, 49, r, x) == Regs(d, a, b, c);
    d := rule(3, d, a, b, c, x[7], 10, 0x432aff97);
    assert LoopSteps(rule, 48, 50, r, x) == Regs(c, d, a, b);
    c := rule(3, c, d, a, b, x[14], 15, 0xab9423a7);
    assert LoopSteps(rule, 48, 51, r, x) == Regs(b, c, d, a);
    b := rule(3, b, c, d, a, x[5], 21, 0xfc93a039);
    assert LoopSteps(rule, 48, 52, r, x) == Regs(a, b, c, d);
    a := rule(3, a, b, c, d, x[12], 6, 0x655b59c3);
    assert LoopSteps(rule, 48, 53, r, x) == Regs(d, a, b, c);
    d := rule(3, d, a, b, c, x[3], 10, 0x8f0ccc92);
    assert LoopSteps(rule, 48, 54, r, x) == Regs(c, d, a, b);
    c := rule(3, c, d, a, b, x[10], 15, 0xffeff47d);
    assert LoopSteps(rule, 48, 55, r, x) == Regs(b, c, d, a);
    b := rule(3, b, c, d, a, x[1], 21, 0x85845dd1);
    assert LoopSteps(rule, 48, 56, r, x) == Regs(a, b, c, d);
    a := rule(3, a, b, c, d, x[8], 6, 0x6fa87e4f);
    assert LoopSteps(rule, 48, 57, r, x) == Regs(d, a, b, c);
    d := rule(3, d, a, b, c, x[15], 10, 0xfe2ce6e0);
    assert LoopSteps(rule, 48, 58, r, x) == Regs(c, d, a, b);
    c := rule(3, c, d, a, b, x[6], 15, 0xa3014314);
    assert LoopSteps(rule, 48, 59, r, x) == Regs(b, c, d, a);
    b := rule(3, b, c, d, a, x[13], 21, 0x4e0811a1);
    assert LoopSteps(rule, 48, 60, r, x) == Regs(a, b, c, d);
    a := rule(3, a, b, c, d, x[4], 6, 0xf7537e82);
    assert LoopSteps(rule, 48, 61, r, x) == Regs(d, a, b, c);
    d := rule(3, d, a, b, c, x[11], 10, 0xbd3af235);
    assert LoopSteps(rule, 48, 62, r, x) == Regs(c, d, a, b);
    c := rule(3, c, d, a, b, x[2], 15, 0x2ad7d2bb);
    assert LoopSteps(rule, 48, 63, r, x) == Regs(b, c, d, a);
    b := rule(3, b, c, d, a, x[9], 21, 0xeb86d391);
    assert LoopSteps(rule, 48, 64, r, x) == Regs(a, b, c, d);
    out := Regs(a, b, c, d);
  }

  // ---------------------------------------------------------------- 32-bit arithmetic

  function F(x: bv32, y: bv32, z: bv32): bv32 { (x & y) | (!x & z) }
  function G(x: bv32, y: bv32, z: bv32): bv32 { (x & z) | (y & !z) }
  function H(x: bv32, y: bv32, z: bv32): bv32 { x ^ y ^ z }
  function I(x: bv32, y: bv32, z: bv32): bv32 { y ^ (x | !z) }

  // What they are in each bit position (section 3.4 of RFC 1321): F and G choose, H is the parity, I is y xor
  // (x or not z).

  lemma FChooses(x: bv32, y: bv32, z: bv32)
    ensures F(x, y, z) & x == y & x && F(x, y, z) & !x == z & !x
  {
  }

  lemma GChooses(x: bv32, y: bv32, z: bv32)
    ensures G(x, y, z) & z == x & z && G(x, y, z) & !z == y & !z
  {
  }

  lemma HIsParity(x: bv32, y: bv32, z: bv32)
    ensures H(x, y, z) & z == !(x ^ y) & z && H(x, y, z) & !z == (x ^ y) & !z
  {
  }

  lemma IFlips(x: bv32, y: bv32, z: bv32)
    ensures I(x, y, z) & z == (x ^ y) & z && I(x, y, z) & !z == !y & !z
  {
  }

  /** The auxiliary function of a round. */
  function Aux(round: nat, x: bv32, y: bv32, z: bv32): bv32
  {
    if round == 0 then F(x, y, z) else if round == 1 then G(x, y, z) else if round == 2 then H(x, y, z) else I(x, y, z)
  }

  /** `x <<< s` of the RFC: rotation to the left, for its sixteen amounts. */
  function Rotl(x: bv32, s: bv32): bv32
  {
    match s
    case 4 => x.RotateLeft(4)   case 5 => x.RotateLeft(5)   case 6 => x.RotateLeft(6)   case 7 => x.RotateLeft(7)
    case 9 => x.RotateLeft(9)   case 10 => x.RotateLeft(10) case 11 => x.RotateLeft(11) case 12 => x.RotateLeft(12)
    case 14 => x.RotateLeft(14) case 15 => x.RotateLeft(15) case 16 => x.RotateLeft(16) case 17 => x.RotateLeft(17)
    case 20 => x.RotateLeft(20) case 21 => x.RotateLeft(21) case 22 => x.RotateLeft(22) case 23 => x.RotateLeft(23)
    case _ => x
  }

  function ShiftOr(x: bv32, n: bv32): bv32
  {
    if n <= 32 then (x << n) | (x >> (32 - n)) else x
  }

  lemma ShiftOrRotates(x: bv32, s: bv32)
    requires IsShift(s)
    ensures ShiftOr(x, s) == Rotl(x, s)
  {
    if s <= 7 {
      assert s == 4 || s == 5 || s == 6 || s == 7;
    }
  }

  function Add32(x: bv32, y: bv32): bv32 { x + y }

  const RFC := Arith(Add32, Aux, Rotl, (t: bv32) => t)

  const MACRO := RFC.(rotate := ShiftOr)

  /** The shift-or macro computes what the rotations of the RFC compute. */
  lemma MacroCompressesAsRfc(r: Regs<bv32>, x: seq<bv32>)
    requires |x| == 16
    ensures CompressWords(MACRO, r, x) == CompressWords(RFC, r, x)
  {
    forall w, s | IsShift(s)
      ensures MACRO.rotate(w, s) == RFC.rotate(w, s)
    {
      ShiftOrRotates(w, s);
    }
    RotationsAgree(MACRO, RFC, r, x);
  }

  /** Four bytes as a word, low-order byte first. */
  function Word(b0: bv8, b1: bv8, b2: bv8, b3: bv8): bv32
  {
    (b0 as bv32) | ((b1 as bv32) << 8) | ((b2 as bv32) << 16) | ((b3 as bv32) << 24)
  }

  /** It holds them from the low-order end up. */
  lemma WordHolds(b0: bv8, b1: bv8, b2: bv8, b3: bv8)
    ensures var w := Word(b0, b1, b2, b3);
      && w & 0xff == b0 as bv32 && (w >> 8) & 0xff == b1 as bv32
      && (w >> 16) & 0xff == b2 as bv32 && w >> 24 == b3 as bv32
  {
  }

  function BlockWord(block: seq<bv8>, i: nat): bv32
    requires |block| == 64 && i < 16
  {
    Word(block[4 * i], block[4 * i + 1], block[4 * i + 2], block[4 * i + 3])
  }

  function BlockWords(block: seq<bv8>): (x: seq<bv32>)
    requires |block| == 64
    ensures |x| == 16
  {
    seq(16, i requires 0 <= i < 16 => BlockWord(block, i))
  }

  function Compress(r: Regs<bv32>, block: seq<bv8>): Regs<bv32>
    requires |block| == 64
  {
    CompressWords(RFC, r, BlockWords(block))
  }

  function RegsOf<W>(state: seq<W>): Regs<W>
    requires |state| == 4
  {
    Regs(state[0], state[1], state[2], state[3])
  }

  method DecodeBlock(block: seq<bv8>) returns (x: array<bv32>)
    requires |block| == 64
    ensures fresh(x) && x[..] == BlockWords(block)
  {
    x := new bv32[16];
    for i := 0 to 16
      invariant forall j :: 0 <= j < i ==> x[j] == BlockWord(block, j)
    {
      x[i] := Word(block[4 * i], block[4 * i + 1], block[4 * i + 2], block[4 * i + 3]);
    }
    assert x[..] == BlockWords(block);
  }

  /** The sixty-four unrolled steps are the loop. */
  method UnrolledSteps<W>(rule: Rule<W>, x: seq<W>, r: Regs<W>) returns (out: Regs<W>)
    requires |x| == 16
    ensures out == LoopSteps(rule, 0, 64, r, x)
  {
    out := FirstRound(rule, x, r);
    out := SecondRound(rule, x, out);
    LoopStepsCompose(rule, 0, 16, 32, r, x);
    out := ThirdRound(rule, x, out);
    LoopStepsCompose(rule, 0, 32, 48, r, x);
    out := FourthRound(rule, x, out);
    LoopStepsCompose(rule, 0, 48, 64, r, x);
  }

  /** md5_transform after decoding: run the unrolled steps and add the result to the state in place. */
  method TransformWords<W>(m: Arith<W>, state: array<W>, x: seq<W>)
    requires state.Length == 4 && |x| == 16
    modifies state
    ensures RegsOf(state[..]) == CompressWords(m, old(RegsOf(state[..])), x)
  {
    var s := UnrolledSteps(StepRule(m), x, Regs(state[0], state[1], state[2], state[3]));
    state[0] := m.add(state[0], s.a);
    state[1] := m.add(state[1], s.b);
    state[2] := m.add(state[2], s.c);
    state[3] := m.add(state[3], s.d);
  }

  /** md5_transform: the unrolled program leaves the compression of the RFC in the state. */
  method Transform(state: array<bv32>, block: seq<bv8>)
    requires state.Length == 4 && |block| == 64
    modifies state
    ensures RegsOf(state[..]) == Compress(old(RegsOf(state[..])), block)
  {
    var x := DecodeBlock(block);
    var words := x[..];
    MacroCompressesAsRfc(RegsOf(state[..]), words);
    TransformWords(MACRO, state, words);
  }
}

/**
  The digests that section A.5 of RFC 1321 gives for "", "a" and "abc".  They say what MD5 is without naming any part of
  it: every round with its function, every constant, the order of bytes in words, padding, length and output.
*/
module Md5Suite {
  import opened Base
  import opened Md5Compression
  import opened Md5Stream
  import opened SparseMd5

  /** The new register of a step, in 32-bit arithmetic. */
  function Stepped(round: nat, a: bv32, b: bv32, c: bv32, d: bv32, w: bv32, s: bv32, t: bv32): bv32
  {
    Add32(Rotl(Add32(a, Add32(Add32(Aux(round, b, c, d), w), t)), s), b)
  }

  lemma StepIs(round: nat, a: bv32, b: bv32, c: bv32, d: bv32, w: bv32, s: bv32, t: bv32)
    ensures StepValue(RFC, round, a, b, c, d, w, s, t) == Stepped(round, a, b, c, d, w, s, t)
  {
  }

  /** The rule of RFC 1321, of which nothing but its values is to be known. */
  ghost predicate IsStepped(rule: Rule<bv32>)
  {
    forall round: nat, a, b, c, d, w, s, t {:trigger rule(round, a, b, c, d, w, s, t)} ::
      rule(round, a, b, c, d, w, s, t) == Stepped(round, a, b, c, d, w, s, t)
  }

  /** The registers after any number of steps. */
  ghost predicate Runs<W>(regs: nat -> Regs<W>, rule: Rule<W>, x: seq<W>)
  {
    && |x| == 16
    && forall i: nat {:trigger LoopStep(rule, i, regs(i), x)} :: i < 64 ==> regs(i + 1) == LoopStep(rule, i, regs(i), x)
  }

  /** Step `i` reads this word, shifts by `s` and adds `t`. */
  ghost predicate Uses<W>(i: nat, x: seq<W>, w: W, s: bv32, t: bv32)
  {
    i < 64 && |x| == 16 && x[WordIndex(i)] == w && Shift(i) == s && T(i) == t
  }

  lemma Step<W>(regs: nat -> Regs<W>, rule: Rule<W>, i: nat, x: seq<W>, a: W, b: W, c: W, d: W, w: W, s: bv32, t: bv32,
                v: W)
    requires Runs(regs, rule, x) && Uses(i, x, w, s, t) && regs(i) == Regs(a, b, c, d)
    requires v == rule(i / 16, a, b, c, d, w, s, t)
    ensures regs(i + 1) == Regs(d, v, b, c)
  {
    assert regs(i + 1) == LoopStep(rule, i, regs(i), x);
  }

  /** The words of a message of less than four bytes, padded: its bytes, zeros, and its length. */
  ghost predicate IsShort<W>(x: seq<W>, first: W, zero: W, bits: W)
  {
    |x| == 16 && x[0] == first && x[14] == bits && forall i :: 0 < i < 16 && i != 14 ==> x[i] == zero
  }

  // A round on such a message, by the values that the registers take one after the other.

  lemma Eight1<W>(regs: nat -> Regs<W>, rule: Rule<W>, x: seq<W>, first: W, zero: W, bits: W,
               v0: W, v1: W, v2: W, v3: W, v4: W, v5: W, v6: W, v7: W, v8: W, v9: W, v10: W, v11: W)
    requires Runs(regs, rule, x) && IsShort(x, first, zero, bits) && regs(0) == Regs(v0, v3, v2, v1)
    requires v4 == rule(0, v0, v3, v2, v1, first, 7, 0xd76aa478)
    requires v5 == rule(0, v1, v4, v3, v2, zero, 12, 0xe8c7b756)
    requires v6 == rule(0, v2, v5, v4, v3, zero, 17, 0x242070db)
    requires v7 == rule(0, v3, v6, v5, v4, zero, 22, 0xc1bdceee)
    requires v8 == rule(0, v4, v7, v6, v5, zero, 7, 0xf57c0faf)
    requires v9 == rule(0, v5, v8, v7, v6, zero, 12, 0x4787c62a)
    requires v10 == rule(0, v6, v9, v8, v7, zero, 17, 0xa8304613)
    requires v11 == rule(0, v7, v10, v9, v8, zero, 22, 0xfd469501)
    ensures regs(8) == Regs(v8, v11, v10, v9)
  {
    Step(regs, rule, 0, x, v0, v3, v2, v1, first, 7, 0xd76aa478, v4);
    Step(regs, rule, 1, x, v1, v4, v3, v2, zero, 12, 0xe8c7b756, v5);
    Step(regs, rule, 2, x, v2, v5, v4, v3, zero, 17, 0x242070db, v6);
    Step(regs, rule, 3, x, v3, v6, v5, v4, zero, 22, 0xc1bdceee, v7);
    Step(regs, rule, 4, x, v4, v7, v6, v5, zero, 7, 0xf57c0faf, v8);
    Step(regs, rule, 5, x, v5, v8, v7, v6, zero, 12, 0x4787c62a, v9);
    Step(regs, rule, 6, x, v6, v9, v8, v7, zero, 17, 0xa8304613, v10);
    Step(regs, rule, 7, x, v7, v10, v9, v8, zero, 22, 0xfd469501, v11);
  }

  lemma Eight2<W>(regs: nat -> Regs<W>, rule: Rule<W>, x: seq<W>, first: W, zero: W, bits: W,
               v0: W, v1: W, v2: W, v3: W, v4: W, v5: W, v6: W, v7: W, v8: W, v9: W, v10: W, v11: W)
    requires Runs(regs, rule, x) && IsShort(x, first, zero, bits) && regs(8) == Regs(v0, v3, v2, v1)
    requires v4 == rule(0, v0, v3, v2, v1, zero, 7, 0x698098d8)
    requires v5 == rule(0, v1, v4, v3, v2, zero, 12, 0x8b44f7af)
    requires v6 == rule(0, v2, v5, v4, v3, zero, 17, 0xffff5bb1)
    requires v7 == rule(0, v3, v6, v5, v4, zero, 22, 0x895cd7be)
    requires v8 == rule(0, v4, v7, v6, v5, zero, 7, 0x6b901122)
    requires v9 == rule(0, v5, v8, v7, v6, zero, 12, 0xfd987193)
    requires v10 == rule(0, v6, v9, v8, v7, bits, 17, 0xa679438e)
    requires v11 == rule(0, v7, v10, v9, v8, zero, 22, 0x49b40821)
    ensures regs(16) == Regs(v8, v11, v10, v9)
  {
    Step(regs, rule, 8, x, v0, v3, v2, v1, zero, 7, 0x698098d8, v4);
    Step(regs, rule, 9, x, v1, v4, v3, v2, zero, 12, 0x8b44f7af, v5);
    Step(regs, rule, 10, x, v2, v5, v4, v3, zero, 17, 0xffff5bb1, v6);
    Step(regs, rule, 11, x, v3, v6, v5, v4, zero, 22, 0x895cd7be, v7);
    Step(regs, rule, 12, x, v4, v7, v6, v5, zero, 7, 0x6b901122, v8);
    Step(regs, rule, 13, x, v5, v8, v7, v6, zero, 12, 0xfd987193, v9);
    Step(regs, rule, 14, x, v6, v9, v8, v7, bits, 17, 0xa679438e, v10);
    Step(regs, rule, 15, x, v7, v10, v9, v8, zero, 22, 0x49b40821, v11);
  }

  lemma Eight3<W>(regs: nat -> Regs<W>, rule: Rule<W>, x: seq<W>, first: W, zero: W, bits: W,
               v0: W, v1: W, v2: W, v3: W, v4: W, v5: W, v6: W, v7: W, v8: W, v9: W, v10: W, v11: W)
    requires Runs(regs, rule, x) && IsShort(x, first, zero, bits) && regs(16) == Regs(v0, v3, v2, v1)
    requires v4 == rule(1, v0, v3, v2, v1, zero, 5, 0xf61e2562)
    requires v5 == rule(1, v1, v4, v3, v2, zero, 9, 0xc040b340)
    requires v6 == rule(1, v2, v5, v4, v3, zero, 14, 0x265e5a51)
    requires v7 == rule(1, v3, v6, v5, v4, first, 20, 0xe9b6c7aa)
    requires v8 == rule(1, v4, v7, v6, v5, zero, 5, 0xd62f105d)
    requires v9 == rule(1, v5, v8, v7, v6, zero, 9, 0x02441453)
    requires v10 == rule(1, v6, v9, v8, v7, zero, 14, 0xd8a1e681)
    requires v11 == rule(1, v7, v10, v9, v8, zero, 20, 0xe7d3fbc8)
    ensures regs(24) == Regs(v8, v11, v10, v9)
  {
    Step(regs, rule, 16, x, v0, v3, v2, v1, zero, 5, 0xf61e2562, v4);
    Step(regs, rule, 17, x, v1, v4, v3, v2, zero, 9, 0xc040b340, v5);
    Step(regs, rule, 18, x, v2, v5, v4, v3, zero, 14, 0x265e5a51, v6);
    Step(regs, rule, 19, x, v3, v6, v5, v4, first, 20, 0xe9b6c7aa, v7);
    Step(regs, rule, 20, x, v4, v7, v6, v5, zero, 5, 0xd62f105d, v8);
    Step(regs, rule, 21, x, v5, v8, v7, v6, zero, 9, 0x02441453, v9);
    Step(regs, rule, 22, x, v6, v9, v8, v7, zero, 14, 0xd8a1e681, v10);
    Step(regs, rule, 23, x, v7, v10, v9, v8, zero, 20, 0xe7d3fbc8, v11);
  }

  lemma Eight4<W>(regs: nat -> Regs<W>, rule: Rule<W>, x: seq<W>, first: W, zero: W, bits: W,
               v0: W, v1: W, v2: W, v3: W, v4: W, v5: W, v6: W, v7: W, v8: W, v9: W, v10: W, v11: W)
    requires Runs(regs, rule, x) && IsShort(x, first, zero, bits) && regs(24) == Regs(v0, v3, v2, v1)
    requires v4 == rule(1, v0, v3, v2, v1, zero, 5, 0x21e1cde6)
    requires v5 == rule(1, v1, v4, v3, v2, bits, 9, 0xc33707d6)
    requires v6 == rule(1, v2, v5, v4, v3, zero, 14, 0xf4d50d87)
    requires v7 == rule(1, v3, v6, v5, v4, zero, 20, 0x455a14ed)
    requires v8 == rule(1, v4, v7, v6, v5, zero, 5, 0xa9e3e905)
    requires v9 == rule(1, v5, v8, v7, v6, zero, 9, 0xfcefa3f8)
    requires v10 == rule(1, v6, v9, v8, v7, zero, 14, 0x676f02d9)
    requires v11 == rule(1, v7, v10, v9, v8, zero, 20, 0x8d2a4c8a)
    ensures regs(32) == Regs(v8, v11, v10, v9)
  {
    Step(regs, rule, 24, x, v0, v3, v2, v1, zero, 5, 0x21e1cde6, v4);
    Step(regs, rule, 25, x, v1, v4, v3, v2, bits, 9, 0xc33707d6, v5);
    Step(regs, rule, 26, x, v2, v5, v4, v3, zero, 14, 0xf4d50d87, v6);
    Step(regs, rule, 27, x, v3, v6, v5, v4, zero, 20, 0x455a14ed, v7);
    Step(regs, rule, 28, x, v4, v7, v6, v5, zero, 5, 0xa9e3e905, v8);
    Step(regs, rule, 29, x, v5, v8, v7, v6, zero, 9, 0xfcefa3f8, v9);
    Step(regs, rule, 30, x, v6, v9, v8, v7, zero, 14, 0x676f02d9, v10);
    Step(regs, rule, 31, x, v7, v10, v9, v8, zero, 20, 0x8d2a4c8a, v11);
  }

  lemma Eight5<W>(regs: nat -> Regs<W>, rule: Rule<W>, x: seq<W>, first: W, zero: W, bits: W,
               v0: W, v1: W, v2: W, v3: W, v4: W, v5: W, v6: W, v7: W, v8: W, v9: W, v10: W, v11: W)
    requires Runs(regs, rule, x) && IsShort(x, first, zero, bits) && regs(32) == Regs(v0, v3, v2, v1)
    requires v4 == rule(2, v0, v3, v2, v1, zero, 4, 0xfffa3942)
    requires v5 == rule(2, v1, v4, v3, v2, zero, 11, 0x8771f681)
    requires v6 == rule(2, v2, v5, v4, v3, zero, 16, 0x6d9d6122)
    requires v7 == rule(2, v3, v6, v5, v4, bits, 23, 0xfde5380c)
    requires v8 == rule(2, v4, v7, v6, v5, zero, 4, 0xa4beea44)
    requires v9 == rule(2, v5, v8, v7, v6, zero, 11, 0x4bdecfa9)
    requires v10 == rule(2, v6, v9, v8, v7, zero, 16, 0xf6bb4b60)
    requires v11 == rule(2, v7, v10, v9, v8, zero, 23, 0xbebfbc70)
    ensures regs(40) == Regs(v8, v11, v10, v9)
  {
    Step(regs, rule, 32, x, v0, v3, v2, v1, zero, 4, 0xfffa3942, v4);
    Step(regs, rule, 33, x, v1, v4, v3, v2, zero, 11, 0x8771f681, v5);
    Step(regs, rule, 34, x, v2, v5, v4, v3, zero, 16, 0x6d9d6122, v6);
    Step(regs, rule, 35, x, v3, v6, v5, v4, bits, 23, 0xfde5380c, v7);
    Step(regs, rule, 36, x, v4, v7, v6, v5, zero, 4, 0xa4beea44, v8);
    Step(regs, rule, 37, x, v5, v8, v7, v6, zero, 11, 0x4bdecfa9, v9);
    Step(regs, rule, 38, x, v6, v9, v8, v7, zero, 16, 0xf6bb4b60, v10);
    Step(regs, rule, 39, x, v7, v10, v9, v8, zero, 23, 0xbebfbc70, v11);
  }

  lemma Eight6<W>(regs: nat -> Regs<W>, rule: Rule<W>, x: seq<W>, first: W, zero: W, bits: W,
               v0: W, v1: W, v2: W, v3: W, v4: W, v5: W, v6: W, v7: W, v8: W, v9: W, v10: W, v11: W)
    requires Runs(regs, rule, x) && IsShort(x, first, zero, bits) && regs(40) == Regs(v0, v3, v2, v1)
    requires v4 == rule(2, v0, v3, v2, v1, zero, 4, 0x289b7ec6)
    requires v5 == rule(2, v1, v4, v3, v2, first, 11, 0xeaa127fa)
    requires v6 == rule(2, v2, v5, v4, v3, zero, 16, 0xd4ef3085)
    requires v7 == rule(2, v3, v6, v5, v4, zero, 23, 0x04881d05)
    requires v8 == rule(2, v4, v7, v6, v5, zero, 4, 0xd9d4d039)
    requires v9 == rule(2, v5, v8, v7, v6, zero, 11, 0xe6db99e5)
    requires v10 == rule(2, v6, v9, v8, v7, zero, 16, 0x1fa27cf8)
    requires v11 == rule(2, v7, v10, v9, v8, zero, 23, 0xc4ac5665)
    ensures regs(48) == Regs(v8, v11, v10, v9)
  {
    Step(regs, rule, 40, x, v0, v3, v2, v1, zero, 4, 0x289b7ec6, v4);
    Step(regs, rule, 41, x, v1, v4, v3, v2, first, 11, 0xeaa127fa, v5);
    Step(regs, rule, 42, x, v2, v5, v4, v3, zero, 16, 0xd4ef3085, v6);
    Step(regs, rule, 43, x, v3, v6, v5, v4, zero, 23, 0x04881d05, v7);
    Step(regs, rule, 44, x, v4, v7, v6, v5, zero, 4, 0xd9d4d039, v8);
    Step(regs, rule, 45, x, v5, v8, v7, v6, zero, 11, 0xe6db99e5, v9);
    Step(regs, rule, 46, x, v6, v9, v8, v7, zero, 16, 0x1fa27cf8, v10);
    Step(regs, rule, 47, x, v7, v10, v9, v8, zero, 23, 0xc4ac5665, v11);
  }

  lemma Eight7<W>(regs: nat -> Regs<W>, rule: Rule<W>, x: seq<W>, first: W, zero: W, bits: W,
               v0: W, v1: W, v2: W, v3: W, v4: W, v5: W, v6: W, v7: W, v8: W, v9: W, v10: W, v11: W)
    requires Runs(regs, rule, x) && IsShort(x, first, zero, bits) && regs(48) == Regs(v0, v3, v2, v1)
    requires v4 == rule(3, v0, v3, v2, v1, first, 6, 0xf4292244)
    requires v5 == rule(3, v1, v4, v3, v2, zero, 10, 0x432aff97)
    requires v6 == rule(3, v2, v5, v4, v3, bits, 15, 0xab9423a7)
    requires v7 == rule(3, v3, v6, v5, v4, zero, 21, 0xfc93a039)
    requires v8 == rule(3, v4, v7, v6, v5, zero, 6, 0x655b59c3)
    requires v9 == rule(3, v5, v8, v7, v6, zero, 10, 0x8f0ccc92)
    requires v10 == rule(3, v6, v9, v8, v7, zero, 15, 0xffeff47d)
    requires v11 == rule(3, v7, v10, v9, v8, zero, 21, 0x85845dd1)
    ensures regs(56) == Regs(v8, v11, v10, v9)
  {
    Step(regs, rule, 48, x, v0, v3, v2, v1, first, 6, 0xf4292244, v4);
    Step(regs, rule, 49, x, v1, v4, v3, v2, zero, 10, 0x432aff97, v5);
    Step(regs, rule, 50, x, v2, v5, v4, v3, bits, 15, 0xab9423a7, v6);
    Step(regs, rule, 51, x, v3, v6, v5, v4, zero, 21, 0xfc93a039, v7);
    Step(regs, rule, 52, x, v4, v7, v6, v5, zero, 6, 0x655b59c3, v8);
    Step(regs, rule, 53, x, v5, v8, v7, v6, zero, 10, 0x8f0ccc92, v9);
    Step(regs, rule, 54, x, v6, v9, v8, v7, zero, 15, 0xffeff47d, v10);
    Step(regs, rule, 55, x, v7, v10, v9, v8, zero, 21, 0x85845dd1, v11);
  }

  lemma Eight8<W>(regs: nat -> Regs<W>, rule: Rule<W>, x: seq<W>, first: W, zero: W, bits: W,
               v0: W, v1: W, v2: W, v3: W, v4: W, v5: W, v6: W, v7: W, v8: W, v9: W, v10: W, v11: W)
    requires Runs(regs, rule, x) && IsShort(x, first, zero, bits) && regs(56) == Regs(v0, v3, v2, v1)
    requires v4 == rule(3, v0, v3, v2, v1, zero, 6, 0x6fa87e4f)
    requires v5 == rule(3, v1, v4, v3, v2, zero, 10, 0xfe2ce6e0)
    requires v6 == rule(3, v2, v5, v4, v3, zero, 15, 0xa3014314)
    requires v7 == rule(3, v3, v6, v5, v4, zero, 21, 0x4e0811a1)
    requires v8 == rule(3, v4, v7, v6, v5, zero, 6, 0xf7537e82)
    requires v9 == rule(3, v5, v8, v7, v6, zero, 10, 0xbd3af235)
    requires v10 == rule(3, v6, v9, v8, v7, zero, 15, 0x2ad7d2bb)
    requires v11 == rule(3, v7, v10, v9, v8, zero, 21, 0xeb86d391)
    ensures regs(64) == Regs(v8, v11, v10, v9)
  {
    Step(regs, rule, 56, x, v0, v3, v2, v1, zero, 6, 0x6fa87e4f, v4);
    Step(regs, rule, 57, x, v1, v4, v3, v2, zero, 10, 0xfe2ce6e0, v5);
    Step(regs, rule, 58, x, v2, v5, v4, v3, zero, 15, 0xa3014314, v6);
    Step(regs, rule, 59, x, v3, v6, v5, v4, zero, 21, 0x4e0811a1, v7);
    Step(regs, rule, 60, x, v4, v7, v6, v5, zero, 6, 0xf7537e82, v8);
    Step(regs, rule, 61, x, v5, v8, v7, v6, zero, 10, 0xbd3af235, v9);
    Step(regs, rule, 62, x, v6, v9, v8, v7, zero, 15, 0x2ad7d2bb, v10);
    Step(regs, rule, 63, x, v7, v10, v9, v8, zero, 21, 0xeb86d391, v11);
  }

  lemma EmptyFirst(regs: nat -> Regs<bv32>, rule: Rule<bv32>, x: seq<bv32>)
    requires IsStepped(rule) && Runs(regs, rule, x) && IsShort(x, 0x80, 0, 0)
    requires regs(0) == INIT
    ensures regs(16) == Regs(0xf56c7cf1, 0xd6819c6a, 0x5aa53f75, 0x374943a7)
  {
    Eight1(regs, rule, x, 0x80, 0, 0,
           0x67452301, 0x10325476, 0x98badcfe, 0xefcdab89, 0xa5202774, 0xf59592dd, 0xe7f06b23, 0x1b163203, 0x32033344,
           0x2f35d494, 0xf5b158db, 0x9bc13ce9);
    Eight2(regs, rule, x, 0x80, 0, 0,
           0x32033344, 0x2f35d494, 0xf5b158db, 0x9bc13ce9, 0x3893b991, 0xfce4a312, 0xe1ef0576, 0x70768a29, 0xf56c7cf1,
           0x374943a7, 0x5aa53f75, 0xd6819c6a);
  }

  lemma EmptySecond(regs: nat -> Regs<bv32>, rule: Rule<bv32>, x: seq<bv32>)
    requires IsStepped(rule) && Runs(regs, rule, x) && IsShort(x, 0x80, 0, 0)
    requires regs(16) == Regs(0xf56c7cf1, 0xd6819c6a, 0x5aa53f75, 0x374943a7)
    ensures regs(32) == Regs(0x13707036, 0xa2205f1f, 0x1c31c384, 0xae7813db)
  {
    Eight3(regs, rule, x, 0x80, 0, 0,
           0xf56c7cf1, 0x374943a7, 0x5aa53f75, 0xd6819c6a, 0x1c7d7513, 0x7bd57a3a, 0xc095f13a, 0xbd782e17, 0x3d1e3e6c,
           0x68b7b3e3, 0xeb41643e, 0xe422531a);
    Eight4(regs, rule, x, 0x80, 0, 0,
           0x3d1e3e6c, 0x68b7b3e3, 0xeb41643e, 0xe422531a, 0x306ec122, 0xd28c77c2, 0xa3c663da, 0xa0572807, 0x13707036,
           0xae7813db, 0x1c31c384, 0xa2205f1f);
  }

  lemma EmptyThird(regs: nat -> Regs<bv32>, rule: Rule<bv32>, x: seq<bv32>)
    requires IsStepped(rule) && Runs(regs, rule, x) && IsShort(x, 0x80, 0, 0)
    requires regs(32) == Regs(0x13707036, 0xa2205f1f, 0x1c31c384, 0xae7813db)
    ensures regs(48) == Regs(0x3f55edfd, 0xca7d2dbd, 0x68d84ea2, 0x22a31f54)
  {
    Eight5(regs, rule, x, 0x80, 0, 0,
           0x13707036, 0xae7813db, 0x1c31c384, 0xa2205f1f, 0xdf63eaa1, 0xc3689f5b, 0x12f3e755, 0x004b6669, 0x5f7a9b2e,
           0xabc34e16, 0x91ca4cb7, 0xc5dc8c15);
    Eight6(regs, rule, x, 0x80, 0, 0,
           0x5f7a9b2e, 0xabc34e16, 0x91ca4cb7, 0xc5dc8c15, 0x4497169d, 0x76fd93d4, 0xfd95f243, 0x0fe32453, 0x3f55edfd,
           0x22a31f54, 0x68d84ea2, 0xca7d2dbd);
  }

  lemma EmptyFourth(regs: nat -> Regs<bv32>, rule: Rule<bv32>, x: seq<bv32>)
    requires IsStepped(rule) && Runs(regs, rule, x) && IsShort(x, 0x80, 0, 0)
    requires regs(48) == Regs(0x3f55edfd, 0xca7d2dbd, 0x68d84ea2, 0x22a31f54)
    ensures regs(64) == Regs(0x7246fad3, 0x14e45506, 0xff4ea3eb, 0x6e10a476)
  {
    Eight7(regs, rule, x, 0x80, 0, 0,
           0x3f55edfd, 0x22a31f54, 0x68d84ea2, 0xca7d2dbd, 0x93aa2577, 0x1688dc85, 0xcd85b8cb, 0x561e0689, 0x5625a114,
           0x3450f42b, 0x392ad0d0, 0x1e77fa61);
    Eight8(regs, rule, x, 0x80, 0, 0,
           0x5625a114, 0x3450f42b, 0x392ad0d0, 0x1e77fa61, 0x474a9c8c, 0xdfce00bc, 0x36594b14, 0x30130182, 0x7246fad3,
           0x6e10a476, 0xff4ea3eb, 0x14e45506);
  }

  lemma AFirst(regs: nat -> Regs<bv32>, rule: Rule<bv32>, x: seq<bv32>)
    requires IsStepped(rule) && Runs(regs, rule, x) && IsShort(x, 0x8061, 0, 8)
    requires regs(0) == INIT
    ensures regs(16) == Regs(0x44244cf8, 0xf01e3ce2, 0x6360a45f, 0xd0fe9b27)
  {
    Eight1(regs, rule, x, 0x8061, 0, 8,
           0x67452301, 0x10325476, 0x98badcfe, 0xefcdab89, 0xa56017f4, 0xf2d58361, 0xe65857a7, 0x607d9686, 0x3a9d5bcc,
           0xe0a07db7, 0xd31ddc83, 0xa8af6da5);
    Eight2(regs, rule, x, 0x8061, 0, 8,
           0x3a9d5bcc, 0xe0a07db7, 0xd31ddc83, 0xa8af6da5, 0xbe580957, 0xf386bea6, 0xf5fdd933, 0x68493d6a, 0x44244cf8,
           0xd0fe9b27, 0x6360a45f, 0xf01e3ce2);
  }

  lemma ASecond(regs: nat -> Regs<bv32>, rule: Rule<bv32>, x: seq<bv32>)
    requires IsStepped(rule) && Runs(regs, rule, x) && IsShort(x, 0x8061, 0, 8)
    requires regs(16) == Regs(0x44244cf8, 0xf01e3ce2, 0x6360a45f, 0xd0fe9b27)
    ensures regs(32) == Regs(0x93842e98, 0x3745961f, 0x94a2ebee, 0xc7043b64)
  {
    Eight3(regs, rule, x, 0x8061, 0, 8,
           0x44244cf8, 0xd0fe9b27, 0x6360a45f, 0xf01e3ce2, 0x9c341767, 0x970ab3a9, 0xe39ffd23, 0x8d25cc66, 0x8c444930,
           0x7267097a, 0x2dacb8a3, 0x373beab0);
    Eight4(regs, rule, x, 0x8061, 0, 8,
           0x8c444930, 0x7267097a, 0x2dacb8a3, 0x373beab0, 0xf175e3ad, 0x9d5df67e, 0x87b7f475, 0xc8f891b4, 0x93842e98,
           0xc7043b64, 0x94a2ebee, 0x3745961f);
  }

  lemma AThird(regs: nat -> Regs<bv32>, rule: Rule<bv32>, x: seq<bv32>)
    requires IsStepped(rule) && Runs(regs, rule, x) && IsShort(x, 0x8061, 0, 8)
    requires regs(32) == Regs(0x93842e98, 0x3745961f, 0x94a2ebee, 0xc7043b64)
    ensures regs(48) == Regs(0x0ac50e18, 0x918f93bb, 0x8a4a6356, 0x79ca7845)
  {
    Eight5(regs, rule, x, 0x8061, 0, 8,
           0x93842e98, 0xc7043b64, 0x94a2ebee, 0x3745961f, 0xbd607d1e, 0xa6f72085, 0xbf8b4f98, 0xdaf7f308, 0x35a82a7a,
           0x89e0ec97, 0x5abe099c, 0xcf7e60db);
    Eight6(regs, rule, x, 0x8061, 0, 8,
           0x35a82a7a, 0x89e0ec97, 0x5abe099c, 0xcf7e60db, 0x75c151e2, 0x942e0c86, 0x0c0e6ac4, 0xcc6f5e9e, 0x0ac50e18,
           0x79ca7845, 0x8a4a6356, 0x918f93bb);
  }

  lemma AFourth(regs: nat -> Regs<bv32>, rule: Rule<bv32>, x: seq<bv32>)
    requires IsStepped(rule) && Runs(regs, rule, x) && IsShort(x, 0x8061, 0, 8)
    requires regs(48) == Regs(0x0ac50e18, 0x918f93bb, 0x8a4a6356, 0x79ca7845)
    ensures regs(64) == Regs(0x52309e0b, 0xb8e94637, 0x49dee633, 0x50f422f3)
  {
    Eight7(regs, rule, x, 0x8061, 0, 8,
           0x0ac50e18, 0x79ca7845, 0x8a4a6356, 0x918f93bb, 0xcab8fe42, 0x6a4daeee, 0x36269c3f, 0x1ee405eb, 0x982c7861,
           0x6812a362, 0x71fc7709, 0x893501c0);
    Eight8(regs, rule, x, 0x8061, 0, 8,
           0x982c7861, 0x6812a362, 0x71fc7709, 0x893501c0, 0xfebd62fd, 0x28936a74, 0x53e33526, 0xaa4d8ae3, 0x52309e0b,
           0x50f422f3, 0x49dee633, 0xb8e94637);
  }

  lemma AbcFirst(regs: nat -> Regs<bv32>, rule: Rule<bv32>, x: seq<bv32>)
    requires IsStepped(rule) && Runs(regs, rule, x) && IsShort(x, 0x80636261, 0, 24)
    requires regs(0) == INIT
    ensures regs(16) == Regs(0xdda9b9a6, 0x72aff2e0, 0xe396856b, 0xa1051895)
  {
    Eight1(regs, rule, x, 0x80636261, 0, 24,
           0x67452301, 0x10325476, 0x98badcfe, 0xefcdab89, 0xd6d117b4, 0x344a8432, 0x2f6fbd72, 0x7ad956f2, 0xc73741ef,
           0x8bac3051, 0x207dc67b, 0x928d99f6);
    Eight2(regs, rule, x, 0x80636261, 0, 24,
           0xc73741ef, 0x8bac3051, 0x207dc67b, 0x928d99f6, 0x854b3712, 0x74e2f284, 0x3020401c, 0x5ed49596, 0xdda9b9a6,
           0xa1051895, 0xe396856b, 0x72aff2e0);
  }

  lemma AbcSecond(regs: nat -> Regs<bv32>, rule: Rule<bv32>, x: seq<bv32>)
    requires IsStepped(rule) && Runs(regs, rule, x) && IsShort(x, 0x80636261, 0, 24)
    requires regs(16) == Regs(0xdda9b9a6, 0x72aff2e0, 0xe396856b, 0xa1051895)
    ensures regs(32) == Regs(0x790a77fb, 0x726342d3, 0xa62884aa, 0x9f47e4f8)
  {
    Eight3(regs, rule, x, 0x80636261, 0, 24,
           0xdda9b9a6, 0xa1051895, 0xe396856b, 0x72aff2e0, 0x3e9e9126, 0x4a1d804e, 0xe25e1652, 0xb5b204e4, 0x59a8ffda,
           0x6d002f1e, 0xabfc7920, 0x47092c07);
    Eight4(regs, rule, x, 0x80636261, 0, 24,
           0x59a8ffda, 0x6d002f1e, 0xabfc7920, 0x47092c07, 0xb7f268cf, 0x09388eff, 0xfe1623b1, 0x786acb8f, 0x790a77fb,
           0x9f47e4f8, 0xa62884aa, 0x726342d3);
  }

  lemma AbcThird(regs: nat -> Regs<bv32>, rule: Rule<bv32>, x: seq<bv32>)
    requires IsStepped(rule) && Runs(regs, rule, x) && IsShort(x, 0x80636261, 0, 24)
    requires regs(32) == Regs(0x790a77fb, 0x726342d3, 0xa62884aa, 0x9f47e4f8)
    ensures regs(48) == Regs(0x7f2e507b, 0x7beb9700, 0x8fae6399, 0x99d9679d)
  {
    Eight5(regs, rule, x, 0x80636261, 0, 24,
           0x790a77fb, 0x9f47e4f8, 0xa62884aa, 0x726342d3, 0xb3707ebf, 0x60127b2e, 0x8d212ff5, 0x3b0875c7, 0x21b117b9,
           0x6e7429d5, 0x3575227e, 0x5a2f5ea5);
    Eight6(regs, rule, x, 0x80636261, 0, 24,
           0x21b117b9, 0x6e7429d5, 0x3575227e, 0x5a2f5ea5, 0x11de1779, 0xfadcaa38, 0x31c465ca, 0x4c6124f4, 0x7f2e507b,
           0x99d9679d, 0x8fae6399, 0x7beb9700);
  }

  lemma AbcFourth(regs: nat -> Regs<bv32>, rule: Rule<bv32>, x: seq<bv32>)
    requires IsStepped(rule) && Runs(regs, rule, x) && IsShort(x, 0x80636261, 0, 24)
    requires regs(48) == Regs(0x7f2e507b, 0x7beb9700, 0x8fae6399, 0x99d9679d)
    ensures regs(64) == Regs(0x310ade8f, 0xc08226b3, 0xe484b9d8, 0x624d8cb2)
  {
    Eight7(regs, rule, x, 0x80636261, 0, 24,
           0x7f2e507b, 0x99d9679d, 0x8fae6399, 0x7beb9700, 0x7b201df8, 0xf4e8e96e, 0xb298cefd, 0x8bf025c4, 0x06cc5e8a,
           0x5b0d97aa, 0x7d632dd0, 0x3bfa2c27);
    Eight8(regs, rule, x, 0x80636261, 0, 24,
           0x06cc5e8a, 0x5b0d97aa, 0x7d632dd0, 0x3bfa2c27, 0x7f81cc35, 0x094454ab, 0x4f9dbe3f, 0x7327d604, 0x310ade8f,
           0x624d8cb2, 0xe484b9d8, 0xc08226b3);
  }

  // ---------------------------------------------------------------- from the registers to the digest

  /** The bytes of a padded message of less than four bytes. */
  function ShortByte(m: seq<bv8>, j: nat): bv8
  {
    if j < |m| then m[j] else if j == |m| then 0x80 else if j == 56 then CountByte(8 * |m|, 0) else 0
  }

  lemma ThreeAt<T>(a: seq<T>, b: seq<T>, c: seq<T>, j: nat)
    requires j < |a| + |b| + |c|
    ensures (a + b + c)[j] == if j < |a| then a[j] else if j < |a| + |b| then b[j - |a|] else c[j - |a| - |b|]
  {
  }

  lemma PaddingAt(n: nat, j: nat)
    requires n < 4 && j < 56 - n
    ensures |Padding(n)| == 56 - n && Padding(n)[j] == if j == 0 then 0x80 else 0
  {
  }

  lemma LengthAt(bits: nat, j: nat)
    requires bits < 256 && j < 8
    ensures LengthBytes(bits)[j] == if j == 0 then CountByte(bits, 0) else 0
  {
    assert LengthBytes(bits)[j] == CountByte(bits, j);
    if j > 0 {
      NoMore(bits, j);
    }
  }

  lemma PaddedShort(m: seq<bv8>, j: nat)
    requires |m| < 4 && j < 64
    ensures |Padded(m)| == 64 && Padded(m)[j] == ShortByte(m, j)
  {
    ThreeAt(m, Padding(|m|), LengthBytes(8 * |m|), j);
    if |m| <= j < 56 {
      PaddingAt(|m|, j - |m|);
    } else if j >= 56 {
      LengthAt(8 * |m|, j - 56);
    }
  }

  lemma NoMore(bits: nat, i: nat)
    requires bits < 256 && i > 0
    ensures CountByte(bits, i) == 0
  {
    assert Pow256(i) == 256 * Pow256(i - 1) >= 256;
    DivIs(bits, Pow256(i), 0, bits);
  }

  lemma ZeroWord()
    ensures Word(0, 0, 0, 0) == 0
  {
  }

  /** Its words. */
  lemma ShortWords(m: seq<bv8>, first: bv32, bits: bv32)
    requires |m| < 4 && Word(CountByte(8 * |m|, 0), 0, 0, 0) == bits
    requires Word(ShortByte(m, 0), ShortByte(m, 1), ShortByte(m, 2), ShortByte(m, 3)) == first
    ensures |Padded(m)| == 64 && IsShort(BlockWords(Padded(m)), first, 0, bits)
  {
    var x := BlockWords(Padded(m));
    forall j: nat | j < 64
      ensures Padded(m)[j] == ShortByte(m, j)
    {
      PaddedShort(m, j);
    }
    ZeroWord();
    forall i | 0 <= i < 16
      ensures x[i] == if i == 0 then first else if i == 14 then bits else 0
    {
      assert x[i] == BlockWord(Padded(m), i);
    }
  }

  /** The registers on the way, as a function of the number of steps. */
  function Trace(x: seq<bv32>): nat -> Regs<bv32>
    requires |x| == 16
  {
    (n: nat) => if n <= 64 then LoopSteps(StepRule(RFC), 0, n, INIT, x) else INIT
  }

  lemma TraceRuns(x: seq<bv32>)
    requires |x| == 16
    ensures Runs(Trace(x), StepRule(RFC), x) && IsStepped(StepRule(RFC)) && Trace(x)(0) == INIT
  {
    forall round: nat, a, b, c, d, w, s, t
      ensures StepRule(RFC)(round, a, b, c, d, w, s, t) == Stepped(round, a, b, c, d, w, s, t)
    {
      StepIs(round, a, b, c, d, w, s, t);
    }
  }

  lemma HexBytes(a: bv8, b: bv8, c: bv8, d: bv8)
    ensures Hex([a, b, c, d]) == HexPair(a) + HexPair(b) + HexPair(c) + HexPair(d)
  {
    HexMore([a, b, c, d], [a, b, c], d);
    HexMore([a, b, c], [a, b], c);
    HexMore([a, b], [a], b);
    HexMore([a], [], a);
  }

  lemma HexMore(d: seq<bv8>, init: seq<bv8>, last: bv8)
    requires d == init + [last]
    ensures Hex(d) == Hex(init) + HexPair(last)
  {
    assert d[..|d| - 1] == init;
  }

  lemma {:induction false} HexAppend(d: seq<bv8>, e: seq<bv8>)
    ensures Hex(d + e) == Hex(d) + Hex(e)
    decreases |e|
  {
    if e == [] {
      assert d + e == d;
    } else {
      var n := |e| - 1;
      HexAppend(d, e[..n]);
      assert (d + e)[..|d| + n] == d + e[..n];
    }
  }

  lemma FourOutput<W>(core: Core<W>, a: W, b: W, c: W, d: W)
    ensures Output(core, [a, b, c, d])
            == WordBytes(core, a) + WordBytes(core, b) + WordBytes(core, c) + WordBytes(core, d)
  {
    OutputMore(core, [a, b, c, d], [a, b, c], d);
    OutputMore(core, [a, b, c], [a, b], c);
    OutputMore(core, [a, b], [a], b);
    OutputMore(core, [a], [], a);
  }

  lemma FourHex(p: seq<bv8>, q: seq<bv8>, u: seq<bv8>, v: seq<bv8>)
    ensures Hex(p + q + u + v) == Hex(p) + Hex(q) + Hex(u) + Hex(v)
  {
    HexAppend(p + q + u, v);
    HexAppend(p + q, u);
    HexAppend(p, q);
  }

  /** The text of a word of the digest. */
  function WordText(w: bv32): string { Hex(WordBytes(RFC1321, w)) }

  /** A word of the digest by its bytes. */
  lemma Shown(w: bv32, b0: bv8, b1: bv8, b2: bv8, b3: bv8)
    requires WordByte(w, 0) == b0 && WordByte(w, 1) == b1 && WordByte(w, 2) == b2 && WordByte(w, 3) == b3
    ensures WordBytes(RFC1321, w) == [b0, b1, b2, b3]
  {
  }

  /** The registers whose bytes are the digest. */
  function Final(m: seq<bv8>): Regs<bv32> { Fold(RFC1321, INIT, Padded(m)) }

  lemma FinalIs(m: seq<bv8>, x: seq<bv32>, r: Regs<bv32>)
    requires |Padded(m)| == 64 && x == BlockWords(Padded(m)) && Trace(x)(64) == r
    ensures Final(m) == Regs(Add32(INIT.a, r.a), Add32(INIT.b, r.b), Add32(INIT.c, r.c), Add32(INIT.d, r.d))
  {
    var p := Padded(m);
    assert p[..64] == p && p[64..] == [];
    assert Fold(RFC1321, INIT, p) == CompressBlock(RFC1321, INIT, p);
  }

  /** The text of a digest, by the registers. */
  lemma DigestShown(m: seq<bv8>, a: bv32, b: bv32, c: bv32, d: bv32, p: string, q: string, u: string, v: string)
    requires Final(m) == Regs(a, b, c, d)
    requires WordText(a) == p && WordText(b) == q && WordText(c) == u && WordText(d) == v
    ensures Hex(Digest(m)) == p + q + u + v
  {
    FourOutput(RFC1321, a, b, c, d);
    FourHex(WordBytes(RFC1321, a), WordBytes(RFC1321, b), WordBytes(RFC1321, c), WordBytes(RFC1321, d));
  }

  lemma HexShown(w: bv32, b0: bv8, b1: bv8, b2: bv8, b3: bv8, t: string)
    requires WordByte(w, 0) == b0 && WordByte(w, 1) == b1 && WordByte(w, 2) == b2 && WordByte(w, 3) == b3
    requires HexPair(b0) + HexPair(b1) + HexPair(b2) + HexPair(b3) == t
    ensures WordText(w) == t
  {
    Shown(w, b0, b1, b2, b3);
    HexBytes(b0, b1, b2, b3);
  }

  lemma EmptyRegisters(regs: nat -> Regs<bv32>, rule: Rule<bv32>, x: seq<bv32>)
    requires IsStepped(rule) && Runs(regs, rule, x) && IsShort(x, 0x80, 0, 0) && regs(0) == INIT
    ensures regs(64) == Regs(0x7246fad3, 0x14e45506, 0xff4ea3eb, 0x6e10a476)
  {
    EmptyFirst(regs, rule, x);
    EmptySecond(regs, rule, x);
    EmptyThird(regs, rule, x);
    EmptyFourth(regs, rule, x);
  }

  lemma EmptyText()
    ensures WordText(0xd98c1dd4) == "d41d8cd9"
    ensures WordText(0x04b2008f) == "8f00b204"
    ensures WordText(0x980980e9) == "e9800998"
    ensures WordText(0x7e42f8ec) == "ecf8427e"
  {
    HexShown(0xd98c1dd4, 0xd4, 0x1d, 0x8c, 0xd9, "d41d8cd9");
    HexShown(0x04b2008f, 0x8f, 0x00, 0xb2, 0x04, "8f00b204");
    HexShown(0x980980e9, 0xe9, 0x80, 0x09, 0x98, "e9800998");
    HexShown(0x7e42f8ec, 0xec, 0xf8, 0x42, 0x7e, "ecf8427e");
  }

  lemma EmptyFinal()
    ensures Final([]) == Regs(0xd98c1dd4, 0x04b2008f, 0x980980e9, 0x7e42f8ec)
  {
    var m: seq<bv8> := [];
    ShortWords(m, 0x80, 0);
    var x := BlockWords(Padded(m));
    TraceRuns(x);
    EmptyRegisters(Trace(x), StepRule(RFC), x);
    FinalIs(m, x, Regs(0x7246fad3, 0x14e45506, 0xff4ea3eb, 0x6e10a476));
  }

  lemma EmptyDigest()
    ensures Hex(Digest([])) == "d41d8cd98f00b204e9800998ecf8427e"
  {
    EmptyFinal();
    EmptyText();
    DigestShown([], 0xd98c1dd4, 0x04b2008f, 0x980980e9, 0x7e42f8ec,
                "d41d8cd9", "8f00b204", "e9800998", "ecf8427e");
  }

  lemma ARegisters(regs: nat -> Regs<bv32>, rule: Rule<bv32>, x: seq<bv32>)
    requires IsStepped(rule) && Runs(regs, rule, x) && IsShort(x, 0x8061, 0, 8) && regs(0) == INIT
    ensures regs(64) == Regs(0x52309e0b, 0xb8e94637, 0x49dee633, 0x50f422f3)
  {
    AFirst(regs, rule, x);
    ASecond(regs, rule, x);
    AThird(regs, rule, x);
    AFourth(regs, rule, x);
  }

  lemma AText()
    ensures WordText(0xb975c10c) == "0cc175b9"
    ensures WordText(0xa8b6f1c0) == "c0f1b6a8"
    ensures WordText(0xe299c331) == "31c399e2"
    ensures WordText(0x61267769) == "69772661"
  {
    HexShown(0xb975c10c, 0x0c, 0xc1, 0x75, 0xb9, "0cc175b9");
    HexShown(0xa8b6f1c0, 0xc0, 0xf1, 0xb6, 0xa8, "c0f1b6a8");
    HexShown(0xe299c331, 0x31, 0xc3, 0x99, 0xe2, "31c399e2");
    HexShown(0x61267769, 0x69, 0x77, 0x26, 0x61, "69772661");
  }

  lemma AFinal()
    ensures Final([0x61]) == Regs(0xb975c10c, 0xa8b6f1c0, 0xe299c331, 0x61267769)
  {
    var m: seq<bv8> := [0x61];
    ShortWords(m, 0x8061, 8);
    var x := BlockWords(Padded(m));
    TraceRuns(x);
    ARegisters(Trace(x), StepRule(RFC), x);
    FinalIs(m, x, Regs(0x52309e0b, 0xb8e94637, 0x49dee633, 0x50f422f3));
  }

  lemma ADigest()
    ensures Hex(Digest([0x61])) == "0cc175b9c0f1b6a831c399e269772661"
  {
    AFinal();
    AText();
    DigestShown([0x61], 0xb975c10c, 0xa8b6f1c0, 0xe299c331, 0x61267769,
                "0cc175b9", "c0f1b6a8", "31c399e2", "69772661");
  }

  lemma AbcRegisters(regs: nat -> Regs<bv32>, rule: Rule<bv32>, x: seq<bv32>)
    requires IsStepped(rule) && Runs(regs, rule, x) && IsShort(x, 0x80636261, 0, 24) && regs(0) == INIT
    ensures regs(64) == Regs(0x310ade8f, 0xc08226b3, 0xe484b9d8, 0x624d8cb2)
  {
    AbcFirst(regs, rule, x);
    AbcSecond(regs, rule, x);
    AbcThird(regs, rule, x);
    AbcFourth(regs, rule, x);
  }

  lemma AbcText()
    ensures WordText(0x98500190) == "90015098"
    ensures WordText(0xb04fd23c) == "3cd24fb0"
    ensures WordText(0x7d3f96d6) == "d6963f7d"
    ensures WordText(0x727fe128) == "28e17f72"
  {
    HexShown(0x98500190, 0x90, 0x01, 0x50, 0x98, "90015098");
    HexShown(0xb04fd23c, 0x3c, 0xd2, 0x4f, 0xb0, "3cd24fb0");
    HexShown(0x7d3f96d6, 0xd6, 0x96, 0x3f, 0x7d, "d6963f7d");
    HexShown(0x727fe128, 0x28, 0xe1, 0x7f, 0x72, "28e17f72");
  }

  lemma AbcFinal()
    ensures Final([0x61, 0x62, 0x63]) == Regs(0x98500190, 0xb04fd23c, 0x7d3f96d6, 0x727fe128)
  {
    var m: seq<bv8> := [0x61, 0x62, 0x63];
    ShortWords(m, 0x80636261, 24);
    var x := BlockWords(Padded(m));
    TraceRuns(x);
    AbcRegisters(Trace(x), StepRule(RFC), x);
    FinalIs(m, x, Regs(0x310ade8f, 0xc08226b3, 0xe484b9d8, 0x624d8cb2));
  }

  lemma AbcDigest()
    ensures Hex(Digest([0x61, 0x62, 0x63])) == "900150983cd24fb0d6963f7d28e17f72"
  {
    AbcFinal();
    AbcText();
    DigestShown([0x61, 0x62, 0x63], 0x98500190, 0xb04fd23c, 0x7d3f96d6, 0x727fe128,
                "90015098", "3cd24fb0", "d6963f7d", "28e17f72");
  }
}

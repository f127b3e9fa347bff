/**
  The sampled digest of src/hash_utils.c (httpfs_sparse_md5_hex): MD5 over the bytes whose absolute file
  offset is a multiple of ten, as 32 lower-case hexadecimal digits.
*/
module SparseMd5 {
  import opened Base
  import opened Md5Compression
  import opened Md5Stream

  // ---------------------------------------------------------------- MD5 itself

  const INIT: Regs<bv32> := Regs(0x67452301, 0xefcdab89, 0x98badcfe, 0x10325476)

  function BlockWordsOf(block: seq<bv8>): seq<bv32>
  {
    if |block| == 64 then BlockWords(block) else []
  }

  /** Byte `k` of a word, low-order byte first. */
  function WordByte(w: bv32, k: nat): bv8
  {
    if k == 0 then (w & 0xff) as bv8
    else if k == 1 then ((w >> 8) & 0xff) as bv8
    else if k == 2 then ((w >> 16) & 0xff) as bv8
    else ((w >> 24) & 0xff) as bv8
  }

  /** Writing a word out undoes reading it, and the other way round. */
  lemma BytesOfWord(b0: bv8, b1: bv8, b2: bv8, b3: bv8)
    ensures var w := Word(b0, b1, b2, b3);
      [WordByte(w, 0), WordByte(w, 1), WordByte(w, 2), WordByte(w, 3)] == [b0, b1, b2, b3]
  {
  }

  lemma WordOfBytes(w: bv32)
    ensures Word(WordByte(w, 0), WordByte(w, 1), WordByte(w, 2), WordByte(w, 3)) == w
  {
  }

  const RFC1321: Core<bv32> := Core(RFC, BlockWordsOf, WordByte, INIT)

  /** The core of the program: the same, with MD5_STEP's shift-or rotation. */
  const PROGRAM: Core<bv32> := RFC1321.(m := MACRO)

  function Digest(m: seq<bv8>): (d: seq<bv8>)
    ensures |d| == 16
  {
    DigestWith(RFC1321, m)
  }

  lemma {:induction false} ProgramFoldIsRfc(r: Regs<bv32>, m: seq<bv8>)
    ensures Fold(PROGRAM, r, m) == Fold(RFC1321, r, m)
    decreases |m|
  {
    if |m| >= 64 {
      BlockIsRfc(r, m[..64]);
      ProgramFoldIsRfc(CompressBlock(RFC1321, r, m[..64]), m[64..]);
    }
  }

  lemma BlockIsRfc(r: Regs<bv32>, block: seq<bv8>)
    requires |block| == 64
    ensures CompressBlock(PROGRAM, r, block) == CompressBlock(RFC1321, r, block)
  {
    MacroCompressesAsRfc(r, BlockWords(block));
  }

  lemma {:induction false} ProgramOutputIsRfc(words: seq<bv32>)
    ensures Output(PROGRAM, words) == Output(RFC1321, words)
  {
    if words != [] {
      ProgramOutputIsRfc(words[..|words| - 1]);
    }
  }

  lemma ProgramDigestIsRfc(m: seq<bv8>)
    ensures DigestWith(PROGRAM, m) == Digest(m)
  {
    ProgramFoldIsRfc(INIT, Padded(m));
    var r := Fold(RFC1321, INIT, Padded(m));
    ProgramOutputIsRfc([r.a, r.b, r.c, r.d]);
  }

  function Concat(parts: seq<seq<bv8>>): seq<bv8>
  {
    if parts == [] then [] else Concat(parts[..|parts| - 1]) + parts[|parts| - 1]
  }

  /** However a message is cut into updates, the streamed digest is the digest of RFC 1321. */
  method Hash(parts: seq<seq<bv8>>) returns (digest: seq<bv8>)
    ensures digest == Digest(Concat(parts))
  {
    var ctx := new Context(PROGRAM);
    for i := 0 to |parts|
      invariant ctx.Valid() && ctx.msg == Concat(parts[..i]) && fresh(ctx.state) && fresh(ctx.buffer) && fresh(ctx)
      invariant ctx.core == PROGRAM
    {
      assert parts[..i + 1][..i] == parts[..i];
      ctx.Update(parts[i]);
    }
    assert parts[..|parts|] == parts;
    ProgramDigestIsRfc(ctx.msg);
    var out := ctx.Final();
    digest := out[..];
  }

  // ---------------------------------------------------------------- sampling

  /** The bytes of `data`, which starts at file offset `base`, whose offset is a multiple of ten. */
  function Sample(data: seq<bv8>, base: nat): seq<bv8>
  {
    if data == [] then []
    else
      var n := |data| - 1;
      Sample(data[..n], base) + (if (base + n) % 10 == 0 then [data[n]] else [])
  }

  /** The sample of a concatenation is the concatenation of the samples at shifted offsets. */
  lemma {:induction false} SampleAppend(a: seq<bv8>, b: seq<bv8>, base: nat)
    ensures Sample(a + b, base) == Sample(a, base) + Sample(b, base + |a|)
    decreases |b|
  {
    if b == [] {
      assert a + b == a;
    } else {
      var n := |b| - 1;
      assert (a + b)[..|a| + n] == a + b[..n];
      SampleAppend(a, b[..n], base);
    }
  }

  /** Exactly the multiples of ten in the window are sampled, so at most one byte in ten and one more. */
  lemma {:induction false} SampleSize(data: seq<bv8>, base: nat)
    ensures |Sample(data, base)| == (base + |data| + 9) / 10 - (base + 9) / 10
    ensures |Sample(data, base)| <= |data| / 10 + 1
    decreases |data|
  {
    if data != [] {
      SampleSize(data[..|data| - 1], base);
    }
  }

  /** `x` and `y` agree at every sampled offset. */
  ghost predicate AgreeAtSampled(x: seq<bv8>, y: seq<bv8>, base: nat)
  {
    |x| == |y| && forall i :: 0 <= i < |x| && (base + i) % 10 == 0 ==> x[i] == y[i]
  }

  /** What the last byte adds. */
  lemma AgreeMore(x: seq<bv8>, y: seq<bv8>, base: nat, n: nat)
    requires |x| == |y| == n + 1
    ensures AgreeAtSampled(x, y, base) <==>
            AgreeAtSampled(x[..n], y[..n], base) && ((base + n) % 10 == 0 ==> x[n] == y[n])
  {
    if AgreeAtSampled(x[..n], y[..n], base) && ((base + n) % 10 == 0 ==> x[n] == y[n]) {
      forall i | 0 <= i < |x| && (base + i) % 10 == 0
        ensures x[i] == y[i]
      {
        if i < n { assert x[..n][i] == y[..n][i]; }
      }
    }
  }

  lemma SameMore(p: seq<bv8>, q: seq<bv8>, a: seq<bv8>, b: seq<bv8>)
    requires |p| == |q|
    ensures p + a == q + b <==> p == q && a == b
  {
    if p + a == q + b {
      assert p == (p + a)[..|p|] && q == (q + b)[..|p|];
      assert a == (p + a)[|p|..] && b == (q + b)[|p|..];
    }
  }

  lemma SameSize(x: seq<bv8>, y: seq<bv8>, base: nat)
    requires |x| == |y|
    ensures |Sample(x, base)| == |Sample(y, base)|
  {
    SampleSize(x, base);
    SampleSize(y, base);
  }

  lemma SampleMore(x: seq<bv8>, y: seq<bv8>, base: nat, n: nat)
    requires |x| == |y| == n + 1
    ensures Sample(x, base) == Sample(y, base) <==>
            Sample(x[..n], base) == Sample(y[..n], base) && ((base + n) % 10 == 0 ==> x[n] == y[n])
  {
    SameSize(x[..n], y[..n], base);
    SameMore(Sample(x[..n], base), Sample(y[..n], base), [x[n]], [y[n]]);
    SameMore(Sample(x[..n], base), Sample(y[..n], base), [], []);
  }

  /** Windows of one length have the same sample exactly when they agree at every sampled offset. */
  lemma {:induction false} SampleDetermines(x: seq<bv8>, y: seq<bv8>, base: nat)
    requires |x| == |y|
    ensures Sample(x, base) == Sample(y, base) <==> AgreeAtSampled(x, y, base)
    decreases |x|
  {
    if x != [] {
      var n := |x| - 1;
      SampleDetermines(x[..n], y[..n], base);
      AgreeMore(x, y, base, n);
      SampleMore(x, y, base, n);
    }
  }

  // ---------------------------------------------------------------- hexadecimal text

  function NibbleDigit(n: bv8): char
  {
    match n
    case 0 => '0' case 1 => '1' case 2 => '2' case 3 => '3' case 4 => '4' case 5 => '5' case 6 => '6' case 7 => '7'
    case 8 => '8' case 9 => '9' case 10 => 'a' case 11 => 'b' case 12 => 'c' case 13 => 'd' case 14 => 'e' case _ => 'f'
  }

  function HexPair(b: bv8): (t: string)
    ensures |t| == 2
  {
    [NibbleDigit(b >> 4), NibbleDigit(b & 0x0f)]
  }

  function Hex(d: seq<bv8>): (t: string)
    ensures |t| == 2 * |d|
  {
    if d == [] then [] else Hex(d[..|d| - 1]) + HexPair(d[|d| - 1])
  }

  lemma NibbleInjective(m: bv8, n: bv8)
    requires m < 16 && n < 16 && NibbleDigit(m) == NibbleDigit(n)
    ensures m == n
  {
  }

  lemma HexPairInjective(b: bv8, c: bv8)
    requires HexPair(b) == HexPair(c)
    ensures b == c
  {
    assert HexPair(b)[0] == HexPair(c)[0] && HexPair(b)[1] == HexPair(c)[1];
    NibbleInjective(b >> 4, c >> 4);
    NibbleInjective(b & 0x0f, c & 0x0f);
  }

  /** Comparing digests as text compares the digests. */
  lemma {:induction false} HexInjective(d: seq<bv8>, e: seq<bv8>)
    requires Hex(d) == Hex(e)
    ensures d == e
    decreases |d|
  {
    if d != [] {
      var m := |d| - 1;
      assert Hex(d)[..2 * m] == Hex(d[..m]) && Hex(e)[..2 * m] == Hex(e[..m]);
      assert Hex(d)[2 * m..] == HexPair(d[m]) && Hex(e)[2 * m..] == HexPair(e[m]);
      HexInjective(d[..m], e[..m]);
      HexPairInjective(d[m], e[m]);
      assert d == d[..m] + [d[m]] && e == e[..m] + [e[m]];
    }
  }

  predicate IsHexDigit(c: char)
  {
    '0' <= c <= '9' || 'a' <= c <= 'f'
  }

  /** httpfs_is_valid_md5_hex */
  predicate IsValidMd5Hex(t: string)
  {
    |t| == 32 && forall i :: 0 <= i < 32 ==> IsHexDigit(t[i])
  }

  lemma {:induction false} HexIsHex(d: seq<bv8>)
    ensures forall i :: 0 <= i < 2 * |d| ==> IsHexDigit(Hex(d)[i])
  {
    if d != [] {
      HexIsHex(d[..|d| - 1]);
    }
  }

  // ---------------------------------------------------------------- the sampled digest

  /** The text of a digest, as it travels in the header and in the reply. */
  function DigestText(m: seq<bv8>): string
  {
    Hex(Digest(m))
  }

  /** Texts collide exactly when the digests do. */
  lemma DigestTextInjective(x: seq<bv8>, y: seq<bv8>)
    ensures DigestText(x) == DigestText(y) <==> Digest(x) == Digest(y)
  {
    if DigestText(x) == DigestText(y) {
      HexInjective(Digest(x), Digest(y));
    }
  }

  function SampledDigest(data: seq<bv8>, base: nat): string
  {
    DigestText(Sample(data, base))
  }

  /** A sampled digest always passes the receiver's format check. */
  lemma SampledDigestIsValid(data: seq<bv8>, base: nat)
    ensures IsValidMd5Hex(SampledDigest(data, base))
  {
    HexIsHex(Digest(Sample(data, base)));
  }

  /**
    httpfs_sparse_md5_hex: feeding the sampled bytes one at a time gives the digest of the collected sample;
    a negative offset is refused.
  */
  method SparseMd5Hex(data: seq<bv8>, base: int) returns (r: Option<string>)
    ensures r == if base < 0 then None else Some(SampledDigest(data, base))
  {
    if base < 0 {
      return None;
    }
    var ctx := new Context(PROGRAM);
    for i := 0 to |data|
      invariant ctx.Valid() && fresh(ctx) && fresh(ctx.state) && fresh(ctx.buffer) && ctx.core == PROGRAM
      invariant ctx.msg == Sample(data[..i], base)
    {
      assert data[..i + 1][..i] == data[..i];
      if (base + i) % 10 == 0 {
        ctx.Update(data[i..i + 1]);
      }
    }
    assert data[..|data|] == data;
    ProgramDigestIsRfc(ctx.msg);
    var digest := ctx.Final();
    var output := HexText(digest[..]);
    r := Some(output);
  }

  /** The last loop of httpfs_sparse_md5_hex. */
  method HexText(digest: seq<bv8>) returns (output: string)
    ensures output == Hex(digest)
  {
    output := [];
    for i := 0 to |digest|
      invariant output == Hex(digest[..i])
    {
      assert digest[..i + 1][..i] == digest[..i];
      output := output + [NibbleDigit(digest[i] >> 4), NibbleDigit(digest[i] & 0x0f)];
    }
    assert digest[..|digest|] == digest;
  }
}

/**
  The streaming context of src/hash_utils.c (md5_init, md5_update, md5_final) against the one-shot digest of
  RFC 1321: the message padded as in sections 3.1 and 3.2, folded block by block from the initial state of
  section 3.3, and written out as in section 3.5.

  Streaming does not depend on what the compression computes, so the context is proved for an arbitrary
  core; `MD5` below is the core of the program.
*/
module Md5Stream {
  import opened Base
  import opened Md5Compression

  const TWO64: nat := 0x1_0000_0000_0000_0000

  /** What the context is built on: step operations, block decoding, byte `k` of a word, initial registers. */
  datatype Core<!W> = Core(m: Arith<W>, decode: seq<bv8> -> seq<W>, byte: (W, nat) -> bv8, init: Regs<W>)

  ghost predicate Decodes<W(!new)>(core: Core<W>)
  {
    forall block: seq<bv8> :: |block| == 64 ==> |core.decode(block)| == 16
  }

  // ---------------------------------------------------------------- folding blocks

  function CompressBlock<W>(core: Core<W>, r: Regs<W>, block: seq<bv8>): Regs<W>
  {
    var x := core.decode(block);
    if |x| == 16 then CompressWords(core.m, r, x) else r
  }

  /** Folds the compression over the complete 64-byte blocks of `m`. */
  function Fold<W>(core: Core<W>, r: Regs<W>, m: seq<bv8>): Regs<W>
    decreases |m|
  {
    if |m| < 64 then r else Fold(core, CompressBlock(core, r, m[..64]), m[64..])
  }

  /** The bytes that `Fold` leaves over. */
  function Rest(m: seq<bv8>): (rest: seq<bv8>)
    ensures |rest| == |m| % 64
  {
    if |m| < 64 then m else Rest(m[64..])
  }

  lemma {:induction false} FoldAppend<W>(core: Core<W>, r: Regs<W>, a: seq<bv8>, k: nat, b: seq<bv8>)
    requires |a| == 64 * k
    ensures Fold(core, r, a + b) == Fold(core, Fold(core, r, a), b)
    ensures Rest(a + b) == Rest(b)
    decreases k
  {
    if k == 0 {
      assert a + b == b;
    } else {
      assert (a + b)[..64] == a[..64] && (a + b)[64..] == a[64..] + b;
      FoldAppend(core, CompressBlock(core, r, a[..64]), a[64..], k - 1, b);
    }
  }

  lemma FoldOneMore<W>(core: Core<W>, r: Regs<W>, a: seq<bv8>, k: nat, block: seq<bv8>)
    requires |a| == 64 * k && |block| == 64
    ensures Fold(core, r, a + block) == CompressBlock(core, Fold(core, r, a), block)
  {
    FoldAppend(core, r, a, k, block);
    assert block[..64] == block && |block[64..]| < 64;
  }

  /** Every message is complete blocks followed by what is left over. */
  lemma {:induction false} Split<W>(core: Core<W>, r: Regs<W>, m: seq<bv8>) returns (whole: seq<bv8>, k: nat)
    ensures |whole| == 64 * k && m == whole + Rest(m) && Fold(core, r, whole) == Fold(core, r, m)
    decreases |m|
  {
    if |m| < 64 {
      whole, k := [], 0;
    } else {
      var w, j := Split(core, CompressBlock(core, r, m[..64]), m[64..]);
      whole, k := m[..64] + w, j + 1;
      assert whole[..64] == m[..64] && whole[64..] == w;
    }
  }

  // ---------------------------------------------------------------- the digest of RFC 1321

  /** Section 3.1: at least one padding byte, up to a length congruent to 56 modulo 64. */
  ghost predicate IsPadLength(n: nat, p: nat)
  {
    1 <= p <= 64 && (n + p) % 64 == 56
  }

  function PadLength(n: nat): (p: nat)
    ensures IsPadLength(n, p)
    ensures forall q: nat :: IsPadLength(n, q) ==> q == p
  {
    if n % 64 < 56 then 56 - n % 64 else 120 - n % 64
  }

  function Zeros(n: nat): (z: seq<bv8>)
    ensures |z| == n
  {
    seq(n, _ => 0)
  }

  /** Section 3.1: a one bit, then zero bits. */
  function Padding(n: nat): (p: seq<bv8>)
    ensures |p| == PadLength(n)
  {
    [0x80] + Zeros(PadLength(n) - 1)
  }

  function Pow256(i: nat): (p: nat)
    ensures p > 0
  {
    if i == 0 then 1 else 256 * Pow256(i - 1)
  }

  function CountByte(bits: nat, i: nat): bv8
  {
    ((bits / Pow256(i)) % 256) as bv8
  }

  /** Section 3.2: the length in bits modulo 2^64, low-order byte first. */
  function LengthBytes(bits: nat): (b: seq<bv8>)
    ensures |b| == 8
  {
    seq(8, i requires 0 <= i < 8 => CountByte(bits % TWO64, i))
  }

  function Padded(m: seq<bv8>): (p: seq<bv8>)
    ensures |p| % 64 == 0
  {
    m + Padding(|m|) + LengthBytes(8 * |m|)
  }

  function WordBytes<W>(core: Core<W>, w: W): (d: seq<bv8>)
    ensures |d| == 4
  {
    [core.byte(w, 0), core.byte(w, 1), core.byte(w, 2), core.byte(w, 3)]
  }

  /** Section 3.5: the registers in order, low-order bytes first. */
  function Output<W>(core: Core<W>, words: seq<W>): (d: seq<bv8>)
    ensures |d| == 4 * |words|
  {
    if words == [] then [] else Output(core, words[..|words| - 1]) + WordBytes(core, words[|words| - 1])
  }

  function DigestWith<W>(core: Core<W>, m: seq<bv8>): (d: seq<bv8>)
    ensures |d| == 16
  {
    var r := Fold(core, core.init, Padded(m));
    Output(core, [r.a, r.b, r.c, r.d])
  }

  // ---------------------------------------------------------------- the bit counter

  /** The 64-bit counter after `n` bytes. */
  function BitCount(n: nat): nat
  {
    (8 * n) % TWO64
  }

  /** The counter after `length` more bytes: both the product and the sum wrap. */
  function AddBits(bitCount: nat, length: nat): nat
  {
    (bitCount + (8 * length) % TWO64) % TWO64
  }

  function BufferIndex(bitCount: nat): nat
  {
    (bitCount / 8) % 64
  }

  /** The index into the block buffer survives the wrap of the 64-bit bit counter. */
  lemma IndexFromCounter(n: nat)
    ensures BufferIndex(BitCount(n)) == n % 64
  {
    var q, r := (8 * n) / TWO64, (8 * n) % TWO64;
    assert 8 * n == q * TWO64 + r;
    assert r == 8 * (n - q * 0x2000_0000_0000_0000);
    assert n % 64 == (r / 8) % 64 by {
      assert n == r / 8 + 64 * (q * 0x80_0000_0000_0000);
    }
  }

  lemma CounterAdds(m: seq<bv8>, input: seq<bv8>)
    ensures AddBits(BitCount(|m|), |input|) == BitCount(|m + input|)
  {
    var n, k := |m|, |input|;
    var q, s := (8 * n) / TWO64, (8 * k) / TWO64;
    assert 8 * (n + k) == (8 * n) % TWO64 + (8 * k) % TWO64 + (q + s) * TWO64;
  }

  // ---------------------------------------------------------------- the context

  /** What a context holds after `msg`: the fold of the complete blocks, and exactly the leftover bytes. */
  ghost predicate Holds<W>(core: Core<W>, state: seq<W>, bitCount: nat, buffer: seq<bv8>, msg: seq<bv8>)
  {
    && |state| == 4 && |buffer| == 64
    && bitCount == BitCount(|msg|)
    && RegsOf(state) == Fold(core, core.init, msg)
    && Rest(msg) <= buffer
  }

  /** Absorbing `input[..i]` as blocks and storing the remainder after `rest` restores the invariant. */
  lemma Reassemble<W>(core: Core<W>, state: seq<W>, bitCount: nat, buffer: seq<bv8>, msg: seq<bv8>,
                      whole: seq<bv8>, k: nat, tail: seq<bv8>)
    requires |state| == 4 && |buffer| == 64 && bitCount == BitCount(|msg|)
    requires |whole| == 64 * k && msg == whole + tail && |tail| < 64 && tail <= buffer
    requires RegsOf(state) == Fold(core, core.init, whole)
    ensures Holds(core, state, bitCount, buffer, msg)
  {
    FoldAppend(core, core.init, whole, k, tail);
  }

  lemma Regroup(msg: seq<bv8>, whole: seq<bv8>, rest: seq<bv8>, input: seq<bv8>, i: nat, j: nat)
    requires msg == whole + rest && i <= j <= |input|
    ensures whole + (rest + input[..i]) + input[i..j] == msg + input[..j] && input[..|input|] == input
    ensures input[i..i] == []
  {
    assert input[..j] == input[..i] + input[i..j];
    assert whole + (rest + input[..i]) + input[i..j] == whole + rest + (input[..i] + input[i..j]);
  }

  lemma Recut(msg: seq<bv8>, input: seq<bv8>, i: nat, none: seq<bv8>)
    requires i <= |input| && none == []
    ensures msg + input == (msg + input[..i]) + (none + input[i..])
  {
  }

  lemma Rejoin(msg: seq<bv8>, whole: seq<bv8>, rest: seq<bv8>, input: seq<bv8>)
    requires msg == whole + rest
    ensures msg + input == whole + (rest + input[0..])
  {
  }

  lemma FoldSlice<W>(core: Core<W>, done: seq<bv8>, k: nat, input: seq<bv8>, start: nat, i: nat, j: nat)
    requires |done| == 64 * k && i == start + 64 * j && i + 64 <= |input|
    ensures Fold(core, core.init, done + input[start..i + 64])
         == CompressBlock(core, Fold(core, core.init, done + input[start..i]), input[i..i + 64])
  {
    FoldOneMore(core, core.init, done + input[start..i], k + j, input[i..i + 64]);
    assert done + input[start..i] + input[i..i + 64] == done + input[start..i + 64];
  }

  /** md5_context. */
  class Context<W(!new)> {
    const core: Core<W>
    const state: array<W>
    var bitCount: nat
    const buffer: array<bv8>
    /** Everything fed to the context so far. */
    ghost var msg: seq<bv8>

    ghost predicate Valid()
      reads this, state, buffer
    {
      && Decodes(core) && state.Length == 4 && buffer.Length == 64
      && Holds(core, state[..], bitCount, buffer[..], msg)
    }

    /** md5_init */
    constructor (core: Core<W>)
      requires Decodes(core)
      ensures Valid() && msg == [] && this.core == core && fresh(state) && fresh(buffer)
    {
      this.core := core;
      state := new W[4](_ => core.init.a);
      buffer := new bv8[64];
      bitCount := 0;
      msg := [];
      new;
      state[1], state[2], state[3] := core.init.b, core.init.c, core.init.d;
    }

    /** memcpy into the block buffer. */
    method Store(index: nat, bytes: seq<bv8>)
      requires buffer.Length == 64 && index + |bytes| <= 64
      modifies buffer
      ensures buffer[..] == old(buffer[..index]) + bytes + old(buffer[index + |bytes|..])
    {
      for k := 0 to |bytes|
        invariant buffer[..] == old(buffer[..index]) + bytes[..k] + old(buffer[index + k..])
      {
        buffer[index + k] := bytes[k];
      }
    }

    /** md5_transform on one block. */
    method Transform(block: seq<bv8>)
      requires Decodes(core) && state.Length == 4 && |block| == 64
      modifies state
      ensures RegsOf(state[..]) == CompressBlock(core, old(RegsOf(state[..])), block)
    {
      TransformWords(core.m, state, core.decode(block));
    }

    /** The middle loop of md5_update: every complete block of the input is folded in from where it lies. */
    method FoldInput(input: seq<bv8>, start: nat, ghost done: seq<bv8>, ghost k: nat) returns (i: nat, ghost j: nat)
      requires Decodes(core) && state.Length == 4 && start <= |input| && |done| == 64 * k
      requires RegsOf(state[..]) == Fold(core, core.init, done)
      modifies state
      ensures i == start + 64 * j && i <= |input| < i + 64
      ensures RegsOf(state[..]) == Fold(core, core.init, done + input[start..i])
    {
      i, j := start, 0;
      assert done + input[start..i] == done;
      while i + 63 < |input|
        invariant i == start + 64 * j && i <= |input|
        invariant RegsOf(state[..]) == Fold(core, core.init, done + input[start..i])
      {
        FoldSlice(core, done, k, input, start, i, j);
        Transform(input[i..i + 64]);
        i, j := i + 64, j + 1;
      }
    }

    /** The branch of md5_update that completes the buffered block and folds the blocks after it. */
    method FoldBlocks(index: nat, input: seq<bv8>) returns (i: nat, ghost k: nat)
      requires Decodes(core) && state.Length == 4 && buffer.Length == 64
      requires RegsOf(state[..]) == Fold(core, core.init, msg) && Rest(msg) <= buffer[..]
      requires index == |msg| % 64 && |input| >= 64 - index
      modifies state, buffer
      ensures i <= |input| < i + 64 && |msg| + i == 64 * k
      ensures RegsOf(state[..]) == Fold(core, core.init, msg + input[..i])
    {
      var partLen := 64 - index;
      ghost var whole, j := Split(core, core.init, msg);
      ghost var block := Rest(msg) + input[..partLen];
      Store(index, input[..partLen]);
      assert buffer[..] == block;
      FoldOneMore(core, core.init, whole, j, block);
      Transform(buffer[..]);
      Regroup(msg, whole, Rest(msg), input, partLen, partLen);
      i, k := FoldInput(input, partLen, whole + block, j + 1);
      Regroup(msg, whole, Rest(msg), input, partLen, i);
      k := k + j + 1;
    }

    /** The end of md5_update: what is left of the input is kept in the buffer. */
    method KeepRest(index: nat, bytes: seq<bv8>, ghost whole: seq<bv8>, ghost k: nat, ghost all: seq<bv8>)
      requires Decodes(core) && state.Length == 4 && buffer.Length == 64 && index + |bytes| < 64
      requires RegsOf(state[..]) == Fold(core, core.init, whole) && |whole| == 64 * k
      requires all == whole + (buffer[..index] + bytes) && bitCount == BitCount(|all|)
      modifies this`msg, buffer
      ensures Valid() && msg == all
    {
      ghost var tail := buffer[..index] + bytes;
      ghost var regs := state[..];
      Store(index, bytes);
      assert state[..] == regs && tail <= buffer[..];
      msg := all;
      Reassemble(core, state[..], bitCount, buffer[..], msg, whole, k, tail);
    }

    /** md5_update */
    method Update(input: seq<bv8>)
      requires Valid()
      modifies this`bitCount, this`msg, state, buffer
      ensures Valid() && msg == old(msg) + input
    {
      var index := BufferIndex(bitCount);
      IndexFromCounter(|msg|);
      var i := 0;
      CounterAdds(msg, input);
      bitCount := AddBits(bitCount, |input|);
      ghost var whole, k := Split(core, core.init, msg);
      if |input| >= 64 - index {
        i, k := FoldBlocks(index, input);
        index, whole := 0, msg + input[..i];
        Recut(msg, input, i, buffer[..0]);
      } else {
        Rejoin(msg, whole, buffer[..index], input);
      }
      KeepRest(index, input[i..], whole, k, msg + input);
    }

    /** md5_final */
    method Final() returns (digest: array<bv8>)
      requires Valid()
      modifies this`bitCount, this`msg, state, buffer
      ensures fresh(digest) && digest[..] == DigestWith(core, old(msg))
    {
      ghost var m := msg;
      var bits := CountBytes();
      var index := BufferIndex(bitCount);
      IndexFromCounter(|m|);
      var padLen := if index < 56 then 56 - index else 120 - index;
      var padding: seq<bv8> := [0x80] + Zeros(63);
      assert padding[..padLen] == Padding(|m|);
      Update(padding[..padLen]);
      Update(bits[..]);
      assert msg == Padded(m);
      digest := WriteOut();
      assert state[..] == [state[0], state[1], state[2], state[3]];
    }

    /** The first loop of md5_final. */
    method CountBytes() returns (bits: array<bv8>)
      requires Valid()
      ensures fresh(bits) && bits[..] == LengthBytes(8 * |msg|)
    {
      bits := new bv8[8];
      for i := 0 to 8
        invariant forall k :: 0 <= k < i ==> bits[k] == CountByte(bitCount, k)
      {
        bits[i] := CountByte(bitCount, i);
      }
    }

    /** The last loop of md5_final. */
    method WriteOut() returns (digest: array<bv8>)
      requires state.Length == 4
      ensures fresh(digest) && digest[..] == Output(core, state[..])
    {
      digest := new bv8[16];
      for i := 0 to 4
        invariant digest[..4 * i] == Output(core, state[..i])
      {
        PutWord(digest, i, state[i]);
        OutputMore(core, state[..i + 1], state[..i], state[i]);
      }
      assert state[..4] == state[..] && digest[..16] == digest[..];
    }

    /** Four bytes of the digest. */
    method PutWord(digest: array<bv8>, i: nat, w: W)
      requires 4 * i + 4 <= digest.Length
      modifies digest
      ensures digest[..4 * i + 4] == old(digest[..4 * i]) + WordBytes(core, w)
    {
      digest[i * 4] := core.byte(w, 0);
      digest[i * 4 + 1] := core.byte(w, 1);
      digest[i * 4 + 2] := core.byte(w, 2);
      digest[i * 4 + 3] := core.byte(w, 3);
    }
  }

  lemma OutputMore<W>(core: Core<W>, words: seq<W>, init: seq<W>, last: W)
    requires words == init + [last]
    ensures Output(core, words) == Output(core, init) + WordBytes(core, last)
  {
    assert words[..|words| - 1] == init;
  }

  // ---------------------------------------------------------------- the length field

  /** The number that digits to the base 256 spell, the lowest first. */
  function LittleEndian(d: seq<nat>): nat
  {
    if d == [] then 0 else d[0] + 256 * LittleEndian(d[1..])
  }

  lemma Regrouped(s: nat, t: nat, p: nat)
    requires t < 256
    ensures (256 * s + t) * p == s * (256 * p) + t * p && t * p <= 255 * p
  {
  }

  lemma DivTwice(n: nat, p: nat)
    requires p > 0
    ensures n / (256 * p) == (n / p) / 256
  {
    var q, r := n / p, n % p;
    assert n == q * p + r;
    Regrouped(q / 256, q % 256, p);
    DivIs(n, 256 * p, q / 256, (q % 256) * p + r);
  }

  lemma Pow256Is()
    ensures Pow256(8) == TWO64
  {
    assert Pow256(4) == 0x1_0000_0000;
    assert Pow256(8) == 0x1_0000_0000 * Pow256(4);
  }

  /** From digit `i` on they spell what is left of the number. */
  lemma {:induction false} LengthFrom(n: nat, d: seq<nat>, i: nat)
    requires i <= |d| == 8 && n < TWO64 && forall k :: 0 <= k < 8 ==> d[k] == (n / Pow256(k)) % 256
    ensures LittleEndian(d[i..]) == n / Pow256(i)
    decreases 8 - i
  {
    if i == 8 {
      Pow256Is();
      DivIs(n, Pow256(8), 0, n);
    } else {
      assert d[i..][0] == d[i] && d[i..][1..] == d[i + 1..];
      LengthFrom(n, d, i + 1);
      DivTwice(n, Pow256(i));
    }
  }

  /** Section 3.2: the length field spells the length in bits modulo 2^64, low-order byte first. */
  lemma LengthValue(bits: nat) returns (d: seq<nat>)
    ensures |d| == 8 && forall k :: 0 <= k < 8 ==> d[k] < 256 && LengthBytes(bits)[k] == d[k] as bv8
    ensures LittleEndian(d) == bits % TWO64
  {
    var n := bits % TWO64;
    d := seq(8, k requires 0 <= k < 8 => (n / Pow256(k)) % 256);
    assert d[0..] == d;
    LengthFrom(n, d, 0);
  }
}

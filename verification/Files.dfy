/**
  A file is a sequence of bytes; writing past its end fills the gap with zero bytes.  A disk adds the outcomes of the
  system calls made on it: interrupted, failed, short, or (for the integrity theorems) silently altered.  Writes and
  reads each have their own outcomes.
*/
module Files {
  import opened Base

  function ByteAfterWrite(f: seq<bv8>, off: nat, data: seq<bv8>, i: nat): bv8
  {
    if off <= i < off + |data| then data[i - off] else if i < |f| then f[i] else 0
  }

  /** The file after `data` is written at `off`; writing nothing changes nothing. */
  function WriteAt(f: seq<bv8>, off: nat, data: seq<bv8>): (g: seq<bv8>)
    ensures data == [] ==> g == f
    ensures data != [] ==> |g| == Max(|f|, off + |data|)
  {
    if data == [] then f
    else seq(Max(|f|, off + |data|), i requires i >= 0 => ByteAfterWrite(f, off, data, i))
  }

  /** The bytes of `f` from `off`, at most `n` of them. */
  function Slice(f: seq<bv8>, off: nat, n: nat): (s: seq<bv8>)
    ensures |s| == if off >= |f| then 0 else Min(n, |f| - off)
  {
    if off >= |f| then [] else f[off..off + Min(n, |f| - off)]
  }

  function Zeros(n: nat): seq<bv8> { seq(n, _ => 0) }

  /** A write keeps what is before and after it, and fills a gap before it with zeros. */
  lemma WriteIsSplice(f: seq<bv8>, off: nat, data: seq<bv8>)
    requires data != []
    ensures WriteAt(f, off, data) ==
            if off <= |f| then f[..off] + data + f[Min(|f|, off + |data|)..]
            else f + Zeros(off - |f|) + data
  {
  }

  /** Writing in two adjacent pieces is writing once. */
  lemma WriteAtAppend(f: seq<bv8>, off: nat, a: seq<bv8>, b: seq<bv8>)
    ensures WriteAt(WriteAt(f, off, a), off + |a|, b) == WriteAt(f, off, a + b)
  {
  }

  /** Reading back what was just written. */
  lemma SliceOfWrite(f: seq<bv8>, off: nat, data: seq<bv8>)
    ensures Slice(WriteAt(f, off, data), off, |data|) == data
  {
  }

  /** More of a slice, read where the part already read ends. */
  lemma SliceGrows(f: seq<bv8>, off: nat, len: nat, data: seq<bv8>, more: seq<bv8>)
    requires data <= Slice(f, off, len) && more <= Slice(f, off + |data|, len - |data|)
    ensures data + more <= Slice(f, off, len)
    ensures |Slice(f, off, len)| == |data| + |Slice(f, off + |data|, len - |data|)|
  {
  }

  lemma SliceAppend(f: seq<bv8>, off: nat, m: nat, n: nat)
    requires |Slice(f, off, m)| == m
    ensures Slice(f, off, m + n) == Slice(f, off, m) + Slice(f, off + m, n)
  {
  }

  /** `g` is `f`, perhaps longer, with nothing changed before `p`. */
  ghost predicate SameBelow(f: seq<bv8>, g: seq<bv8>, p: nat)
  {
    |f| <= |g| && forall i :: 0 <= i < p && i < |f| ==> g[i] == f[i]
  }

  lemma WriteKeepsBelow(f: seq<bv8>, off: nat, data: seq<bv8>)
    ensures SameBelow(f, WriteAt(f, off, data), off)
  {
  }

  lemma SliceStays(f: seq<bv8>, g: seq<bv8>, p: nat, off: nat, n: nat)
    requires SameBelow(f, g, p) && off + n <= p && |Slice(f, off, n)| == n
    ensures Slice(g, off, n) == Slice(f, off, n)
  {
  }

  // ---------------------------------------------------------------- system calls

  /** What the next call on an open file does. */
  datatype Outcome =
    | Interrupted
    | Failed
    | Moves(n: nat)              // transfers at most `n` bytes
    | Alters(bytes: seq<bv8>)    // transfers these bytes instead of the right ones

  /**
    The outcomes of the calls to come.  When they are used up, calls transfer everything they are asked to: every run
    that ends is a run of some finite script.
  */
  type Script = seq<Outcome>

  function Next(script: Script, all: nat): (o: Outcome)
    ensures o.Interrupted? || o.Failed? ==> script != []
  {
    if script == [] then Moves(all) else script[0]
  }

  function Rest(script: Script): Script { if script == [] then [] else script[1..] }

  datatype SysResult = Eintr | Error | Count(n: nat)

  /** No call alters bytes. */
  ghost predicate Honest(script: Script)
  {
    forall i :: 0 <= i < |script| ==> !script[i].Alters?
  }

  /** Every call makes progress or is merely interrupted. */
  ghost predicate Reliable(script: Script)
  {
    forall i :: 0 <= i < |script| ==> script[i].Interrupted? || (script[i].Moves? && script[i].n > 0)
  }

  /**
    What a call that transfers something transfers, when `want` would be right and at most `limit` bytes are asked
    for.
  */
  function Carried(o: Outcome, want: seq<bv8>, limit: nat): (c: seq<bv8>)
    requires |want| <= limit
    ensures |c| <= limit && (!o.Alters? ==> c <= want)
  {
    match o
    case Moves(n) => want[..Min(n, |want|)]
    case Alters(b) => b[..Min(|b|, limit)]
    case _ => []
  }

  /** A way to write into a file; the runs below are for `WriteAt`, and hardly need to know more about it. */
  type Store = (seq<bv8>, nat, seq<bv8>) -> seq<bv8>

  ghost predicate Appends(put: Store)
  {
    forall f, off: nat, a, b :: put(put(f, off, a), off + |a|, b) == put(f, off, a + b)
  }

  /** Writing nothing changes nothing. */
  ghost predicate Idles(put: Store)
  {
    forall f, off: nat :: put(f, off, []) == f
  }

  ghost predicate KeepsBelow(put: Store)
  {
    forall f, off: nat, a :: SameBelow(f, put(f, off, a), off)
  }

  lemma WriteAtStores()
    ensures Appends(WriteAt) && Idles(WriteAt) && KeepsBelow(WriteAt)
  {
    forall f, off: nat, a, b
      ensures WriteAt(WriteAt(f, off, a), off + |a|, b) == WriteAt(f, off, a + b)
    {
      WriteAtAppend(f, off, a, b);
    }
    forall f, off: nat, a
      ensures SameBelow(f, WriteAt(f, off, a), off)
    {
      WriteKeepsBelow(f, off, a);
    }
  }

  /** The end of pwrite_full: the file, the outcomes left, the bytes transferred, and whether a call failed. */
  datatype Put = Put(file: seq<bv8>, rest: Script, count: nat, failed: bool)

  /** pwrite_full, when `total` bytes of the buffer have been transferred */
  function PwriteRun(put: Store, f: seq<bv8>, off: nat, buffer: seq<bv8>, total: nat, script: Script): (r: Put)
    requires total <= |buffer|
    ensures total <= r.count <= |buffer|
    decreases |script|, |buffer| - total
  {
    if total == |buffer| then Put(f, script, total, false)
    else
      var o, left := Next(script, |buffer| - total), |buffer| - total;
      if o.Interrupted? then PwriteRun(put, f, off, buffer, total, Rest(script))
      else if o.Failed? then Put(f, Rest(script), total, true)
      else
        var c := Carried(o, buffer[total..], left);
        if c == [] then Put(f, Rest(script), total, false)
        else PwriteRun(put, put(f, off + total, c), off, buffer, total + |c|, Rest(script))
  }

  datatype Got = Got(data: seq<bv8>, rest: Script, failed: bool)

  /** pread_full, when `got` has been read */
  function PreadRun(f: seq<bv8>, off: nat, len: nat, got: seq<bv8>, script: Script): (r: Got)
    requires |got| <= len
    ensures |r.data| <= len
    decreases |script|, len - |got|
  {
    if |got| == len then Got(got, script, false)
    else
      var o, left := Next(script, len - |got|), len - |got|;
      if o.Interrupted? then PreadRun(f, off, len, got, Rest(script))
      else if o.Failed? then Got(got, Rest(script), true)
      else
        var c := Carried(o, Slice(f, off + |got|, left), left);
        if c == [] then Got(got, Rest(script), false)
        else PreadRun(f, off, len, got + c, Rest(script))
  }

  /** The result of one pread: interrupted, failed, or the bytes transferred. */
  ghost predicate PreadGives(f: seq<bv8>, off: nat, len: nat, script: Script, r: SysResult, data: seq<bv8>)
  {
    var o := Next(script, len);
    && r == (if o.Interrupted? then Eintr else if o.Failed? then Error else Count(|data|))
    && data == if r.Count? then Carried(o, Slice(f, off, len), len) else []
  }

  /** pread_full as a function of what has been read and of the outcomes to come. */
  type PreadRunner = (seq<bv8>, Script) -> Got

  ghost predicate IsPread(run: PreadRunner, f: seq<bv8>, off: nat, len: nat)
  {
    forall got, script {:trigger PreadRun(f, off, len, got, script)} ::
      |got| <= len ==> run(got, script) == PreadRun(f, off, len, got, script)
  }

  /** One more turn of its loop. */
  lemma PreadAgain(run: PreadRunner, f: seq<bv8>, off: nat, len: nat, got: seq<bv8>, script: Script, r: SysResult,
                   more: seq<bv8>)
    requires IsPread(run, f, off, len) && |got| < len
    requires PreadGives(f, off + |got|, len - |got|, script, r, more)
    ensures r.Eintr? ==> script != [] && run(got, script) == run(got, Rest(script))
    ensures r.Error? || (r.Count? && r.n == 0) ==> run(got, script) == Got(got, Rest(script), r.Error?)
    ensures r.Count? && r.n > 0 ==>
              0 < |more| <= len - |got| && run(got, script) == run(got + more, Rest(script))
  {
    assert run(got, script) == PreadRun(f, off, len, got, script);
    assert run(got, Rest(script)) == PreadRun(f, off, len, got, Rest(script));
    if r.Count? {
      assert run(got + more, Rest(script)) == PreadRun(f, off, len, got + more, Rest(script));
    }
  }

  lemma PreadDone(run: PreadRunner, f: seq<bv8>, off: nat, len: nat, got: seq<bv8>, script: Script)
    requires IsPread(run, f, off, len) && |got| == len
    ensures run(got, script) == Got(got, script, false)
  {
    assert run(got, script) == PreadRun(f, off, len, got, script);
  }

  /** The result of one pwrite, and the file and the outcomes after it. */
  ghost predicate PwriteGives(f: seq<bv8>, off: nat, data: seq<bv8>, script: Script, r: SysResult, g: seq<bv8>)
  {
    var o, c := Next(script, |data|), Carried(Next(script, |data|), data, |data|);
    && r == (if o.Interrupted? then Eintr else if o.Failed? then Error else Count(|c|))
    && g == if r.Count? then WriteAt(f, off, c) else f
  }

  /** pwrite_full as a function of the file, of how much has been written and of the outcomes to come. */
  type PwriteRunner = (seq<bv8>, nat, Script) -> Put

  ghost predicate IsPwrite(run: PwriteRunner, off: nat, buffer: seq<bv8>)
  {
    forall f, total: nat, script {:trigger PwriteRun(WriteAt, f, off, buffer, total, script)} ::
      total <= |buffer| ==> run(f, total, script) == PwriteRun(WriteAt, f, off, buffer, total, script)
  }

  /** One more turn of its loop. */
  lemma PwriteAgain(run: PwriteRunner, f: seq<bv8>, off: nat, buffer: seq<bv8>, total: nat, script: Script,
                    data: seq<bv8>, r: SysResult, g: seq<bv8>)
    requires IsPwrite(run, off, buffer) && total < |buffer| && data == buffer[total..]
    requires PwriteGives(f, off + total, data, script, r, g)
    ensures r.Eintr? ==> script != [] && g == f && run(f, total, script) == run(f, total, Rest(script))
    ensures r.Error? || (r.Count? && r.n == 0) ==> run(f, total, script) == Put(g, Rest(script), total, r.Error?)
    ensures r.Count? && r.n > 0 ==>
              total + r.n <= |buffer| && run(f, total, script) == run(g, total + r.n, Rest(script))
  {
    PwriteTurn(f, off, buffer, total, script, data, r, g);
    assert run(f, total, script) == PwriteRun(WriteAt, f, off, buffer, total, script);
    if r.Eintr? {
      assert run(f, total, Rest(script)) == PwriteRun(WriteAt, f, off, buffer, total, Rest(script));
    } else if r.Count? && r.n > 0 {
      assert run(g, total + r.n, Rest(script)) == PwriteRun(WriteAt, g, off, buffer, total + r.n, Rest(script));
    }
  }

  lemma PwriteTurn(f: seq<bv8>, off: nat, buffer: seq<bv8>, total: nat, script: Script, data: seq<bv8>, r: SysResult,
                   g: seq<bv8>)
    requires total < |buffer| && data == buffer[total..] && PwriteGives(f, off + total, data, script, r, g)
    ensures r.Eintr? ==> script != [] && g == f
    ensures r.Count? ==> total + r.n <= |buffer|
    ensures PwriteRun(WriteAt, f, off, buffer, total, script) ==
            if r.Eintr? then PwriteRun(WriteAt, f, off, buffer, total, Rest(script))
            else if r.Error? || r.n == 0 then Put(g, Rest(script), total, r.Error?)
            else PwriteRun(WriteAt, g, off, buffer, total + r.n, Rest(script))
  {
  }

  lemma PwriteDone(run: PwriteRunner, f: seq<bv8>, off: nat, buffer: seq<bv8>, script: Script)
    requires IsPwrite(run, off, buffer)
    ensures run(f, |buffer|, script) == Put(f, script, |buffer|, false)
  {
    assert run(f, |buffer|, script) == PwriteRun(WriteAt, f, off, buffer, |buffer|, script);
  }

  // ---------------------------------------------------------------- what the runs do

  lemma RestHonest(script: Script)
    requires Honest(script)
    ensures Honest(Rest(script))
  {
  }

  lemma RestReliable(script: Script)
    requires Reliable(script)
    ensures Reliable(Rest(script)) && Honest(script)
  {
  }

  lemma NextReliable(script: Script, all: nat)
    requires Reliable(script) && all > 0
    ensures var o := Next(script, all); o.Interrupted? || (o.Moves? && o.n > 0)
  {
  }

  lemma CarriedSome(o: Outcome, want: seq<bv8>)
    requires o.Moves? && o.n > 0 && want != []
    ensures 0 < |Carried(o, want, |want|)| <= |want|
  {
  }

  lemma Joined(buffer: seq<bv8>, total: nat, c: seq<bv8>, end: nat)
    requires total + |c| <= end <= |buffer| && c <= buffer[total..]
    ensures c + buffer[total + |c|..end] == buffer[total..end]
  {
    assert c == buffer[total..][..|c|];
  }

  /** Without alterations pwrite_full writes a prefix of the buffer. */
  lemma {:induction false} PwriteHonest(put: Store, f: seq<bv8>, off: nat, buffer: seq<bv8>, total: nat, script: Script)
    requires Appends(put) && Idles(put) && total <= |buffer| && Honest(script)
    ensures var r := PwriteRun(put, f, off, buffer, total, script);
      r.file == put(f, off + total, buffer[total..r.count]) && Honest(r.rest)
    decreases |script|, |buffer| - total
  {
    if total < |buffer| {
      var o, left := Next(script, |buffer| - total), |buffer| - total;
      RestHonest(script);
      if o.Interrupted? {
        PwriteHonest(put, f, off, buffer, total, Rest(script));
      } else if !o.Failed? {
        var c := Carried(o, buffer[total..], left);
        if c != [] {
          PwriteHonest(put, put(f, off + total, c), off, buffer, total + |c|, Rest(script));
          Joined(buffer, total, c, PwriteRun(put, f, off, buffer, total, script).count);
        }
      }
    }
  }

  lemma BelowTwice(f: seq<bv8>, g: seq<bv8>, h: seq<bv8>, p: nat, q: nat)
    requires SameBelow(f, g, p) && SameBelow(g, h, q) && p <= q
    ensures SameBelow(f, h, p)
  {
  }

  /** Whatever the calls transfer, nothing before the place they were asked to write at changes. */
  lemma {:induction false} PwriteKeepsBelow(put: Store, f: seq<bv8>, off: nat, buffer: seq<bv8>, total: nat,
                                            script: Script)
    requires KeepsBelow(put) && total <= |buffer|
    ensures SameBelow(f, PwriteRun(put, f, off, buffer, total, script).file, off + total)
    decreases |script|, |buffer| - total
  {
    if total < |buffer| {
      var o, left := Next(script, |buffer| - total), |buffer| - total;
      if o.Interrupted? {
        PwriteKeepsBelow(put, f, off, buffer, total, Rest(script));
      } else if !o.Failed? {
        var c := Carried(o, buffer[total..], left);
        if c != [] {
          var g := put(f, off + total, c);
          PwriteKeepsBelow(put, g, off, buffer, total + |c|, Rest(script));
          BelowTwice(f, g, PwriteRun(put, f, off, buffer, total, script).file, off + total, off + total + |c|);
        }
      }
    }
  }

  /** On a reliable disk all of the buffer is written. */
  lemma {:induction false} PwriteReliable(put: Store, f: seq<bv8>, off: nat, buffer: seq<bv8>, total: nat,
                                          script: Script)
    requires total <= |buffer| && Reliable(script)
    ensures var r := PwriteRun(put, f, off, buffer, total, script); !r.failed && r.count == |buffer| && Reliable(r.rest)
    decreases |script|, |buffer| - total
  {
    if total < |buffer| {
      var o, left := Next(script, |buffer| - total), |buffer| - total;
      RestReliable(script);
      NextReliable(script, left);
      if o.Interrupted? {
        PwriteReliable(put, f, off, buffer, total, Rest(script));
      } else {
        var c := Carried(o, buffer[total..], left);
        CarriedSome(o, buffer[total..]);
        PwriteReliable(put, put(f, off + total, c), off, buffer, total + |c|, Rest(script));
      }
    }
  }

  /** Without alterations pread_full reads a prefix of the slice. */
  lemma {:induction false} PreadHonest(f: seq<bv8>, off: nat, len: nat, got: seq<bv8>, script: Script)
    requires |got| <= len && got <= Slice(f, off, len) && Honest(script)
    ensures var r := PreadRun(f, off, len, got, script); r.data <= Slice(f, off, len) && Honest(r.rest)
    decreases |script|, len - |got|
  {
    if |got| < len {
      var o, left := Next(script, len - |got|), len - |got|;
      RestHonest(script);
      if o.Interrupted? {
        PreadHonest(f, off, len, got, Rest(script));
      } else if !o.Failed? {
        var c := Carried(o, Slice(f, off + |got|, left), left);
        if c != [] {
          SliceGrows(f, off, len, got, c);
          PreadHonest(f, off, len, got + c, Rest(script));
        }
      }
    }
  }

  /** On a reliable disk it reads all of the slice. */
  lemma {:induction false} PreadReliable(f: seq<bv8>, off: nat, len: nat, got: seq<bv8>, script: Script)
    requires |got| <= len && got <= Slice(f, off, len) && Reliable(script)
    ensures var r := PreadRun(f, off, len, got, script); !r.failed && r.data == Slice(f, off, len) && Reliable(r.rest)
    decreases |script|, len - |got|
  {
    if |got| < len {
      var o, left := Next(script, len - |got|), len - |got|;
      RestReliable(script);
      if o.Interrupted? {
        PreadReliable(f, off, len, got, Rest(script));
      } else {
        var c := Carried(o, Slice(f, off + |got|, left), left);
        SliceGrows(f, off, len, got, c);
        if c != [] {
          PreadReliable(f, off, len, got + c, Rest(script));
        }
      }
    }
  }

  /** What is left of a script after some of its outcomes. */
  ghost predicate IsSuffix(rest: Script, script: Script)
  {
    |rest| <= |script| && rest == script[|script| - |rest|..]
  }

  lemma SuffixRefl(script: Script)
    ensures IsSuffix(script, script) && IsSuffix(Rest(script), script)
  {
  }

  lemma SuffixTrans(a: Script, b: Script, c: Script)
    requires IsSuffix(a, b) && IsSuffix(b, c)
    ensures IsSuffix(a, c)
  {
    assert a == c[|c| - |b|..][|b| - |a|..];
  }

  // ---------------------------------------------------------------- how the runs end

  /** A call that transfers nothing though something could be transferred. */
  predicate Stalls(o: Outcome) { o == Moves(0) || o == Alters([]) }

  /** The last outcome that was used up. */
  function LastUsed(script: Script, rest: Script): Option<Outcome>
  {
    if |rest| < |script| then Some(script[|script| - |rest| - 1]) else None
  }

  lemma LastUsedLater(script: Script, rest: Script)
    requires IsSuffix(rest, Rest(script)) && LastUsed(Rest(script), rest).Some?
    ensures LastUsed(script, rest) == LastUsed(Rest(script), rest)
  {
  }

  /** The run ended with everything written, with a failed call, or short because the last call wrote nothing. */
  ghost predicate WriteEnded(len: nat, script: Script, r: Put)
  {
    var last := LastUsed(script, r.rest);
    && IsSuffix(r.rest, script)
    && (r.failed ==> r.count < len && last == Some(Failed))
    && (!r.failed && r.count < len ==> last.Some? && Stalls(last.value))
  }

  lemma WriteEndsLater(len: nat, script: Script, r: Put)
    requires WriteEnded(len, Rest(script), r)
    ensures WriteEnded(len, script, r)
  {
    SuffixRefl(script);
    SuffixTrans(r.rest, Rest(script), script);
    if LastUsed(Rest(script), r.rest).Some? {
      LastUsedLater(script, r.rest);
    }
  }

  /** The last call ends the run: it failed, or it transferred nothing. */
  lemma LastCall(script: Script, o: Outcome, left: nat)
    requires o == Next(script, left) && left > 0 && (o.Failed? || Stalls(o))
    ensures IsSuffix(Rest(script), script) && LastUsed(script, Rest(script)) == Some(o)
  {
  }

  /** How pwrite_full ends, whatever the calls do. */
  lemma {:induction false} PwriteEnds(put: Store, f: seq<bv8>, off: nat, buffer: seq<bv8>, total: nat, script: Script)
    requires total <= |buffer|
    ensures WriteEnded(|buffer|, script, PwriteRun(put, f, off, buffer, total, script))
    decreases |script|, |buffer| - total
  {
    SuffixRefl(script);
    if total < |buffer| {
      var o, left := Next(script, |buffer| - total), |buffer| - total;
      var c := Carried(o, buffer[total..], left);
      var g := if o.Interrupted? then f else put(f, off + total, c);
      if o.Interrupted? || (!o.Failed? && c != []) {
        PwriteEnds(put, g, off, buffer, total + |c|, Rest(script));
        WriteEndsLater(|buffer|, script, PwriteRun(put, g, off, buffer, total + |c|, Rest(script)));
      } else {
        LastCall(script, o, left);
      }
    }
  }

  /** The run ended with everything read, with a failed call, at the end of the file, or because a call read nothing. */
  ghost predicate ReadEnded(f: seq<bv8>, off: nat, len: nat, script: Script, r: Got)
  {
    var last, k := LastUsed(script, r.rest), |r.data|;
    && IsSuffix(r.rest, script)
    && (r.failed ==> k < len && last == Some(Failed))
    && (!r.failed && k < len ==> Slice(f, off + k, len - k) == [] || (last.Some? && Stalls(last.value)))
  }

  lemma ReadEndsLater(f: seq<bv8>, off: nat, len: nat, script: Script, r: Got)
    requires ReadEnded(f, off, len, Rest(script), r)
    ensures ReadEnded(f, off, len, script, r)
  {
    SuffixRefl(script);
    SuffixTrans(r.rest, Rest(script), script);
    if LastUsed(Rest(script), r.rest).Some? {
      LastUsedLater(script, r.rest);
    }
  }

  lemma ReadEndsHere(f: seq<bv8>, off: nat, len: nat, got: seq<bv8>, script: Script, o: Outcome)
    requires |got| < len && o == Next(script, len - |got|) && !o.Interrupted?
    requires !o.Failed? ==> Carried(o, Slice(f, off + |got|, len - |got|), len - |got|) == []
    ensures ReadEnded(f, off, len, script, Got(got, Rest(script), o.Failed?))
  {
    SuffixRefl(script);
    if o.Failed? || Stalls(o) {
      LastCall(script, o, len - |got|);
    }
  }

  /** How pread_full ends, whatever the calls do. */
  lemma {:induction false} PreadEnds(f: seq<bv8>, off: nat, len: nat, got: seq<bv8>, script: Script)
    requires |got| <= len
    ensures ReadEnded(f, off, len, script, PreadRun(f, off, len, got, script))
    decreases |script|, len - |got|
  {
    if |got| == len {
      SuffixRefl(script);
    } else {
      var o, left := Next(script, len - |got|), len - |got|;
      var c := Carried(o, Slice(f, off + |got|, left), left);
      if o.Interrupted? {
        PreadEnds(f, off, len, got, Rest(script));
        ReadEndsLater(f, off, len, script, PreadRun(f, off, len, got, Rest(script)));
      } else if !o.Failed? && c != [] {
        PreadEnds(f, off, len, got + c, Rest(script));
        ReadEndsLater(f, off, len, script, PreadRun(f, off, len, got + c, Rest(script)));
      } else {
        ReadEndsHere(f, off, len, got, script, o);
      }
    }
  }

  // ---------------------------------------------------------------- the disk

  /** A file and the outcomes of the calls to come. */
  datatype Drive = Drive(bytes: seq<bv8>, puts: Script, gets: Script)

  class Disk {
    var bytes: seq<bv8>
    var puts: Script
    var gets: Script

    constructor (bytes: seq<bv8>, puts: Script, gets: Script)
      ensures Now() == Drive(bytes, puts, gets)
    {
      this.bytes, this.puts, this.gets := bytes, puts, gets;
    }

    function Now(): Drive
      reads this
    {
      Drive(bytes, puts, gets)
    }

    /** pwrite */
    method Pwrite(data: seq<bv8>, off: nat) returns (r: SysResult)
      modifies this
      ensures puts == Rest(old(puts)) && gets == old(gets) && PwriteGives(old(bytes), off, data, old(puts), r, bytes)
    {
      var o := Next(puts, |data|);
      puts := Rest(puts);
      if o.Interrupted? { return Eintr; }
      if o.Failed? { return Error; }
      var c := Carried(o, data, |data|);
      bytes := WriteAt(bytes, off, c);
      r := Count(|c|);
    }

    /** pread */
    method Pread(len: nat, off: nat) returns (r: SysResult, data: seq<bv8>)
      modifies this`gets
      ensures gets == Rest(old(gets)) && PreadGives(bytes, off, len, old(gets), r, data)
    {
      var o := Next(gets, len);
      gets := Rest(gets);
      if o.Interrupted? { return Eintr, []; }
      if o.Failed? { return Error, []; }
      data := Carried(o, Slice(bytes, off, len), len);
      r := Count(|data|);
    }

    /** pwrite_full: -1 on error, otherwise the bytes written, short only if a call wrote nothing. */
    method PwriteFull(buffer: seq<bv8>, off: nat) returns (r: int)
      modifies this
      ensures var p := PwriteRun(WriteAt, old(bytes), off, buffer, 0, old(puts));
        Now() == Drive(p.file, p.rest, old(gets)) && r == if p.failed then -1 else p.count
    {
      ghost var run := (f, total: nat, script) =>
        if total <= |buffer| then PwriteRun(WriteAt, f, off, buffer, total, script) else Put([], [], 0, true);
      r := PwriteLoop(buffer, off, run);
    }

    method PwriteLoop(buffer: seq<bv8>, off: nat, ghost run: PwriteRunner) returns (r: int)
      requires IsPwrite(run, off, buffer)
      modifies this
      ensures var p := run(old(bytes), 0, old(puts));
        Now() == Drive(p.file, p.rest, old(gets)) && r == if p.failed then -1 else p.count
    {
      var total: nat := 0;
      ghost var goal := run(bytes, 0, puts);
      while total < |buffer|
        invariant total <= |buffer| && gets == old(gets) && run(bytes, total, puts) == goal
        decreases |puts|, |buffer| - total
      {
        ghost var f, script := bytes, puts;
        var w := Pwrite(buffer[total..], off + total);
        PwriteAgain(run, f, off, buffer, total, script, buffer[total..], w, bytes);
        match w
        case Eintr =>
        case Error => return -1;
        case Count(n) =>
          if n == 0 { return total; }
          total := total + n;
      }
      PwriteDone(run, bytes, off, buffer, puts);
      r := total;
    }

    /** pread_full: not ok on error, otherwise the bytes read, short only if a call read nothing. */
    method PreadFull(len: nat, off: nat) returns (ok: bool, data: seq<bv8>)
      modifies this`gets
      ensures var g := PreadRun(bytes, off, len, [], old(gets)); gets == g.rest && ok == !g.failed && data == g.data
    {
      ghost var f := bytes;
      ghost var run := (got, script) => if |got| <= len then PreadRun(f, off, len, got, script) else Got([], [], true);
      ok, data := PreadLoop(len, off, run);
    }

    method PreadLoop(len: nat, off: nat, ghost run: PreadRunner) returns (ok: bool, data: seq<bv8>)
      requires IsPread(run, bytes, off, len)
      modifies this`gets
      ensures var g := run([], old(gets)); gets == g.rest && ok == !g.failed && data == g.data
    {
      data := [];
      ghost var goal := run([], gets);
      while |data| < len
        invariant |data| <= len && run(data, gets) == goal
        decreases |gets|, len - |data|
      {
        ghost var script := gets;
        var r, more := Pread(len - |data|, off + |data|);
        PreadAgain(run, bytes, off, len, data, script, r, more);
        if r.Error? { return false, data; }
        if r.Count? {
          if r.n == 0 { return true, data; }
          data := data + more;
        }
      }
      PreadDone(run, bytes, off, len, data, gets);
      ok := true;
    }
  }
}

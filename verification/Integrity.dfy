/**
  End-to-end integrity of chunked writes and reads under the sampled MD5, when bodies and answers may be altered in
  transit and bytes on disk: what an accepted transfer says about the bytes, and exactly which ones are accepted.
*/
module Integrity {
  import opened Base
  import opened Files
  import opened SparseMd5
  import opened Transfer

  const SPARSE: Scheme := Scheme(SampledDigest, IsValidMd5Hex)

  /** The format check never refuses a digest the other side computed. */
  lemma SparseIsSound()
    ensures Sound(SPARSE)
  {
    forall data, off {:trigger SPARSE.sum(data, off)}
      ensures SPARSE.valid(SPARSE.sum(data, off))
    {
      SampledDigestIsValid(data, off);
    }
  }

  /** No chunk pair has two different samples with the same hash. */
  ghost predicate NoChunkCollides(hash: seq<bv8> -> string, stored: seq<bv8>, sent: seq<bv8>, offset: nat)
    requires |stored| == |sent|
    decreases |sent|
  {
    sent != [] ==>
      var n := Min(|sent|, CHUNK);
      var p, q := Sample(stored[..n], offset), Sample(sent[..n], offset);
      (hash(p) == hash(q) ==> p == q) && NoChunkCollides(hash, stored[n..], sent[n..], offset + n)
  }

  lemma AgreementSplits(x: seq<bv8>, y: seq<bv8>, offset: nat, n: nat)
    requires |x| == |y| && n <= |x|
    ensures AgreeAtSampled(x, y, offset) <==>
              AgreeAtSampled(x[..n], y[..n], offset) && AgreeAtSampled(x[n..], y[n..], offset + n)
  {
    if AgreeAtSampled(x[..n], y[..n], offset) && AgreeAtSampled(x[n..], y[n..], offset + n) {
      forall i | 0 <= i < |x| && (offset + i) % 10 == 0
        ensures x[i] == y[i]
      {
        if i < n {
          assert x[..n][i] == y[..n][i];
        } else {
          assert x[n..][i - n] == y[n..][i - n];
        }
      }
    }
  }

  lemma HashBindsChunk(hash: seq<bv8> -> string, scheme: Scheme, a: seq<bv8>, b: seq<bv8>, offset: nat)
    requires |a| == |b|
    requires scheme.sum(a, offset) == hash(Sample(a, offset)) && scheme.sum(b, offset) == hash(Sample(b, offset))
    requires hash(Sample(a, offset)) == hash(Sample(b, offset)) ==> Sample(a, offset) == Sample(b, offset)
    ensures scheme.sum(a, offset) == scheme.sum(b, offset) <==> AgreeAtSampled(a, b, offset)
  {
    SampleDetermines(a, b, offset);
  }

  /** For any hash of the sample. */
  lemma {:induction false} HashBindsSampledBytes(hash: seq<bv8> -> string, scheme: Scheme, stored: seq<bv8>,
                                                 sent: seq<bv8>, offset: nat)
    requires |stored| == |sent| && NoChunkCollides(hash, stored, sent, offset)
    requires forall data, off {:trigger scheme.sum(data, off)} :: scheme.sum(data, off) == hash(Sample(data, off))
    ensures ChunksAgree(scheme, stored, sent, offset) <==> AgreeAtSampled(stored, sent, offset)
    decreases |sent|
  {
    if sent != [] {
      var n := Min(|sent|, CHUNK);
      HashBindsChunk(hash, scheme, stored[..n], sent[..n], offset);
      AgreementSplits(stored, sent, offset, n);
      HashBindsSampledBytes(hash, scheme, stored[n..], sent[n..], offset + n);
    }
  }

  /**
    Barring MD5 collisions, every chunk checksum agrees exactly when the two buffers agree at every absolute
    offset divisible by ten: a change elsewhere that keeps the length is accepted, and no change at a sampled
    offset is.
  */
  lemma ChecksumsBindSampledBytes(stored: seq<bv8>, sent: seq<bv8>, offset: nat)
    requires |stored| == |sent| && NoChunkCollides(DigestText, stored, sent, offset)
    ensures ChunksAgree(SPARSE, stored, sent, offset) <==> AgreeAtSampled(stored, sent, offset)
  {
    HashBindsSampledBytes(DigestText, SPARSE, stored, sent, offset);
  }

  /**
    An accepted write over a network that may alter bodies, to a disk that may store other bytes but reads honestly:
    the file then has, barring collisions, the buffer's bytes at every sampled offset of the range.  And when the disk
    is reliable, a write is accepted exactly if every body has its chunk's length and sampled bytes; the file is then
    the one that writing those bodies leaves.
  */
  method CheckedWrite(disk: Disk, net: Net, offset: nat, buffer: seq<bv8>) returns (ok: bool)
    modifies disk
    ensures ok && Honest(old(disk.gets)) ==>
              var stored := Slice(disk.bytes, offset, |buffer|);
              && |stored| == |buffer|
              && (NoChunkCollides(DigestText, stored, buffer, offset) ==> AgreeAtSampled(stored, buffer, offset))
    ensures Reliable(old(disk.puts)) && Reliable(old(disk.gets)) && OpenNet(net)
            && (LengthsMatch(net, buffer) ==>
                  && |Bodies(net, buffer)| == |buffer|
                  && NoChunkCollides(DigestText, Bodies(net, buffer), buffer, offset)) ==>
              && (ok <==> LengthsMatch(net, buffer) && AgreeAtSampled(Bodies(net, buffer), buffer, offset))
              && (ok ==> disk.bytes == WriteAt(old(disk.bytes), offset, Bodies(net, buffer)))
  {
    SparseIsSound();
    ghost var d := disk.Now();
    var n;
    ok, n := WriteFile(SPARSE, disk, net, offset, buffer);
    if ok && Honest(d.gets) {
      AcceptedWriteIsStored(SPARSE, d, net, offset, buffer);
      StoredAgrees(Slice(disk.bytes, offset, |buffer|), buffer, offset);
    }
    if Reliable(d.puts) && Reliable(d.gets) && OpenNet(net) {
      WriteSucceedsExactly(SPARSE, d, net, offset, buffer);
      MatchIsAgreement(SPARSE, net, offset, buffer);
      if LengthsMatch(net, buffer) && NoChunkCollides(DigestText, Bodies(net, buffer), buffer, offset) {
        ChecksumsBindSampledBytes(Bodies(net, buffer), buffer, offset);
      }
    }
  }

  lemma StoredAgrees(stored: seq<bv8>, buffer: seq<bv8>, offset: nat)
    requires ChunksAgree(SPARSE, stored, buffer, offset)
    ensures |stored| == |buffer|
    ensures NoChunkCollides(DigestText, stored, buffer, offset) ==> AgreeAtSampled(stored, buffer, offset)
  {
    if NoChunkCollides(DigestText, stored, buffer, offset) {
      ChecksumsBindSampledBytes(stored, buffer, offset);
    }
  }

  // ---------------------------------------------------------------- reading

  /** A sampled offset is in both windows, with the same byte, or in neither. */
  predicate SameAt(x: seq<bv8>, y: seq<bv8>, base: nat, p: nat)
  {
    (base + p) % 10 == 0 ==> if p < |x| then p < |y| && x[p] == y[p] else p >= |y|
  }

  /** Windows of any two lengths have the same bytes at the sampled offsets. */
  ghost predicate SameSampled(x: seq<bv8>, y: seq<bv8>, base: nat)
  {
    forall p: nat :: SameAt(x, y, base, p)
  }

  /** That is when their samples are the same, whatever their lengths. */
  lemma {:induction false} SampleSame(x: seq<bv8>, y: seq<bv8>, base: nat)
    ensures Sample(x, base) == Sample(y, base) <==> SameSampled(x, y, base)
    decreases |x| + |y|
  {
    if |x| > |y| {
      if (base + |x| - 1) % 10 == 0 {
        LongerSampled(x, y, base);
      } else {
        CutUnsampled(x, y, base);
        SampleSame(x[..|x| - 1], y, base);
      }
    } else if |y| > |x| {
      if (base + |y| - 1) % 10 == 0 {
        LongerSampled(y, x, base);
      } else {
        CutUnsampled(y, x, base);
        SampleSame(x, y[..|y| - 1], base);
      }
    } else {
      SampleDetermines(x, y, base);
      AgreeIsSame(x, y, base);
    }
  }

  lemma AgreeIsSame(x: seq<bv8>, y: seq<bv8>, base: nat)
    requires |x| == |y|
    ensures AgreeAtSampled(x, y, base) <==> SameSampled(x, y, base)
  {
    if SameSampled(x, y, base) {
      forall i | 0 <= i < |x| && (base + i) % 10 == 0
        ensures x[i] == y[i]
      {
        assert SameAt(x, y, base, i);
      }
    }
  }

  lemma {:induction false} SampleGrows(x: seq<bv8>, y: seq<bv8>, base: nat)
    requires |y| <= |x|
    ensures |Sample(y, base)| <= |Sample(x, base)|
    decreases |x|
  {
    if x != [] {
      var n := |x| - 1;
      SampleGrows(x[..n], y[..Min(|y|, n)], base);
      assert y[..|y|] == y;
    }
  }

  /** If the last byte of the longer window is sampled, there is no match. */
  lemma LongerSampled(x: seq<bv8>, y: seq<bv8>, base: nat)
    requires |x| > |y| && (base + |x| - 1) % 10 == 0
    ensures Sample(x, base) != Sample(y, base) && !SameSampled(x, y, base) && !SameSampled(y, x, base)
  {
    SampleGrows(x[..|x| - 1], y, base);
    assert !SameAt(x, y, base, |x| - 1) && !SameAt(y, x, base, |x| - 1);
  }

  /** If it is not, it does not count. */
  lemma CutUnsampled(x: seq<bv8>, y: seq<bv8>, base: nat)
    requires |x| > |y| && (base + |x| - 1) % 10 != 0
    ensures SameSampled(x, y, base) <==> SameSampled(x[..|x| - 1], y, base)
    ensures SameSampled(y, x, base) <==> SameSampled(y, x[..|x| - 1], base)
    ensures Sample(x, base) == Sample(x[..|x| - 1], base)
  {
    var cut := x[..|x| - 1];
    forall p: nat
      ensures SameAt(x, y, base, p) <==> SameAt(cut, y, base, p)
      ensures SameAt(y, x, base, p) <==> SameAt(y, cut, base, p)
    {
    }
  }

  predicate TrueAt(data: seq<bv8>, f: seq<bv8>, offset: nat, p: nat)
    requires p < |data|
  {
    (offset + p) % 10 == 0 ==> offset + p < |f| && data[p] == f[offset + p]
  }

  /** Every sampled byte of `data` is the byte of the file at its offset. */
  ghost predicate TrueAtSampled(data: seq<bv8>, f: seq<bv8>, offset: nat)
  {
    forall p :: 0 <= p < |data| ==> TrueAt(data, f, offset, p)
  }

  /** What the server answers with, if it does. */
  function Served(d: Drive, way: Delivery, offset: nat, size: nat): seq<bv8>
  {
    if way.Lost? then []
    else
      var reply := Answer(SPARSE, d, way.opens, offset, size).1;
      if reply.ReadError? then [] else reply.data
  }

  /** What the server answers with and what arrives do not collide. */
  ghost predicate NoAnswerCollides(d: Drive, way: Delivery, offset: nat, size: nat)
  {
    var served := Served(d, way, offset, size);
    var p, q := Sample(Body(way, served), offset), Sample(served, offset);
    DigestText(p) == DigestText(q) ==> p == q
  }

  /** An answer that the client takes has the file's bytes at the sampled offsets. */
  lemma AnswerIsTrue(d: Drive, way: Delivery, offset: nat, size: nat)
    requires Honest(d.gets) && NoAnswerCollides(d, way, offset, size)
    ensures var (e, r) := Fetch(SPARSE, d, way, offset, size);
      Honest(e.gets) && e.bytes == d.bytes && (r.Some? ==> |r.value| <= size && TrueAtSampled(r.value, d.bytes, offset))
  {
    RestHonest(d.gets);
    var r := Fetch(SPARSE, d, way, offset, size).1;
    if r.Some? {
      var served := Served(d, way, offset, size);
      TakenIsTrue(r.value, served, d.bytes, offset, size);
    }
  }

  lemma TakenIsTrue(v: seq<bv8>, served: seq<bv8>, f: seq<bv8>, offset: nat, size: nat)
    requires served <= Slice(f, offset, size) && Sample(v, offset) == Sample(served, offset)
    ensures TrueAtSampled(v, f, offset)
  {
    SampleSame(v, served, offset);
    forall p | 0 <= p < |v|
      ensures TrueAt(v, f, offset, p)
    {
      if (offset + p) % 10 == 0 {
        assert SameAt(v, served, offset, p);
        assert served[p] == Slice(f, offset, size)[p];
      }
    }
  }

  /** What is fetched on the way of a read satisfies a condition. */
  ghost predicate Throughout(clean: (Drive, Delivery, nat, nat) -> bool, fetch: Fetcher, d: Drive, net: Net,
                             offset: nat, size: nat)
    decreases size
  {
    size > 0 ==>
      var n := Min(size, CHUNK);
      && clean(d, First(net), offset, n)
      && Throughout(clean, fetch, fetch(d, First(net), offset, n).0, Later(net), offset + n, size - n)
  }

  /** No answer of the whole read collides with what was served. */
  ghost predicate NoReadCollides(d: Drive, net: Net, offset: nat, size: nat)
  {
    Throughout(NoAnswerCollides, FetchOf(SPARSE), d, net, offset, size)
  }

  lemma TrueTwice(a: seq<bv8>, b: seq<bv8>, f: seq<bv8>, offset: nat)
    requires TrueAtSampled(a, f, offset) && TrueAtSampled(b, f, offset + |a|)
    ensures TrueAtSampled(a + b, f, offset)
  {
    forall p | 0 <= p < |a + b|
      ensures TrueAt(a + b, f, offset, p)
    {
      if p < |a| {
        assert TrueAt(a, f, offset, p);
      } else {
        assert TrueAt(b, f, offset + |a|, p - |a|);
        assert offset + |a| + (p - |a|) == offset + p;
      }
    }
  }

  /** Where the condition holds, what is fetched is true. */
  ghost predicate FetchesTruly(clean: (Drive, Delivery, nat, nat) -> bool, fetch: Fetcher)
  {
    forall d: Drive, way: Delivery, offset: nat, size: nat {:trigger fetch(d, way, offset, size)} ::
      Honest(d.gets) && clean(d, way, offset, size) ==>
        var (e, r) := fetch(d, way, offset, size);
        && Honest(e.gets) && e.bytes == d.bytes
        && (r.Some? ==> |r.value| <= size && TrueAtSampled(r.value, d.bytes, offset))
  }

  lemma {:induction false} TrueReadWith(clean: (Drive, Delivery, nat, nat) -> bool, fetch: Fetcher, d: Drive, net: Net,
                                        offset: nat, size: nat)
    requires FetchesTruly(clean, fetch) && Honest(d.gets) && Throughout(clean, fetch, d, net, offset, size)
    ensures var r := ReadWith(fetch, d, net, offset, size).1; r.Some? ==> TrueAtSampled(r.value, d.bytes, offset)
    decreases size
  {
    if size > 0 {
      var n := Min(size, CHUNK);
      var (e, answer) := fetch(d, First(net), offset, n);
      if answer.Some? && |answer.value| == n {
        TrueReadWith(clean, fetch, e, Later(net), offset + n, size - n);
        var rest := ReadWith(fetch, e, Later(net), offset + n, size - n).1;
        if rest.Some? {
          TrueTwice(answer.value, rest.value, d.bytes, offset);
        }
      }
    }
  }

  lemma FetchIsTrue()
    ensures FetchesTruly(NoAnswerCollides, FetchOf(SPARSE))
  {
    forall d: Drive, way: Delivery, offset: nat, size: nat | Honest(d.gets) && NoAnswerCollides(d, way, offset, size)
      ensures var (e, r) := FetchOf(SPARSE)(d, way, offset, size);
        && Honest(e.gets) && e.bytes == d.bytes
        && (r.Some? ==> |r.value| <= size && TrueAtSampled(r.value, d.bytes, offset))
    {
      AnswerIsTrue(d, way, offset, size);
    }
  }

  /**
    The digest check on reads: whatever happens to the answers on the way, an accepted read of an honest disk has the
    file's bytes at every sampled offset, barring collisions.
  */
  lemma AcceptedReadIsTrue(d: Drive, net: Net, offset: nat, size: nat)
    requires Honest(d.gets) && NoReadCollides(d, net, offset, size)
    ensures var r := ReadLoop(SPARSE, d, net, offset, size).1; r.Some? ==> TrueAtSampled(r.value, d.bytes, offset)
  {
    FetchIsTrue();
    TrueReadWith(NoAnswerCollides, FetchOf(SPARSE), d, net, offset, size);
  }

  // ---------------------------------------------------------------- which answers are taken

  /** What handle_read hands out: the bytes of its one call, if that is neither interrupted nor fails. */
  function Handed(script: Script, f: seq<bv8>, offset: nat, size: nat): Option<seq<bv8>>
  {
    var o := Next(script, size);
    if o.Interrupted? || o.Failed? then None else Some(Carried(o, Slice(f, offset, size), size))
  }

  /** What arrives is taken if it is not too long and has the sampled bytes of what was handed out. */
  ghost function Taken(script: Script, f: seq<bv8>, way: Delivery, offset: nat, size: nat): Option<seq<bv8>>
  {
    var handed := Handed(script, f, offset, size);
    if handed.None? then None
    else
      var v := Body(way, handed.value);
      if |v| <= size && SameSampled(v, handed.value, offset) then Some(v) else None
  }

  /** A way to judge one answer. */
  type Taker = (Script, seq<bv8>, Delivery, nat, nat) -> Option<seq<bv8>>

  ghost function ReceivedWith(taken: Taker, script: Script, f: seq<bv8>, net: Net, offset: nat, size: nat)
    : Option<seq<bv8>>
    decreases size
  {
    if size == 0 then Some([])
    else
      var n := Min(size, CHUNK);
      var v := taken(script, f, First(net), offset, n);
      if v.None? || |v.value| < n then v
      else
        var rest := ReceivedWith(taken, Rest(script), f, Later(net), offset + n, size - n);
        if rest.None? then None else Some(v.value + rest.value)
  }

  /** A read, answer by answer; one that is shorter than asked for ends it. */
  ghost function Received(script: Script, f: seq<bv8>, net: Net, offset: nat, size: nat): Option<seq<bv8>>
  {
    ReceivedWith(Taken, script, f, net, offset, size)
  }

  predicate GetsThrough(way: Delivery) { way.Arrives? && way.opens && way.answered }

  /**
    Barring a collision, an answer that gets through is taken exactly if it is not too long and has the same sampled
    bytes.
  */
  lemma AnswerTakenExactly(d: Drive, way: Delivery, offset: nat, size: nat)
    requires GetsThrough(way) && NoAnswerCollides(d, way, offset, size)
    ensures Fetch(SPARSE, d, way, offset, size)
            == (d.(gets := Rest(d.gets)), Taken(d.gets, d.bytes, way, offset, size))
  {
    var handed := Handed(d.gets, d.bytes, offset, size);
    if handed.Some? {
      SampleSame(Body(way, handed.value), handed.value, offset);
      SampledDigestIsValid(handed.value, offset);
    }
  }

  ghost predicate FetchesExactly(clean: (Drive, Delivery, nat, nat) -> bool, fetch: Fetcher, taken: Taker)
  {
    forall d: Drive, way: Delivery, offset: nat, size: nat {:trigger fetch(d, way, offset, size)} ::
      GetsThrough(way) && clean(d, way, offset, size) ==>
        fetch(d, way, offset, size) == (d.(gets := Rest(d.gets)), taken(d.gets, d.bytes, way, offset, size))
  }

  lemma {:induction false} ExactlyReadWith(clean: (Drive, Delivery, nat, nat) -> bool, fetch: Fetcher, taken: Taker,
                                           d: Drive, net: Net, offset: nat, size: nat)
    requires FetchesExactly(clean, fetch, taken) && OpenNet(net) && Throughout(clean, fetch, d, net, offset, size)
    ensures ReadWith(fetch, d, net, offset, size).1 == ReceivedWith(taken, d.gets, d.bytes, net, offset, size)
    decreases size
  {
    if size > 0 {
      var n := Min(size, CHUNK);
      LaterOpen(net);
      var (e, answer) := fetch(d, First(net), offset, n);
      ExactlyReadWith(clean, fetch, taken, e, Later(net), offset + n, size - n);
    }
  }

  /**
    Exactly what a read returns, whatever the answers are altered to and whatever the disk hands out, when requests and
    answers get through and barring collisions.
  */
  lemma ReadTakenExactly(d: Drive, net: Net, offset: nat, size: nat)
    requires OpenNet(net) && NoReadCollides(d, net, offset, size)
    ensures ReadLoop(SPARSE, d, net, offset, size).1 == Received(d.gets, d.bytes, net, offset, size)
  {
    FetchIsExact();
    ExactlyReadWith(NoAnswerCollides, FetchOf(SPARSE), Taken, d, net, offset, size);
  }

  lemma FetchIsExact()
    ensures FetchesExactly(NoAnswerCollides, FetchOf(SPARSE), Taken)
  {
    forall d: Drive, way: Delivery, offset: nat, size: nat | GetsThrough(way) && NoAnswerCollides(d, way, offset, size)
      ensures FetchOf(SPARSE)(d, way, offset, size)
              == (d.(gets := Rest(d.gets)), Taken(d.gets, d.bytes, way, offset, size))
    {
      AnswerTakenExactly(d, way, offset, size);
    }
  }

  /** A read through the digest check, with answers altered at will. */
  method CheckedRead(disk: Disk, net: Net, offset: nat, size: nat) returns (ok: bool, data: seq<bv8>)
    modifies disk`gets
    ensures ok && Honest(old(disk.gets)) && NoReadCollides(old(disk.Now()), net, offset, size) ==>
              TrueAtSampled(data, disk.bytes, offset)
    ensures OpenNet(net) && NoReadCollides(old(disk.Now()), net, offset, size) ==>
              var r := Received(old(disk.gets), old(disk.bytes), net, offset, size);
              (ok <==> r.Some?) && (ok ==> data == r.value)
  {
    ghost var d := disk.Now();
    ok, data := ReadFile(SPARSE, disk, net, offset, size);
    if NoReadCollides(d, net, offset, size) {
      if ok && Honest(d.gets) { AcceptedReadIsTrue(d, net, offset, size); }
      if OpenNet(net) { ReadTakenExactly(d, net, offset, size); }
    }
  }

  // ---------------------------------------------------------------- answers cut short

  /** No byte of the file in this range is sampled. */
  ghost predicate NoneSampled(from: nat, to: nat)
  {
    forall i :: from <= i < to ==> i % 10 != 0
  }

  /** The answer to a read in one piece is cut after `k` bytes. */
  function CutAfter(f: seq<bv8>, offset: nat, k: nat): Net
  {
    [Arrives(Some(Slice(f, offset, k)), true, true)]
  }

  lemma CutSameSampled(f: seq<bv8>, offset: nat, size: nat, k: nat)
    requires k < |Slice(f, offset, size)|
    ensures SameSampled(Slice(f, offset, k), Slice(f, offset, size), offset)
            <==> NoneSampled(offset + k, offset + |Slice(f, offset, size)|)
  {
    var x, y := Slice(f, offset, k), Slice(f, offset, size);
    SlicePrefix(f, offset, k, size);
    if SameSampled(x, y, offset) {
      forall i | offset + k <= i < offset + |y|
        ensures i % 10 != 0
      {
        assert SameAt(x, y, offset, i - offset);
      }
    }
  }

  /**
    An answer that is cut short is taken for the end of the file, and the read succeeds with what is left of it, exactly
    if no sampled byte is lost: the length of an answer is not checked.
  */
  lemma CutAnswerTaken(d: Drive, offset: nat, size: nat, k: nat)
    requires d.gets == [] && size <= CHUNK && k < |Slice(d.bytes, offset, size)|
    requires NoReadCollides(d, CutAfter(d.bytes, offset, k), offset, size)
    ensures ReadLoop(SPARSE, d, CutAfter(d.bytes, offset, k), offset, size).1
            == if NoneSampled(offset + k, offset + |Slice(d.bytes, offset, size)|)
               then Some(Slice(d.bytes, offset, k)) else None
  {
    var all := Slice(d.bytes, offset, size);
    ReadTakenExactly(d, CutAfter(d.bytes, offset, k), offset, size);
    assert all[..|all|] == all;
    CutSameSampled(d.bytes, offset, size, k);
  }

  /** Losing no sampled byte, it does not collide with what was served. */
  lemma CutIsClean(d: Drive, offset: nat, size: nat, k: nat)
    requires d.gets == [] && size <= CHUNK && k < |Slice(d.bytes, offset, size)|
    requires NoneSampled(offset + k, offset + |Slice(d.bytes, offset, size)|)
    ensures NoReadCollides(d, CutAfter(d.bytes, offset, k), offset, size)
  {
    CutSameSampled(d.bytes, offset, size, k);
    SampleSame(Slice(d.bytes, offset, k), Slice(d.bytes, offset, size), offset);
    SameSampleIsClean(d, First(CutAfter(d.bytes, offset, k)), offset, size);
    OnePiece(NoAnswerCollides, FetchOf(SPARSE), d, CutAfter(d.bytes, offset, k), offset, size);
  }

  lemma SameSampleIsClean(d: Drive, way: Delivery, offset: nat, size: nat)
    requires d.gets == [] && GetsThrough(way) && way.altered.Some?
    requires Sample(way.altered.value, offset) == Sample(Slice(d.bytes, offset, size), offset)
    ensures NoAnswerCollides(d, way, offset, size)
  {
    var all := Slice(d.bytes, offset, size);
    assert all[..|all|] == all;
    assert Served(d, way, offset, size) == all;
  }

  lemma OnePiece(clean: (Drive, Delivery, nat, nat) -> bool, fetch: Fetcher, d: Drive, net: Net, offset: nat, size: nat)
    requires size <= CHUNK && clean(d, First(net), offset, size)
    ensures Throughout(clean, fetch, d, net, offset, size)
  {
  }

  /** Three bytes are asked for and served; one arrives, and the read succeeds with it. */
  method CutAnswer() returns (ok: bool, data: seq<bv8>)
    ensures ok && data == [1]
  {
    var f: seq<bv8> := [1, 2, 3];
    ok, data := CutRead(f, 0, 3, 1);
    assert Slice(f, 0, 1) == [1];
  }

  /** A file is read in one piece, and the answer cut where no sampled byte is lost. */
  method CutRead(f: seq<bv8>, offset: nat, size: nat, k: nat) returns (ok: bool, data: seq<bv8>)
    requires size <= CHUNK && k < |Slice(f, offset, size)| && NoneSampled(offset + k, offset + |Slice(f, offset, size)|)
    ensures ok && data == Slice(f, offset, k)
  {
    var disk := new Disk(f, [], []);
    ghost var d := disk.Now();
    CutIsClean(d, offset, size, k);
    CutAnswerTaken(d, offset, size, k);
    ok, data := ReadFile(SPARSE, disk, CutAfter(f, offset, k), offset, size);
  }
}

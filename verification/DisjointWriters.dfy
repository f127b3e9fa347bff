/**
  Several clients write disjoint ranges of one file at the same time: every interleaving of the partial pwrite
  and read-back pread calls that the handlers of their chunks make (handle_write, pwrite_full, pread_full in
  demo/service_provider/c/httpfs_server.c under the chunk loop of src/http_client.c).
*/
module DisjointWriters {
  import opened Base
  import opened Files
  import opened Transfer

  datatype Job = Job(offset: nat, data: seq<bv8>)

  /** Where the chunk in progress stands. */
  datatype Phase =
    | Writing(done: nat)
    | Verifying(got: seq<bv8>)
    | Finished
    | Rejected

  /** A job of which the first `base` bytes have been accepted chunk by chunk. */
  datatype Writer = Writer(job: Job, base: nat, phase: Phase) {
    function ChunkLength(): int { Min(|job.data| - base, CHUNK) }

    predicate WellFormed() {
      && base <= |job.data|
      && match phase
         case Writing(done) => base < |job.data| && done <= ChunkLength()
         case Verifying(got) => base < |job.data| && |got| <= ChunkLength()
         case Finished => base == |job.data|
         case Rejected => false
    }

    /** And what has been read back so far is what was written. */
    predicate OnTrack() {
      WellFormed() && (phase.Verifying? ==> phase.got <= job.data[base..])
    }

    /** How much of the job is in the file. */
    function Stored(): (n: nat)
      requires OnTrack()
      ensures n <= |job.data|
    {
      match phase
      case Writing(done) => base + done
      case Verifying(_) => base + ChunkLength()
      case Finished => base
    }
  }

  datatype State = State(file: seq<bv8>, writers: seq<Writer>)

  /** One system call, or one decision between calls, of writer `i`. */
  datatype Step =
    | Write(i: nat, n: nat)    // pwrite transfers n bytes
    | Turn(i: nat)             // pwrite_full is done, read-back starts
    | Read(i: nat, n: nat)     // pread transfers n bytes
    | Check(i: nat)            // the read-back is compared and the next chunk starts

  function NextPhase(job: Job, base: nat): Phase
  {
    if base == |job.data| then Finished else Writing(0)
  }

  /** pwrite_full: one pwrite, at least one byte. */
  function MoveWrite(f: seq<bv8>, w: Writer, n: nat): (seq<bv8>, Writer)
    requires w.WellFormed()
  {
    if w.phase.Writing? && 0 < n && w.phase.done + n <= w.ChunkLength() then
      var d := w.base + w.phase.done;
      (WriteAt(f, w.job.offset + d, w.job.data[d..d + n]), w.(phase := Writing(w.phase.done + n)))
    else (f, w)
  }

  /** pwrite_full has written the whole chunk: the read-back starts. */
  function MoveTurn(w: Writer): Writer
    requires w.WellFormed()
  {
    if w.phase == Writing(w.ChunkLength()) then w.(phase := Verifying([])) else w
  }

  /** pread_full: one pread, at least one byte unless the file ends here. */
  function MoveRead(f: seq<bv8>, w: Writer, n: nat): Writer
    requires w.WellFormed()
  {
    if w.phase.Verifying? && |w.phase.got| < w.ChunkLength() then
      var k := |w.phase.got|;
      var s := Slice(f, w.job.offset + w.base + k, w.ChunkLength() - k);
      if s == [] then w.(phase := Rejected)
      else if 0 < n <= |s| then w.(phase := Verifying(w.phase.got + s[..n]))
      else w
    else w
  }

  /** The comparison at the end of handle_write, and the client's next chunk. */
  function MoveCheck(scheme: Scheme, w: Writer): Writer
    requires w.WellFormed()
  {
    if w.phase.Verifying? && |w.phase.got| == w.ChunkLength() then
      var len := w.ChunkLength();
      var at := w.job.offset + w.base;
      if scheme.sum(w.phase.got, at) == scheme.sum(w.job.data[w.base..w.base + len], at)
      then w.(base := w.base + len, phase := NextPhase(w.job, w.base + len))
      else w.(phase := Rejected)
    else w
  }

  function Move(scheme: Scheme, f: seq<bv8>, w: Writer, step: Step): (seq<bv8>, Writer)
    requires w.WellFormed()
  {
    match step
    case Write(_, n) => MoveWrite(f, w, n)
    case Turn(_) => (f, MoveTurn(w))
    case Read(_, n) => (f, MoveRead(f, w, n))
    case Check(_) => (f, MoveCheck(scheme, w))
  }

  predicate AllOnTrack(ws: seq<Writer>)
  {
    forall i :: 0 <= i < |ws| ==> ws[i].OnTrack()
  }

  /** A step of the run; a writer whose chunk was rejected takes no more steps. */
  function Apply(scheme: Scheme, s: State, step: Step): State
  {
    if step.i >= |s.writers| || !s.writers[step.i].WellFormed() then s
    else
      var (f, w) := Move(scheme, s.file, s.writers[step.i], step);
      State(f, s.writers[step.i := w])
  }

  function Start(f: seq<bv8>, jobs: seq<Job>): State
  {
    State(f, seq(|jobs|, i requires 0 <= i < |jobs| => Writer(jobs[i], 0, NextPhase(jobs[i], 0))))
  }

  /** Any sequence of steps is an interleaving. */
  function Run(scheme: Scheme, s: State, steps: seq<Step>): State
  {
    if steps == [] then s else Apply(scheme, Run(scheme, s, steps[..|steps| - 1]), steps[|steps| - 1])
  }

  predicate Apart(a: Job, b: Job)
  {
    a.offset + |a.data| <= b.offset || b.offset + |b.data| <= a.offset
  }

  ghost predicate AllApart(jobs: seq<Job>)
  {
    forall i, j :: 0 <= i < j < |jobs| ==> Apart(jobs[i], jobs[j])
  }

  // ---------------------------------------------------------------- writing all jobs, one after the other

  /** A way to do a job. */
  type Doer = (seq<bv8>, Job) -> seq<bv8>

  function WriteJob(f: seq<bv8>, job: Job): seq<bv8> { WriteAt(f, job.offset, job.data) }

  function Fold(write: Doer, f: seq<bv8>, jobs: seq<Job>): seq<bv8>
  {
    if jobs == [] then f else write(Fold(write, f, jobs[..|jobs| - 1]), jobs[|jobs| - 1])
  }

  function WriteAll(f: seq<bv8>, jobs: seq<Job>): seq<bv8> { Fold(WriteJob, f, jobs) }

  /** Writes to disjoint ranges commute. */
  lemma WritesCommute(f: seq<bv8>, p: nat, a: seq<bv8>, q: nat, b: seq<bv8>)
    requires p + |a| <= q || q + |b| <= p
    ensures WriteAt(WriteAt(f, p, a), q, b) == WriteAt(WriteAt(f, q, b), p, a)
  {
  }

  function Longer(job: Job, more: seq<bv8>): Job
  {
    Job(job.offset, job.data + more)
  }

  /** The piece that makes it longer. */
  function Extra(job: Job, more: seq<bv8>): Job
  {
    Job(job.offset + |job.data|, more)
  }

  ghost predicate Commutes(write: Doer)
  {
    forall f, a, b {:trigger write(write(f, a), b)} :: Apart(a, b) ==> write(write(f, a), b) == write(write(f, b), a)
  }

  ghost predicate Extends(write: Doer)
  {
    forall f, a, more {:trigger write(f, Longer(a, more))} ::
      write(write(f, a), Extra(a, more)) == write(f, Longer(a, more))
  }

  lemma InitApart(jobs: seq<Job>, n: nat)
    requires AllApart(jobs) && n <= |jobs|
    ensures AllApart(jobs[..n])
  {
    forall i, j | 0 <= i < j < n
      ensures Apart(jobs[..n][i], jobs[..n][j])
    {
      assert Apart(jobs[i], jobs[j]);
    }
  }

  lemma ExtraApart(a: Job, more: seq<bv8>, b: Job)
    requires Apart(Longer(a, more), b)
    ensures Apart(b, Extra(a, more))
  {
  }

  lemma {:induction false} FoldGrows(write: Doer, f: seq<bv8>, jobs: seq<Job>, i: nat, more: seq<bv8>)
    requires Commutes(write) && Extends(write) && i < |jobs| && AllApart(jobs[i := Longer(jobs[i], more)])
    ensures write(Fold(write, f, jobs), Extra(jobs[i], more)) == Fold(write, f, jobs[i := Longer(jobs[i], more)])
    decreases |jobs|
  {
    var n := |jobs| - 1;
    var init, last, longer := jobs[..n], jobs[n], jobs[i := Longer(jobs[i], more)];
    if i == n {
      assert longer[..n] == init;
    } else {
      assert longer[..n] == init[i := Longer(init[i], more)];
      InitApart(longer, n);
      FoldGrows(write, f, init, i, more);
      assert Apart(longer[i], longer[n]);
      ExtraApart(jobs[i], more, last);
    }
  }

  /** A further piece of one job, written after all the others, might as well have been written with it. */
  lemma WriteAllGrows(f: seq<bv8>, jobs: seq<Job>, i: nat, more: seq<bv8>)
    requires i < |jobs| && AllApart(jobs[i := Longer(jobs[i], more)])
    ensures WriteAt(WriteAll(f, jobs), jobs[i].offset + |jobs[i].data|, more)
            == WriteAll(f, jobs[i := Longer(jobs[i], more)])
  {
    JobsCommute();
    JobsExtend();
    FoldGrows(WriteJob, f, jobs, i, more);
  }

  lemma JobsCommute()
    ensures Commutes(WriteJob)
  {
    forall f, a: Job, b: Job | Apart(a, b)
      ensures WriteJob(WriteJob(f, a), b) == WriteJob(WriteJob(f, b), a)
    {
      WritesCommute(f, a.offset, a.data, b.offset, b.data);
    }
  }

  lemma JobsExtend()
    ensures Extends(WriteJob)
  {
    forall f, a: Job, more
      ensures WriteJob(WriteJob(f, a), Extra(a, more)) == WriteJob(f, Longer(a, more))
    {
      WriteAtAppend(f, a.offset, a.data, more);
    }
  }

  lemma ByteOfWrite(f: seq<bv8>, off: nat, data: seq<bv8>, p: nat)
    requires p < |f| || off <= p < off + |data|
    ensures p < |WriteAt(f, off, data)| && WriteAt(f, off, data)[p] == ByteAfterWrite(f, off, data, p)
  {
  }

  /** After all jobs every byte of every job is in its place. */
  lemma {:induction false} WriteAllHolds(f: seq<bv8>, jobs: seq<Job>, i: nat, k: nat)
    requires AllApart(jobs) && i < |jobs| && k < |jobs[i].data|
    ensures jobs[i].offset + k < |WriteAll(f, jobs)|
    ensures WriteAll(f, jobs)[jobs[i].offset + k] == jobs[i].data[k]
    decreases |jobs|
  {
    var n := |jobs| - 1;
    if i < n {
      WriteAllHolds(f, jobs[..n], i, k);
      assert Apart(jobs[i], jobs[n]);
    }
    ByteOfWrite(WriteAll(f, jobs[..n]), jobs[n].offset, jobs[n].data, jobs[i].offset + k);
  }

  /** So reading inside one's own job reads one's own bytes. */
  lemma ReadsOwnBytes(f: seq<bv8>, jobs: seq<Job>, i: nat, a: nat, n: nat)
    requires AllApart(jobs) && i < |jobs| && a + n <= |jobs[i].data|
    ensures Slice(WriteAll(f, jobs), jobs[i].offset + a, n) == jobs[i].data[a..a + n]
  {
    var g := WriteAll(f, jobs);
    var s := Slice(g, jobs[i].offset + a, n);
    if n > 0 {
      WriteAllHolds(f, jobs, i, a + n - 1);
      forall k | 0 <= k < |s|
        ensures s[k] == jobs[i].data[a..a + n][k]
      {
        WriteAllHolds(f, jobs, i, a + k);
      }
    }
  }

  // ---------------------------------------------------------------- every interleaving

  /** The part of its job that a writer has stored. */
  function Piece(w: Writer): Job
    requires w.OnTrack()
  {
    Job(w.job.offset, w.job.data[..w.Stored()])
  }

  function Pieces(ws: seq<Writer>): (ps: seq<Job>)
    requires AllOnTrack(ws)
    ensures |ps| == |ws|
  {
    seq(|ws|, i requires 0 <= i < |ws| => Piece(ws[i]))
  }

  ghost predicate Inv(f0: seq<bv8>, jobs: seq<Job>, s: State)
  {
    && |s.writers| == |jobs|
    && (forall i :: 0 <= i < |jobs| ==> s.writers[i].job == jobs[i])
    && AllOnTrack(s.writers)
    && s.file == WriteAll(f0, Pieces(s.writers))
  }

  lemma PiecesApart(jobs: seq<Job>, ws: seq<Writer>)
    requires AllApart(jobs) && |ws| == |jobs| && AllOnTrack(ws)
    requires forall i :: 0 <= i < |jobs| ==> ws[i].job == jobs[i]
    ensures AllApart(Pieces(ws))
  {
    var ps := Pieces(ws);
    forall i, j | 0 <= i < j < |ps|
      ensures Apart(ps[i], ps[j])
    {
      assert Apart(jobs[i], jobs[j]);
    }
  }

  /** The file holds what the writer is about to read back. */
  ghost predicate Holds(f: seq<bv8>, w: Writer)
    requires w.OnTrack()
  {
    w.phase.Verifying? ==>
      var k, len := |w.phase.got|, w.ChunkLength();
      Slice(f, w.job.offset + w.base + k, len - k) == w.job.data[w.base + k..w.base + len]
  }

  /** `w` became `w'` and `f` became `g` by storing the part of the job in between. */
  ghost predicate Advances(f: seq<bv8>, w: Writer, g: seq<bv8>, w': Writer)
    requires w.OnTrack()
  {
    && w'.OnTrack() && w'.job == w.job && w.Stored() <= w'.Stored()
    && g == WriteAt(f, w.job.offset + w.Stored(), w.job.data[w.Stored()..w'.Stored()])
  }

  lemma GotMore(data: seq<bv8>, base: nat, got: seq<bv8>, end: nat, n: nat)
    requires base + |got| + n <= end <= |data| && got <= data[base..]
    ensures got + data[base + |got|..end][..n] == data[base..][..|got| + n]
  {
    var x, y := got + data[base + |got|..end][..n], data[base..][..|got| + n];
    assert |x| == |y|;
    assert forall i :: 0 <= i < |got| ==> x[i] == got[i] == data[base..][i];
    assert forall i :: |got| <= i < |got| + n ==> x[i] == data[base + i];
  }

  lemma ReadAdvances(f: seq<bv8>, w: Writer, n: nat)
    requires w.OnTrack() && Holds(f, w)
    ensures Advances(f, w, f, MoveRead(f, w, n))
  {
    if w.phase.Verifying? && |w.phase.got| < w.ChunkLength() {
      var k, len := |w.phase.got|, w.ChunkLength();
      var s := w.job.data[w.base + k..w.base + len];
      if 0 < n <= |s| {
        GotMore(w.job.data, w.base, w.phase.got, w.base + len, n);
      }
    }
  }

  lemma CheckAdvances(scheme: Scheme, f: seq<bv8>, w: Writer)
    requires w.OnTrack()
    ensures Advances(f, w, f, MoveCheck(scheme, w))
  {
    if w.phase.Verifying? && |w.phase.got| == w.ChunkLength() {
      assert w.phase.got == w.job.data[w.base..w.base + w.ChunkLength()];
    }
  }

  lemma WriteAdvances(f: seq<bv8>, w: Writer, n: nat)
    requires w.OnTrack()
    ensures var (g, w') := MoveWrite(f, w, n); Advances(f, w, g, w')
  {
  }

  lemma TurnAdvances(f: seq<bv8>, w: Writer)
    requires w.OnTrack()
    ensures Advances(f, w, f, MoveTurn(w))
  {
  }

  lemma MoveAdvances(scheme: Scheme, f: seq<bv8>, w: Writer, step: Step)
    requires w.OnTrack() && Holds(f, w)
    ensures var (g, w') := Move(scheme, f, w, step); Advances(f, w, g, w')
  {
    match step
    case Write(_, n) => WriteAdvances(f, w, n);
    case Turn(_) => TurnAdvances(f, w);
    case Read(_, n) => ReadAdvances(f, w, n);
    case Check(_) => CheckAdvances(scheme, f, w);
  }

  lemma InvHolds(f0: seq<bv8>, jobs: seq<Job>, s: State, i: nat)
    requires AllApart(jobs) && Inv(f0, jobs, s) && i < |jobs|
    ensures Holds(s.file, s.writers[i])
  {
    var w := s.writers[i];
    if w.phase.Verifying? {
      var k, len := |w.phase.got|, w.ChunkLength();
      PiecesApart(jobs, s.writers);
      ReadsOwnBytes(f0, Pieces(s.writers), i, w.base + k, len - k);
      assert Piece(w).data[w.base + k..w.base + len] == w.job.data[w.base + k..w.base + len];
    }
  }

  lemma PiecesGrow(ws: seq<Writer>, i: nat, w': Writer)
    requires AllOnTrack(ws) && i < |ws| && w'.OnTrack() && w'.job == ws[i].job && ws[i].Stored() <= w'.Stored()
    ensures AllOnTrack(ws[i := w'])
    ensures Pieces(ws[i := w']) == Pieces(ws)[i := Longer(Piece(ws[i]), w'.job.data[ws[i].Stored()..w'.Stored()])]
  {
    var w := ws[i];
    assert w.job.data[..w.Stored()] + w'.job.data[w.Stored()..w'.Stored()] == w'.job.data[..w'.Stored()];
  }

  lemma AdvanceKeepsInv(f0: seq<bv8>, jobs: seq<Job>, s: State, i: nat, g: seq<bv8>, w': Writer)
    requires AllApart(jobs) && Inv(f0, jobs, s) && i < |jobs| && Advances(s.file, s.writers[i], g, w')
    ensures Inv(f0, jobs, State(g, s.writers[i := w']))
  {
    var w := s.writers[i];
    PiecesGrow(s.writers, i, w');
    PiecesApart(jobs, s.writers[i := w']);
    WriteAllGrows(f0, Pieces(s.writers), i, w'.job.data[w.Stored()..w'.Stored()]);
  }

  lemma StepKeepsInv(scheme: Scheme, f0: seq<bv8>, jobs: seq<Job>, s: State, step: Step)
    requires AllApart(jobs) && Inv(f0, jobs, s)
    ensures Inv(f0, jobs, Apply(scheme, s, step))
  {
    if step.i < |jobs| {
      InvHolds(f0, jobs, s, step.i);
      MoveAdvances(scheme, s.file, s.writers[step.i], step);
      var (g, w') := Move(scheme, s.file, s.writers[step.i], step);
      AdvanceKeepsInv(f0, jobs, s, step.i, g, w');
    }
  }

  lemma {:induction false} NothingWritten(f0: seq<bv8>, jobs: seq<Job>)
    requires forall i :: 0 <= i < |jobs| ==> jobs[i].data == []
    ensures WriteAll(f0, jobs) == f0
    decreases |jobs|
  {
    if jobs != [] {
      NothingWritten(f0, jobs[..|jobs| - 1]);
    }
  }

  /** The invariant holds after every interleaving. */
  lemma {:induction false} EveryRunKeepsInv(scheme: Scheme, f0: seq<bv8>, jobs: seq<Job>, steps: seq<Step>)
    requires AllApart(jobs)
    ensures Inv(f0, jobs, Run(scheme, Start(f0, jobs), steps))
    decreases |steps|
  {
    if steps == [] {
      NothingWritten(f0, Pieces(Start(f0, jobs).writers));
    } else {
      EveryRunKeepsInv(scheme, f0, jobs, steps[..|steps| - 1]);
      StepKeepsInv(scheme, f0, jobs, Run(scheme, Start(f0, jobs), steps[..|steps| - 1]), steps[|steps| - 1]);
    }
  }

  ghost predicate AllFinished(s: State)
  {
    forall i :: 0 <= i < |s.writers| ==> s.writers[i].phase.Finished?
  }

  /**
    Writers of disjoint ranges do not interfere: in every interleaving no chunk is ever rejected, and once all
    writers are done the file is the one that writing the jobs one after the other leaves.
  */
  lemma DisjointWritersDoNotInterfere(scheme: Scheme, f0: seq<bv8>, jobs: seq<Job>, steps: seq<Step>)
    requires AllApart(jobs)
    ensures var s := Run(scheme, Start(f0, jobs), steps);
      && |s.writers| == |jobs|
      && (forall i :: 0 <= i < |jobs| ==> !s.writers[i].phase.Rejected?)
      && (AllFinished(s) ==> s.file == WriteAll(f0, jobs))
  {
    EveryRunKeepsInv(scheme, f0, jobs, steps);
    var s := Run(scheme, Start(f0, jobs), steps);
    if AllFinished(s) {
      forall i | 0 <= i < |jobs|
        ensures Pieces(s.writers)[i] == jobs[i]
      {
        assert s.writers[i].OnTrack() && s.writers[i].phase.Finished?;
        assert jobs[i].data[..|jobs[i].data|] == jobs[i].data;
      }
      assert Pieces(s.writers) == jobs;
    }
  }

  // ---------------------------------------------------------------- the verification is one

  /** A read-back is compared: a chunk is rejected exactly if its checksum differs, and otherwise accepted. */
  lemma CheckedExactly(scheme: Scheme, w: Writer)
    requires w.WellFormed() && w.phase.Verifying? && |w.phase.got| == w.ChunkLength()
    ensures var chunk, at := w.job.data[w.base..w.base + w.ChunkLength()], w.job.offset + w.base;
      var v := MoveCheck(scheme, w);
      && (v.phase.Rejected? <==> scheme.sum(w.phase.got, at) != scheme.sum(chunk, at))
      && (!v.phase.Rejected? ==> v.base == w.base + |chunk|)
  {
  }

  lemma RunMore(scheme: Scheme, s: State, steps: seq<Step>, init: seq<Step>, last: Step)
    requires steps == init + [last]
    ensures Run(scheme, s, steps) == Apply(scheme, Run(scheme, s, init), last)
  {
    assert steps[..|steps| - 1] == init;
  }

  lemma FiveSteps(scheme: Scheme, s: State, a: Step, b: Step, c: Step, d: Step, e: Step)
    ensures Run(scheme, s, [a, b, c, d, e])
            == Apply(scheme, Apply(scheme, Apply(scheme, Apply(scheme, Apply(scheme, s, a), b), c), d), e)
  {
    RunMore(scheme, s, [a, b, c, d, e], [a, b, c, d], e);
    RunMore(scheme, s, [a, b, c, d], [a, b, c], d);
    RunMore(scheme, s, [a, b, c], [a, b], c);
    RunMore(scheme, s, [a, b], [a], b);
    RunMore(scheme, s, [a], [], a);
  }

  /** The first of two writers of one byte each, at the same place, and what each of the five steps makes of it. */
  lemma Overwritten(scheme: Scheme, f: seq<bv8>, at: nat, x: bv8, y: bv8, s: State)
    requires s == Start(f, [Job(at, [x]), Job(at, [y])]) && scheme.sum([x], at) != scheme.sum([y], at)
    ensures var t := Apply(scheme, Apply(scheme, Apply(scheme, s, Write(0, 1)), Turn(0)), Write(1, 1));
      var u := Apply(scheme, Apply(scheme, t, Read(0, 1)), Check(0));
      |u.writers| == 2 && u.writers[0].phase.Rejected?
  {
    var w, v := Writer(Job(at, [x]), 0, Writing(0)), Writer(Job(at, [y]), 0, Writing(0));
    assert s.writers == [w, v] && [x][0..1] == [x] && [y][0..1] == [y];
    var g := WriteAt(f, at, [x]);
    var a := Apply(scheme, s, Write(0, 1));
    assert a == State(g, [w.(phase := Writing(1)), v]);
    var b := Apply(scheme, a, Turn(0));
    assert b == State(g, [w.(phase := Verifying([])), v]);
    var t := Apply(scheme, b, Write(1, 1));
    assert t == State(WriteAt(g, at, [y]), [w.(phase := Verifying([])), v.(phase := Writing(1))]);
    ReadsOther(t.file, at, x, y, g, w.(phase := Verifying([])));
    var u := Apply(scheme, t, Read(0, 1));
    assert u.writers == [w.(phase := Verifying([y])), v.(phase := Writing(1))];
    CheckedExactly(scheme, u.writers[0]);
  }

  lemma ReadsOther(f: seq<bv8>, at: nat, x: bv8, y: bv8, g: seq<bv8>, w: Writer)
    requires w == Writer(Job(at, [x]), 0, Verifying([])) && f == WriteAt(g, at, [y])
    ensures MoveRead(f, w, 1) == w.(phase := Verifying([y]))
  {
    SliceOfWrite(g, at, [y]);
    assert [] + [y][..1] == [y];
  }

  /**
    Without disjoint ranges writers do interfere: the second overwrites the only byte of the first before that is read
    back, and if the two bytes have different checksums the first writer's chunk is rejected.
  */
  lemma OverlapIsRejected(scheme: Scheme, f: seq<bv8>, at: nat, x: bv8, y: bv8)
    requires scheme.sum([x], at) != scheme.sum([y], at)
    ensures var s := Run(scheme, Start(f, [Job(at, [x]), Job(at, [y])]),
                         [Write(0, 1), Turn(0), Write(1, 1), Read(0, 1), Check(0)]);
      |s.writers| == 2 && s.writers[0].phase.Rejected?
  {
    var s := Start(f, [Job(at, [x]), Job(at, [y])]);
    FiveSteps(scheme, s, Write(0, 1), Turn(0), Write(1, 1), Read(0, 1), Check(0));
    Overwritten(scheme, f, at, x, y, s);
  }

  // ---------------------------------------------------------------- every run ends

  /** What a writer still has to do. */
  function Left(w: Writer): (n: int)
    requires w.OnTrack()
    ensures n >= 0
  {
    var r := |w.job.data| - w.base;
    match w.phase
    case Writing(done) => 4 * r + 2 - done
    case Verifying(got) => 4 * r + 1 - w.ChunkLength() - |got|
    case Finished => 0
  }

  function TotalLeft(ws: seq<Writer>): (n: int)
    requires AllOnTrack(ws)
    ensures n >= 0
  {
    if ws == [] then 0 else TotalLeft(ws[..|ws| - 1]) + Left(ws[|ws| - 1])
  }

  lemma {:induction false} TotalLeftUpdate(ws: seq<Writer>, i: nat, w': Writer)
    requires AllOnTrack(ws) && i < |ws| && w'.OnTrack()
    ensures AllOnTrack(ws[i := w']) && TotalLeft(ws[i := w']) == TotalLeft(ws) - Left(ws[i]) + Left(w')
    decreases |ws|
  {
    var n := |ws| - 1;
    if i < n {
      TotalLeftUpdate(ws[..n], i, w');
      assert ws[i := w'][..n] == ws[..n][i := w'];
    } else {
      assert ws[i := w'][..n] == ws[..n];
    }
  }

  /** A step that changes anything leaves less to do, so no run of such steps goes on for ever. */
  lemma EffectiveStepDecreases(scheme: Scheme, f0: seq<bv8>, jobs: seq<Job>, s: State, step: Step)
    requires AllApart(jobs) && Inv(f0, jobs, s) && Apply(scheme, s, step) != s
    ensures Inv(f0, jobs, Apply(scheme, s, step)) && TotalLeft(Apply(scheme, s, step).writers) < TotalLeft(s.writers)
  {
    StepKeepsInv(scheme, f0, jobs, s, step);
    var i, w := step.i, s.writers[step.i];
    InvHolds(f0, jobs, s, i);
    MoveAdvances(scheme, s.file, w, step);
    var (g, w') := Move(scheme, s.file, w, step);
    TotalLeftUpdate(s.writers, i, w');
    MoveShrinks(scheme, s.file, w, step);
  }

  lemma MoveShrinks(scheme: Scheme, f: seq<bv8>, w: Writer, step: Step)
    requires w.OnTrack() && Move(scheme, f, w, step).1.OnTrack()
    ensures var (g, w') := Move(scheme, f, w, step); (g == f && w' == w) || Left(w') < Left(w)
  {
  }

  /** Until every writer is done, some step changes something: an interleaving that stops has finished all jobs. */
  lemma UnfinishedCanStep(scheme: Scheme, f0: seq<bv8>, jobs: seq<Job>, s: State) returns (step: Step)
    requires AllApart(jobs) && Inv(f0, jobs, s) && !AllFinished(s)
    ensures Apply(scheme, s, step) != s
  {
    var i :| 0 <= i < |s.writers| && !s.writers[i].phase.Finished?;
    var w := s.writers[i];
    assert w.OnTrack();
    InvHolds(f0, jobs, s, i);
    match w.phase
    case Writing(done) =>
      step := if done < w.ChunkLength() then Write(i, 1) else Turn(i);
      assert Move(scheme, s.file, w, step).1 != w;
    case Verifying(got) =>
      step := if |got| < w.ChunkLength() then Read(i, 1) else Check(i);
      assert Move(scheme, s.file, w, step).1 != w;
  }
}

/**
  The hand-off of accepted connections to worker threads (demo/service_provider/c/httpfs_server.c): the accept
  loop of httpfs_server_run, enqueue_pending_fd and wake_worker on one side, worker_thread_main,
  drain_notify_pipe, add_pending_clients and dequeue_pending_fd on the other, as atomic steps of one acceptor
  and any number of workers, before shutdown.

  Connections carry fresh identifiers instead of descriptor numbers, which the kernel reuses.  Operations on a
  queue are single steps because its mutex is held throughout; a retry after EINTR is no step at all.
*/
module Handoff {
  import opened Base

  /** Where the acceptor is: in accept, holding a connection, or between enqueue_pending_fd and wake_worker. */
  datatype Acceptor = Accepting | Holding(c: nat) | Waking(w: nat)

  /** Where a worker is. */
  datatype Pc =
    | Waiting                   // in epoll_wait
    | Batch(notified: bool)     // going through ready events, the notifier's still among them or not
    | Draining                  // in drain_notify_pipe
    | Dequeuing                 // in add_pending_clients, about to dequeue
    | Adding(c: nat)            // in add_client_to_worker

  /** `taken` records the connections the worker has dequeued, in order. */
  datatype Worker = Worker(queue: seq<nat>, pipe: nat, pc: Pc, registered: set<nat>, taken: seq<nat>)

  /** `next` is the next fresh identifier, `turn` the acceptor's next_worker. */
  datatype World = World(next: nat, turn: nat, acceptor: Acceptor, workers: seq<Worker>, closed: set<nat>)

  datatype Step =
    | Accept
    | Refuse(counted: bool)           // set_nonblocking fails, or (counted) the queue node cannot be allocated
    | Enqueue
    | Wake
    | Poll(w: nat, notified: bool)    // epoll_wait returns
    | Serve(w: nat, c: nat, closes: bool)
    | Notice(w: nat)                  // the notifier's event is next in the batch
    | EndBatch(w: nat)
    | DrainSome(w: nat, n: nat)       // one read from the pipe
    | DrainEnd(w: nat)                // the read that finds it empty
    | Dequeue(w: nat)
    | Added(w: nat, ok: bool)

  function WorkerStep(k: Worker, step: Step): (r: (Worker, set<nat>))
  {
    match step
    case Poll(_, notified) =>
      // level-triggered: the notifier can be reported whenever the pipe holds a byte
      if k.pc.Waiting? && (notified ==> k.pipe > 0) then (k.(pc := Batch(notified)), {}) else (k, {})
    case Serve(_, c, closes) =>
      if k.pc.Batch? && c in k.registered && closes then (k.(registered := k.registered - {c}), {c}) else (k, {})
    case Notice(_) =>
      if k.pc == Batch(true) then (k.(pc := Draining), {}) else (k, {})
    case EndBatch(_) =>
      if k.pc == Batch(false) then (k.(pc := Waiting), {}) else (k, {})
    case DrainSome(_, n) =>
      if k.pc.Draining? && 0 < n <= k.pipe && n <= 64 then (k.(pipe := k.pipe - n), {}) else (k, {})
    case DrainEnd(_) =>
      if k.pc.Draining? && k.pipe == 0 then (k.(pc := Dequeuing), {}) else (k, {})
    case Dequeue(_) =>
      if !k.pc.Dequeuing? then (k, {})
      else if k.queue == [] then (k.(pc := Batch(false)), {})
      else (k.(queue := k.queue[1..], pc := Adding(k.queue[0]), taken := k.taken + [k.queue[0]]), {})
    case Added(_, ok) =>
      if !k.pc.Adding? then (k, {})
      else if ok then (k.(pc := Dequeuing, registered := k.registered + {k.pc.c}), {})
      else (k.(pc := Dequeuing), {k.pc.c})
    case _ => (k, {})
  }

  /** One step; a step that is not possible changes nothing.  The pipe holds at most `capacity` bytes. */
  function Next(capacity: nat, s: World, step: Step): World
  {
    match step
    case Accept =>
      if s.acceptor.Accepting? then s.(next := s.next + 1, acceptor := Holding(s.next)) else s
    case Refuse(counted) =>
      if s.acceptor.Holding?
      then s.(acceptor := Accepting, closed := s.closed + {s.acceptor.c},
              turn := if counted then s.turn + 1 else s.turn)
      else s
    case Enqueue =>
      if s.acceptor.Holding? && s.workers != [] then
        var w := s.turn % |s.workers|;
        var k := s.workers[w];
        s.(turn := s.turn + 1, acceptor := Waking(w), workers := s.workers[w := k.(queue := k.queue + [s.acceptor.c])])
      else s
    case Wake =>
      if s.acceptor.Waking? && s.acceptor.w < |s.workers| then
        var w := s.acceptor.w;
        var k := s.workers[w];
        // a full pipe refuses the byte, and that is as good as taking it
        s.(acceptor := Accepting, workers := s.workers[w := if k.pipe < capacity then k.(pipe := k.pipe + 1) else k])
      else s
    case _ =>
      if step.w < |s.workers| then
        var (k, gone) := WorkerStep(s.workers[step.w], step);
        s.(workers := s.workers[step.w := k], closed := s.closed + gone)
      else s
  }

  function Start(n: nat): World
  {
    World(0, 0, Accepting, seq(n, _ => Worker([], 0, Waiting, {}, [])), {})
  }

  function Run(capacity: nat, n: nat, steps: seq<Step>): World
  {
    if steps == [] then Start(n) else Next(capacity, Run(capacity, n, steps[..|steps| - 1]), steps[|steps| - 1])
  }

  // ---------------------------------------------------------------- no wake-up is lost

  /** A worker with a pending connection will come for it: it already has, or its pipe will wake it. */
  ghost predicate Attended(s: World, w: nat)
    requires w < |s.workers|
  {
    var k := s.workers[w];
    k.queue != [] ==> k.pipe > 0 || s.acceptor == Waking(w) || k.pc.Draining? || k.pc.Dequeuing? || k.pc.Adding?
  }

  ghost predicate NoLostWakeup(s: World)
  {
    && (s.acceptor.Waking? ==> s.acceptor.w < |s.workers|)
    && forall w :: 0 <= w < |s.workers| ==> Attended(s, w)
  }

  lemma StepKeepsWakeups(capacity: nat, s: World, step: Step)
    requires capacity > 0 && NoLostWakeup(s)
    ensures NoLostWakeup(Next(capacity, s, step))
  {
    var t := Next(capacity, s, step);
    forall w | 0 <= w < |t.workers|
      ensures Attended(t, w)
    {
      assert Attended(s, w);
    }
  }

  // ---------------------------------------------------------------- connections are conserved

  function One(b: bool): nat { if b then 1 else 0 }

  /** How often `c` occurs in a sequence. */
  function Times(c: nat, s: seq<nat>): nat { multiset(s)[c] }

  /** In how many places of a worker connection `c` is. */
  function PlacesIn(k: Worker, c: nat): nat
  {
    Times(c, k.queue) + One(k.pc == Adding(c)) + One(c in k.registered)
  }

  function PlacesInAll(ws: seq<Worker>, c: nat): nat
  {
    if ws == [] then 0 else PlacesInAll(ws[..|ws| - 1], c) + PlacesIn(ws[|ws| - 1], c)
  }

  /** In how many places connection `c` is: held by the acceptor, queued, held by a worker, registered, or closed. */
  function Places(s: World, c: nat): nat
  {
    One(s.acceptor == Holding(c)) + PlacesInAll(s.workers, c) + One(c in s.closed)
  }

  /** Every connection accepted so far is in exactly one place, and no other is anywhere. */
  ghost predicate Conserved(s: World)
  {
    forall c: nat :: Places(s, c) == One(c < s.next)
  }

  lemma {:induction false} PlacesUpdate(ws: seq<Worker>, w: nat, k: Worker, c: nat)
    requires w < |ws|
    ensures PlacesInAll(ws[w := k], c) + PlacesIn(ws[w], c) == PlacesInAll(ws, c) + PlacesIn(k, c)
    decreases |ws|
  {
    var n := |ws| - 1;
    if w < n {
      PlacesUpdate(ws[..n], w, k, c);
      assert ws[w := k][..n] == ws[..n][w := k];
    } else {
      assert ws[w := k][..n] == ws[..n];
    }
  }

  lemma {:induction false} PlacesInOne(ws: seq<Worker>, w: nat, c: nat)
    requires w < |ws|
    ensures PlacesIn(ws[w], c) <= PlacesInAll(ws, c)
    decreases |ws|
  {
    if w < |ws| - 1 {
      PlacesInOne(ws[..|ws| - 1], w, c);
    }
  }

  /** A worker's step moves a connection from one of its places to another or to the closed ones. */
  lemma WorkerStepMoves(k: Worker, step: Step, c: nat)
    requires PlacesIn(k, c) <= 1
    ensures var (k', gone) := WorkerStep(k, step); PlacesIn(k, c) == PlacesIn(k', c) + One(c in gone)
  {
    match step
    case Dequeue(_) =>
      if k.queue != [] {
        assert k.queue == [k.queue[0]] + k.queue[1..];
      }
    case _ =>
  }

  predicate OfAcceptor(step: Step)
  {
    step.Accept? || step.Refuse? || step.Enqueue? || step.Wake?
  }

  lemma OneMore(k: Worker, x: nat, c: nat)
    ensures PlacesIn(k.(queue := k.queue + [x]), c) == PlacesIn(k, c) + One(x == c)
  {
  }

  lemma EnqueueConserves(capacity: nat, s: World, c: nat)
    requires Places(s, c) == One(c < s.next)
    ensures Places(Next(capacity, s, Enqueue), c) == One(c < s.next)
  {
    if s.acceptor.Holding? && s.workers != [] {
      var w := s.turn % |s.workers|;
      var k := s.workers[w];
      OneMore(k, s.acceptor.c, c);
      PlacesUpdate(s.workers, w, k.(queue := k.queue + [s.acceptor.c]), c);
    }
  }

  lemma WakeConserves(capacity: nat, s: World, c: nat)
    requires Places(s, c) == One(c < s.next)
    ensures Places(Next(capacity, s, Wake), c) == One(c < s.next)
  {
    if s.acceptor.Waking? && s.acceptor.w < |s.workers| {
      var w := s.acceptor.w;
      PlacesUpdate(s.workers, w, Next(capacity, s, Wake).workers[w], c);
    }
  }

  lemma AcceptorConserves(capacity: nat, s: World, step: Step, c: nat)
    requires OfAcceptor(step) && Places(s, c) == One(c < s.next)
    ensures Places(Next(capacity, s, step), c) == One(c < Next(capacity, s, step).next)
  {
    match step
    case Enqueue => EnqueueConserves(capacity, s, c);
    case Wake => WakeConserves(capacity, s, c);
    case _ =>
  }

  lemma WorkerConserves(s: World, w: nat, step: Step, c: nat)
    requires w < |s.workers| && Places(s, c) == One(c < s.next)
    ensures var (k, gone) := WorkerStep(s.workers[w], step);
      Places(s.(workers := s.workers[w := k], closed := s.closed + gone), c) == One(c < s.next)
  {
    PlacesInOne(s.workers, w, c);
    WorkerStepMoves(s.workers[w], step, c);
    PlacesUpdate(s.workers, w, WorkerStep(s.workers[w], step).0, c);
  }

  lemma StepConserves(capacity: nat, s: World, step: Step, c: nat)
    requires Places(s, c) == One(c < s.next)
    ensures Places(Next(capacity, s, step), c) == One(c < Next(capacity, s, step).next)
  {
    if OfAcceptor(step) {
      AcceptorConserves(capacity, s, step, c);
    } else if step.w < |s.workers| {
      WorkerConserves(s, step.w, step, c);
    }
  }

  // ---------------------------------------------------------------- first accepted, first taken

  ghost predicate Ascending(s: seq<nat>)
  {
    forall i, j :: 0 <= i < j < |s| ==> s[i] < s[j]
  }

  /** What a worker has taken and what waits for it, together, are in the order of acceptance. */
  ghost predicate InOrder(s: World)
  {
    && (s.acceptor.Holding? ==> s.acceptor.c < s.next)
    && forall w :: 0 <= w < |s.workers| ==> WorkerInOrder(s, s.workers[w])
  }

  /** In order, and all below a bound. */
  ghost predicate InOrderBelow(all: seq<nat>, bound: nat)
  {
    Ascending(all) && forall i :: 0 <= i < |all| ==> all[i] < bound
  }

  /** Every connection that a worker has got is older than the one that the acceptor holds, or else than the next. */
  function Bound(s: World): nat { if s.acceptor.Holding? then s.acceptor.c else s.next }

  ghost predicate WorkerInOrder(s: World, k: Worker)
  {
    InOrderBelow(k.taken + k.queue, Bound(s))
  }

  lemma WorkerStepKeepsOrder(k: Worker, step: Step)
    ensures var k' := WorkerStep(k, step).0; k'.taken + k'.queue == k.taken + k.queue
  {
    if step.Dequeue? && k.queue != [] {
      assert k.taken + [k.queue[0]] + k.queue[1..] == k.taken + k.queue;
    }
  }

  lemma HigherBound(all: seq<nat>, bound: nat, higher: nat)
    requires InOrderBelow(all, bound) && bound <= higher
    ensures InOrderBelow(all, higher)
  {
  }

  lemma EnqueueKeepsOrder(k: Worker, c: nat, next: nat)
    requires InOrderBelow(k.taken + k.queue, c) && c < next
    ensures InOrderBelow(k.taken + (k.queue + [c]), next)
  {
    assert k.taken + (k.queue + [c]) == k.taken + k.queue + [c];
  }

  lemma StepKeepsOrder(capacity: nat, s: World, step: Step)
    requires InOrder(s)
    ensures InOrder(Next(capacity, s, step))
  {
    var t := Next(capacity, s, step);
    forall w | 0 <= w < |t.workers|
      ensures WorkerInOrder(t, t.workers[w])
    {
      assert WorkerInOrder(s, s.workers[w]);
      WorkerStaysInOrder(capacity, s, step, w);
    }
  }

  lemma WorkerStaysInOrder(capacity: nat, s: World, step: Step, w: nat)
    requires w < |s.workers| && WorkerInOrder(s, s.workers[w]) && (s.acceptor.Holding? ==> s.acceptor.c < s.next)
    ensures var t := Next(capacity, s, step); |t.workers| == |s.workers| && WorkerInOrder(t, t.workers[w])
  {
    var k := s.workers[w];
    if OfAcceptor(step) {
      HigherBound(k.taken + k.queue, Bound(s), s.next);
      if step.Enqueue? && s.acceptor.Holding? { EnqueueKeepsOrder(k, s.acceptor.c, s.next); }
    } else {
      WorkerStepKeepsOrder(k, step);
    }
  }

  // ---------------------------------------------------------------- workers take turns

  /** The connections that a worker has been given, in order. */
  function Line(k: Worker): seq<nat> { k.taken + k.queue }

  /** Worker `w` of `n` has been given every n-th connection from the w-th on, of the first `turn`. */
  ghost predicate Dealt(line: seq<nat>, n: nat, w: nat, turn: nat)
    requires n > 0
  {
    |line| == turn / n + One(w < turn % n) && forall j :: 0 <= j < |line| ==> line[j] == w + j * n
  }

  ghost predicate InTurn(s: World, n: nat)
    requires n > 0
  {
    && |s.workers| == n
    && (if s.acceptor.Holding? then s.acceptor.c == s.turn && s.next == s.turn + 1 else s.next == s.turn)
    && forall w :: 0 <= w < n ==> Dealt(Line(s.workers[w]), n, w, s.turn)
  }

  lemma NextTurn(n: nat, turn: nat)
    requires n > 0
    ensures var w := turn % n;
      if w + 1 < n then (turn + 1) / n == turn / n && (turn + 1) % n == w + 1
      else (turn + 1) / n == turn / n + 1 && (turn + 1) % n == 0
  {
    var q, w := turn / n, turn % n;
    assert turn == q * n + w;
    if w + 1 < n {
      DivIs(turn + 1, n, q, w + 1);
    } else {
      assert (q + 1) * n == q * n + n;
      DivIs(turn + 1, n, q + 1, 0);
    }
  }

  /** The worker whose turn it is gets the connection, and everyone else's share is as it was. */
  lemma DealtMore(line: seq<nat>, n: nat, w: nat, turn: nat)
    requires n > 0 && w < n && Dealt(line, n, w, turn)
    ensures w == turn % n ==> Dealt(line + [turn], n, w, turn + 1)
    ensures w != turn % n ==> Dealt(line, n, w, turn + 1)
  {
    NextTurn(n, turn);
    assert turn == turn / n * n + turn % n;
  }

  lemma StepKeepsTurns(capacity: nat, s: World, step: Step, n: nat)
    requires n > 0 && InTurn(s, n) && !step.Refuse?
    ensures InTurn(Next(capacity, s, step), n)
  {
    var t := Next(capacity, s, step);
    forall w | 0 <= w < n
      ensures Dealt(Line(t.workers[w]), n, w, t.turn)
    {
      var k := s.workers[w];
      if step.Enqueue? && s.acceptor.Holding? {
        DealtMore(Line(k), n, w, s.turn);
        assert k.taken + (k.queue + [s.turn]) == Line(k) + [s.turn];
      } else if !OfAcceptor(step) && step.w == w {
        WorkerStepKeepsOrder(k, step);
      }
    }
  }

  /**
    Connections go round the workers: if none is refused, the j-th connection of worker `w` of `n` is connection
    w + j * n, and no worker has been given more than one more than another.
  */
  lemma {:induction false} ConnectionsGoRound(capacity: nat, n: nat, steps: seq<Step>)
    requires n > 0 && forall i :: 0 <= i < |steps| ==> !steps[i].Refuse?
    ensures InTurn(Run(capacity, n, steps), n)
    decreases |steps|
  {
    if steps == [] {
      assert forall w :: 0 <= w < n ==> Line(Start(n).workers[w]) == [];
      DivIs(0, n, 0, 0);
    } else {
      ConnectionsGoRound(capacity, n, steps[..|steps| - 1]);
      StepKeepsTurns(capacity, Run(capacity, n, steps[..|steps| - 1]), steps[|steps| - 1], n);
    }
  }

  /** A turn is used up exactly by enqueuing and by a failure to enqueue, not by a connection refused before that. */
  lemma TurnMoves(capacity: nat, s: World, step: Step)
    requires s.workers != []
    ensures Next(capacity, s, step).turn
            == s.turn + One(s.acceptor.Holding? && (step == Enqueue || step == Refuse(true)))
  {
  }

  /**
    How a connection is closed or registered: it is closed if the acceptor refuses it, a worker cannot register it, or a
    call that serves it closes it; it is registered if the worker that holds it can register it.
  */
  lemma WhereConnectionsGo(capacity: nat, s: World, step: Step, c: nat, w: nat)
    requires w < |s.workers|
    ensures var t := Next(capacity, s, step);
      && |t.workers| == |s.workers|
      && (c !in s.closed ==> (c in t.closed <==>
            || (step.Refuse? && s.acceptor == Holding(c))
            || (step.Added? && step.w < |s.workers| && !step.ok && s.workers[step.w].pc == Adding(c))
            || (step.Serve? && step.w < |s.workers| && step.c == c && step.closes
                && s.workers[step.w].pc.Batch? && c in s.workers[step.w].registered)))
      && (c !in s.workers[w].registered ==>
            (c in t.workers[w].registered <==> step == Added(w, true) && s.workers[w].pc == Adding(c)))
  {
  }

  /**
    What becomes of a worker's wake-up bytes: only wake_worker adds one, and never beyond the capacity; only draining
    takes any, at most 64 at a time; it ends only when the pipe is empty, and begins only when the notifier was
    reported, which takes a byte in the pipe.  And a worker that dequeues goes on until its queue is empty.
  */
  lemma PipeMoves(capacity: nat, s: World, step: Step, w: nat)
    requires w < |s.workers|
    ensures var k, m := s.workers[w], Next(capacity, s, step).workers[w];
      && (m.pipe > k.pipe ==> step == Wake && s.acceptor == Waking(w) && m.pipe == k.pipe + 1 <= capacity)
      && (step == Wake && s.acceptor == Waking(w) && k.pipe < capacity ==> m.pipe == k.pipe + 1)
      && (m.pipe < k.pipe ==> k.pc.Draining? && k.pipe <= m.pipe + 64)
      && (k.pc.Draining? && !m.pc.Draining? ==> m.pc == Dequeuing && k.pipe == 0)
      && (m.pc.Draining? && !k.pc.Draining? ==> k.pc == Batch(true))
      && (m.pc == Batch(true) && k.pc != Batch(true) ==> k.pc == Waiting && k.pipe > 0)
      && (k.pc.Dequeuing? && !m.pc.Dequeuing?
          ==> m.pc == if k.queue == [] then Batch(false) else Adding(k.queue[0]))
  {
  }

  // ---------------------------------------------------------------- every reachable state

  ghost predicate Inv(s: World)
  {
    NoLostWakeup(s) && Conserved(s) && InOrder(s)
  }

  lemma {:induction false} NobodyAtStart(n: nat, c: nat)
    ensures PlacesInAll(seq(n, _ => Worker([], 0, Waiting, {}, [])), c) == 0
  {
    var k := Worker([], 0, Waiting, {}, []);
    if n > 0 {
      NobodyAtStart(n - 1, c);
      assert seq(n, _ => k)[..n - 1] == seq(n - 1, _ => k);
    }
  }

  /**
    In every interleaving of the acceptor and any number of workers: no wake-up is lost, every accepted connection
    is in exactly one place, and each worker takes its connections in the order of acceptance.
  */
  lemma {:induction false} EveryRunKeepsInv(capacity: nat, n: nat, steps: seq<Step>)
    requires capacity > 0
    ensures Inv(Run(capacity, n, steps))
    decreases |steps|
  {
    if steps == [] {
      forall c: nat
        ensures Places(Start(n), c) == 0
      {
        NobodyAtStart(n, c);
      }
    } else {
      var m := |steps| - 1;
      EveryRunKeepsInv(capacity, n, steps[..m]);
      var s := Run(capacity, n, steps[..m]);
      StepKeepsWakeups(capacity, s, steps[m]);
      StepKeepsOrder(capacity, s, steps[m]);
      forall c: nat
        ensures Places(Next(capacity, s, steps[m]), c) == One(c < Next(capacity, s, steps[m]).next)
      {
        StepConserves(capacity, s, steps[m], c);
      }
    }
  }

  // ---------------------------------------------------------------- pending connections are served

  /** The connection that the worker is given `q`-th waits in its queue. */
  predicate Pending(k: Worker, q: nat) { |k.taken| <= q < |k.taken| + |k.queue| }

  /** The connection that the worker is given `q`-th. */
  function InLine(k: Worker, q: nat): nat
    requires q < |k.taken| + |k.queue|
  {
    if q < |k.taken| then k.taken[q] else k.queue[q - |k.taken|]
  }

  /** A bound on the steps of its own after which the worker has taken connection `q`. */
  function Work(k: Worker, q: nat): nat
    requires |k.taken| <= q
  {
    var ahead := 2 * (q - |k.taken|);
    match k.pc
    case Dequeuing => ahead + 1
    case Adding(_) => ahead + 2
    case Draining => ahead + 2 + k.pipe
    case Batch(notified) => ahead + (if notified then 3 else 5) + k.pipe
    case Waiting => ahead + 4 + k.pipe
  }

  /** A step of worker `w` that does something about the hand-off. */
  predicate Progress(s: World, step: Step, w: nat)
    requires w < |s.workers|
  {
    && !OfAcceptor(step) && step.w == w && !step.Serve? && (step.Poll? ==> step.notified)
    && WorkerStep(s.workers[w], step).0 != s.workers[w]
  }

  /** One more byte in the pipe to drain, or an epoll_wait that does not report the notifier. */
  predicate Setback(s: World, step: Step, w: nat)
  {
    (step.Wake? && s.acceptor == Waking(w)) || (step.Poll? && step.w == w && !step.notified)
  }

  /** The connection is still the `q`-th in line. */
  predicate SameInLine(k: Worker, k': Worker, q: nat)
    requires Pending(k, q)
  {
    q < |k'.taken| + |k'.queue| && InLine(k', q) == InLine(k, q)
  }

  lemma OwnStepWorks(k: Worker, step: Step, q: nat)
    requires Pending(k, q) && !OfAcceptor(step)
    ensures var k' := WorkerStep(k, step).0;
      && SameInLine(k, k', q)
      && (q < |k'.taken| ||
          (&& Pending(k', q)
           && Work(k', q) <= Work(k, q) + One(step.Poll? && !step.notified)
           && (k' != k && !step.Serve? && (step.Poll? ==> step.notified) ==> Work(k', q) < Work(k, q))))
  {
  }

  lemma AcceptorStepWorks(capacity: nat, s: World, step: Step, w: nat, q: nat)
    requires w < |s.workers| && Pending(s.workers[w], q) && OfAcceptor(step)
    ensures var k, t := s.workers[w], Next(capacity, s, step);
      && |t.workers| == |s.workers|
      && var k' := t.workers[w];
        && SameInLine(k, k', q) && Pending(k', q)
        && Work(k', q) <= Work(k, q) + One(Setback(s, step, w))
  {
  }

  /** Any step of anyone: the connection is taken, or stays in line; progress shortens the work, setbacks add one. */
  lemma StepWorks(capacity: nat, s: World, step: Step, w: nat, q: nat)
    requires w < |s.workers| && Pending(s.workers[w], q)
    ensures var k, t := s.workers[w], Next(capacity, s, step);
      && |t.workers| == |s.workers|
      && var k' := t.workers[w];
         && SameInLine(k, k', q)
         && (q < |k'.taken| ||
             (Pending(k', q) && Work(k', q) + One(Progress(s, step, w)) <= Work(k, q) + One(Setback(s, step, w))))
  {
    if OfAcceptor(step) {
      AcceptorStepWorks(capacity, s, step, w, q);
    } else {
      OwnStepWorks(s.workers[w], step, q);
    }
  }

  /** A run on from any state. */
  function RunFrom(capacity: nat, s: World, steps: seq<Step>): World
    decreases |steps|
  {
    if steps == [] then s else RunFrom(capacity, Next(capacity, s, steps[0]), steps[1..])
  }

  lemma {:induction false} SameWorkers(capacity: nat, s: World, steps: seq<Step>)
    ensures |RunFrom(capacity, s, steps).workers| == |s.workers|
    decreases |steps|
  {
    if steps != [] {
      SameWorkers(capacity, Next(capacity, s, steps[0]), steps[1..]);
    }
  }

  /** How many steps of a run are progress for worker `w`, less its setbacks. */
  function Gain(capacity: nat, s: World, steps: seq<Step>, w: nat): int
    requires w < |s.workers|
    decreases |steps|
  {
    if steps == [] then 0
    else
      One(Progress(s, steps[0], w)) - One(Setback(s, steps[0], w))
        + Gain(capacity, Next(capacity, s, steps[0]), steps[1..], w)
  }

  lemma {:induction false} TakenStays(capacity: nat, s: World, steps: seq<Step>, w: nat, q: nat)
    requires w < |s.workers| && q < |s.workers[w].taken|
    ensures var t := RunFrom(capacity, s, steps);
      w < |t.workers| && q < |t.workers[w].taken| && t.workers[w].taken[q] == s.workers[w].taken[q]
    decreases |steps|
  {
    if steps != [] {
      TakenStays(capacity, Next(capacity, s, steps[0]), steps[1..], w, q);
    }
  }

  /** The run has brought the worker to take connection `q`, or has not yet gained what that takes. */
  ghost predicate Brought(s: World, t: World, w: nat, q: nat, gain: int)
    requires w < |s.workers| == |t.workers| && Pending(s.workers[w], q)
  {
    var k, k' := s.workers[w], t.workers[w];
    && SameInLine(k, k', q)
    && (q < |k'.taken| || (Pending(k', q) && gain + Work(k', q) <= Work(k, q)))
  }

  /**
    In every schedule of all threads, from any state: a pending connection is taken, as the one it is, once the worker
    has made as many steps of progress, not counting setbacks, as its work is.
  */
  lemma {:induction false} EveryScheduleServes(capacity: nat, s: World, steps: seq<Step>, w: nat, q: nat)
    requires w < |s.workers| && Pending(s.workers[w], q)
    ensures |RunFrom(capacity, s, steps).workers| == |s.workers|
    ensures Gain(capacity, s, steps, w) >= Work(s.workers[w], q) ==>
              var k' := RunFrom(capacity, s, steps).workers[w];
              q < |k'.taken| && k'.taken[q] == InLine(s.workers[w], q)
    ensures q < |RunFrom(capacity, s, steps).workers[w].taken|
            || Brought(s, RunFrom(capacity, s, steps), w, q, Gain(capacity, s, steps, w))
    decreases |steps|
  {
    SameWorkers(capacity, s, steps);
    if steps != [] {
      var t := Next(capacity, s, steps[0]);
      StepWorks(capacity, s, steps[0], w, q);
      if q < |t.workers[w].taken| {
        TakenStays(capacity, t, steps[1..], w, q);
      } else {
        EveryScheduleServes(capacity, t, steps[1..], w, q);
      }
    }
  }

  /** And a step of progress can always be made, or the acceptor is about to wake the worker. */
  lemma CanProgress(capacity: nat, n: nat, history: seq<Step>, w: nat) returns (step: Step)
    requires capacity > 0 && w < |Run(capacity, n, history).workers| && Run(capacity, n, history).workers[w].queue != []
    ensures var s := Run(capacity, n, history); s.acceptor == Waking(w) || Progress(s, step, w)
  {
    EveryRunKeepsInv(capacity, n, history);
    var s := Run(capacity, n, history);
    var k := s.workers[w];
    assert Attended(s, w);
    step := match k.pc
      case Waiting => Poll(w, true)
      case Batch(notified) => if notified then Notice(w) else EndBatch(w)
      case Draining => if k.pipe > 0 then DrainSome(w, 1) else DrainEnd(w)
      case Dequeuing => Dequeue(w)
      case Adding(_) => Added(w, true);
  }
}

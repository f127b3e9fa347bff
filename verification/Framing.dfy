/**
  What one connection of demo/service_provider/c/httpfs_server.c does with the bytes it receives: the incremental
  check connection_has_complete_request, the receive loop handle_client_event, and the buffer they grow.
*/
module Framing {
  import opened Base
  import opened CText

  /** SERVER_INITIAL_REQUEST_BUFFER_SIZE and SERVER_MAX_REQUEST_SIZE */
  const INITIAL: nat := 8192
  const MAX: nat := 8 * 1024 * 1024

  const BLANK_LINE: string := "\r\n\r\n"
  const CONTENT_LENGTH: string := "Content-Length:"

  /** The received bytes as strstr and strtol see them: up to the first NUL. */
  function CString(data: string): (t: string)
    ensures t <= data && forall k :: 0 <= k < |t| ==> t[k] != '\0'
  {
    NextIsFirst(data, '\0', 0);
    data[..Next(data, '\0', 0)]
  }

  // ---------------------------------------------------------------- the buffer's size

  function Pow2(k: nat): nat { if k == 0 then 1 else 2 * Pow2(k - 1) }

  /** 8192 times a power of two, and at most 8 MiB. */
  ghost predicate IsCapacity(c: nat) { c <= MAX && exists k: nat :: c == INITIAL * Pow2(k) }

  /** The loop of ensure_connection_capacity. */
  function Doubled(c: nat, required: nat): (r: nat)
    requires c > 0 && required <= MAX
    ensures c <= r && (c <= MAX ==> required <= r <= MAX)
    decreases MAX - c
  {
    if c >= required || c > MAX then c
    else if c >= MAX / 2 then MAX
    else Doubled(2 * c, required)
  }

  /** The capacity after ensure_connection_capacity, if it succeeds (it does when `required` is at most `MAX`). */
  function Grow(c: nat, required: nat): nat
  {
    if required <= c || required > MAX then c else Doubled(if c > 0 then c else INITIAL, required)
  }

  lemma {:induction false} LargeExponent(k: nat, n: nat)
    requires n <= k
    ensures Pow2(n) <= Pow2(k)
    decreases k
  {
    if n < k { LargeExponent(k - 1, n); }
  }

  lemma CapacityHalf(c: nat)
    requires IsCapacity(c) && MAX / 2 <= c
    ensures c == MAX / 2 || c == MAX
  {
    var k: nat :| c == INITIAL * Pow2(k);
    assert Pow2(9) == 512 && Pow2(10) == 1024 && Pow2(11) == 2048 && Pow2(8) == 256;
    if k >= 11 { LargeExponent(k, 11); }
    if k <= 8 { LargeExponent(8, k); }
  }

  /** Growth keeps the shape of the capacity and at least doubles it. */
  lemma {:induction false} DoubledIsCapacity(c: nat, required: nat)
    requires IsCapacity(c) && c > 0 && required <= MAX
    ensures var r := Doubled(c, required); IsCapacity(r) && (c < required ==> 2 * c <= r)
    decreases MAX - c
  {
    var k: nat :| c == INITIAL * Pow2(k);
    if c < required {
      assert 2 * c == INITIAL * Pow2(k + 1);
      if c >= MAX / 2 {
        CapacityHalf(c);
      } else {
        DoubledIsCapacity(2 * c, required);
      }
    }
  }

  lemma GrowIsCapacity(c: nat, required: nat)
    requires c == 0 || IsCapacity(c)
    requires c > 0 || 0 < required <= MAX
    ensures var r := Grow(c, required);
      IsCapacity(r) && c <= r && (required <= MAX ==> required <= r) && (r == c || 2 * c <= r)
  {
    if c == 0 {
      assert INITIAL == INITIAL * Pow2(0);
      DoubledIsCapacity(INITIAL, required);
    } else if c < required <= MAX {
      DoubledIsCapacity(c, required);
    }
  }

  /** It grows no further than it must: no capacity from `c` on that would do is smaller. */
  lemma {:induction false} DoubledIsLeast(c: nat, required: nat, k: nat)
    requires IsCapacity(c) && c > 0 && required <= MAX && IsCapacity(k) && c <= k && required <= k
    ensures Doubled(c, required) <= k
    decreases MAX - c
  {
    if c < required {
      NextCapacity(c, k);
      if c < MAX / 2 {
        CapacityTwice(c);
        DoubledIsLeast(2 * c, required, k);
      }
    }
  }

  lemma CapacityTwice(c: nat)
    requires IsCapacity(c) && 2 * c <= MAX
    ensures IsCapacity(2 * c)
  {
    var i: nat :| c == INITIAL * Pow2(i);
    assert 2 * c == INITIAL * Pow2(i + 1);
  }

  /** Between a capacity and its double there is none. */
  lemma NextCapacity(c: nat, k: nat)
    requires IsCapacity(c) && IsCapacity(k) && c < k
    ensures 2 * c <= k
  {
    var i: nat :| c == INITIAL * Pow2(i);
    var j: nat :| k == INITIAL * Pow2(j);
    if j <= i {
      LargeExponent(i, j);
    } else {
      LargeExponent(j, i + 1);
    }
  }

  lemma GrowIsLeast(c: nat, required: nat, k: nat)
    requires IsCapacity(c) && c > 0 && IsCapacity(k) && c <= k && required <= k
    ensures Grow(c, required) <= k
  {
    if c < required {
      DoubledIsLeast(c, required, k);
    }
  }

  // ---------------------------------------------------------------- the incremental check

  /** A connection: the bytes received, the buffer's size, and what the header said once it was complete. */
  datatype Conn = Conn(data: string, capacity: nat, headerBytes: nat, contentLength: int)

  datatype Verdict = More | Complete | Invalid | TooLarge

  /** The Content-Length as the check reads it from a text whose header ends at `headerEnd`. */
  function LengthIn(text: string, headerEnd: nat): (n: int)
    ensures LLONG_MIN <= n <= LLONG_MAX
  {
    var p := Find(text, CONTENT_LENGTH, 0);
    if 0 <= p < headerEnd then Strtoll(text[p + |CONTENT_LENGTH|..]).0 else 0
  }

  /** The part of connection_has_complete_request that looks for the end of the header. */
  function Scan(c: Conn): Conn
  {
    var text := CString(c.data);
    var end := Find(text, BLANK_LINE, 0);
    if c.headerBytes != 0 || end < 0 then c
    else c.(headerBytes := end + 4, contentLength := LengthIn(text, end))
  }

  /** The length is known to be good once the header is complete; a connection with a bad one is closed at once. */
  predicate Sane(c: Conn) { c.headerBytes == 0 || c.contentLength >= 0 }

  /** The rest of it: is the request complete, and does the buffer have to grow for it? */
  function Settle(d: Conn, scanned: bool): (r: (Conn, Verdict))
    requires scanned || Sane(d)
    ensures r.1 != Invalid ==> Sane(r.0)
  {
    if d.headerBytes == 0 then (d, More)
    else if scanned && d.contentLength < 0 then (d, Invalid)
    else
      var total := d.headerBytes + d.contentLength;
      if total + 1 > MAX then (d, TooLarge)
      else (d.(capacity := Grow(d.capacity, total + 1)), if |d.data| >= total then Complete else More)
  }

  /** connection_has_complete_request */
  function Check(c: Conn): (r: (Conn, Verdict))
    requires Sane(c)
    ensures r.1 != Invalid ==> Sane(r.0)
  {
    Settle(Scan(c), c.headerBytes == 0)
  }

  // ---------------------------------------------------------------- the receive loop

  /** The growth before a recv into a full buffer. */
  function Widened(c: Conn): Conn
  {
    if c.capacity <= |c.data| + 1
    then c.(capacity := Grow(c.capacity, if 2 * c.capacity > MAX then MAX else 2 * c.capacity))
    else c
  }

  /** What a recv reports: up to `n` + 1 of the waiting bytes (EAGAIN if none wait), or something else. */
  datatype Recv = Bytes(n: nat) | Eof | Interrupted | Again | Failed

  /** How a call of handle_client_event ends. */
  datatype Result = Waiting | Dispatched | Refused(reason: Verdict) | Closed

  /** The number of bytes that a recv delivers from those waiting, with this much room. */
  function Delivered(n: nat, waiting: nat, room: nat): (k: nat)
    ensures k <= waiting && k <= room && (k == 0 <==> waiting == 0 || room == 0)
  {
    Min(Min(n + 1, waiting), room)
  }

  /** Room for bytes in the buffer, keeping one for the terminator. */
  function Space(c: Conn): nat { if c.capacity > |c.data| then c.capacity - |c.data| - 1 else 0 }

  /** Whether the receive loop goes on. */
  datatype Progress = Continue | End(result: Result)

  /** One round of the receive loop: grow, receive, check. */
  function Round(c: Conn, waiting: string, r: Recv): (out: (Conn, string, Progress))
    requires Sane(c)
    ensures out.2 == Continue || out.2 == End(Waiting) ==> Sane(out.0)
  {
    var w := Widened(c);
    match r
    case Eof => (w, waiting, End(Closed))
    case Failed => (w, waiting, End(Closed))
    case Again => (w, waiting, End(Waiting))
    case Interrupted => (w, waiting, Continue)
    case Bytes(n) => RoundBytes(w, waiting, n)
  }

  function RoundBytes(w: Conn, waiting: string, n: nat): (out: (Conn, string, Progress))
    requires Sane(w)
    ensures out.2 == Continue || out.2 == End(Waiting) ==> Sane(out.0)
  {
    var k := Delivered(n, |waiting|, Space(w));
    if Space(w) == 0 then (w, waiting, End(Closed))
    else if k == 0 then (w, waiting, End(Waiting))
    else
      var (d, progress) := Accept(w, waiting[..k]);
      (d, waiting[k..], progress)
  }

  /** The check after `d` has been received. */
  function Accept(w: Conn, d: string): (r: (Conn, Progress))
    requires Sane(w)
    ensures r.1 == Continue ==> Sane(r.0)
    ensures r.1 != End(Waiting)
  {
    var (c, verdict) := Check(w.(data := w.data + d));
    (c, After(verdict))
  }

  function After(verdict: Verdict): Progress
  {
    match verdict
    case More => Continue
    case Complete => End(Dispatched)
    case _ => End(Refused(verdict))
  }

  /** handle_client_event without hang-up, over a script of recv results (an exhausted script reports EAGAIN). */
  function Handle(c: Conn, waiting: string, script: seq<Recv>): (r: (Conn, string, Result))
    requires Sane(c)
    ensures r.2 == Waiting ==> Sane(r.0)
    decreases |script|
  {
    var (d, rest, progress) := Round(c, waiting, if script == [] then Again else script[0]);
    if progress.End? then (d, rest, progress.result)
    else if script == [] then (d, rest, Waiting)
    else Handle(d, rest, script[1..])
  }

  // ---------------------------------------------------------------- one request

  /** `h` is a header: no NUL in it, and its only blank line ends it. */
  ghost predicate IsHeader(h: string)
  {
    && (forall k :: 0 <= k < |h| ==> h[k] != '\0')
    && |h| >= 4 && At(h, BLANK_LINE, |h| - 4) && forall j: nat :: j < |h| - 4 ==> !At(h, BLANK_LINE, j)
  }

  /** The length of the body that a header announces. */
  function Declared(h: string): int
  {
    if |h| >= 4 then LengthIn(h, |h| - 4) else 0
  }

  /** A stream that holds exactly one request and fits the size limit. */
  ghost predicate OneRequest(h: string, b: string)
  {
    IsHeader(h) && |b| == Declared(h) && |h| + |b| + 1 <= MAX
  }

  lemma PrefixChar(t: string, h: string, i: nat, n: nat)
    requires h <= t && i + n <= |h|
    ensures t[i..i + n] == h[i..i + n]
  {
    assert t[..|h|] == h;
    assert t[..|h|][i..i + n] == t[i..i + n];
  }

  lemma AtPrefix(t: string, h: string, pat: string, i: nat)
    requires h <= t && i + |pat| <= |h|
    ensures At(t, pat, i) <==> At(h, pat, i)
  {
    PrefixChar(t, h, i, |pat|);
  }

  /** Before the header is complete no blank line is seen. */
  lemma NotYet(h: string, p: string)
    requires IsHeader(h) && p <= h && |p| < |h|
    ensures Find(CString(p), BLANK_LINE, 0) == -1
  {
    var t := CString(p);
    if Find(t, BLANK_LINE, 0) >= 0 {
      AtPrefix(h, t, BLANK_LINE, Find(t, BLANK_LINE, 0));
    }
  }

  lemma NulFreePrefix(h: string, p: string)
    requires (forall k :: 0 <= k < |h| ==> h[k] != '\0') && h <= p
    ensures h <= CString(p)
  {
    assert forall k :: 0 <= k < |h| ==> p[k] == h[k];
  }

  /** What is found in a text is found in every longer one. */
  lemma SameFound(h: string, t: string, pat: string, from: nat)
    requires h <= t && from <= |h| && Find(h, pat, from) >= 0
    ensures Find(t, pat, from) == Find(h, pat, from)
  {
    var p := Find(h, pat, from);
    AtPrefix(t, h, pat, p);
    forall j: nat | from <= j < p
      ensures !At(t, pat, j)
    {
      FindIsFirst(h, pat, from, j);
      AtPrefix(t, h, pat, j);
    }
    FirstMatchIsFound(t, pat, from, p);
  }

  /** Once it is complete, its end is found, whatever follows. */
  lemma EndFound(h: string, t: string)
    requires IsHeader(h) && h <= t
    ensures Find(t, BLANK_LINE, 0) == |h| - 4
  {
    FirstMatchIsFound(h, BLANK_LINE, 0, |h| - 4);
    SameFound(h, t, BLANK_LINE, 0);
  }

  lemma PatternHasNoCr(t: string, j: nat, k: nat)
    requires At(t, CONTENT_LENGTH, j) && j <= k < j + 15
    ensures t[k] != '\r'
  {
    assert t[k] == t[j..j + 15][k - j] == CONTENT_LENGTH[k - j];
  }

  /** A Content-Length that starts before the blank line ends before it. */
  lemma NoStraddle(h: string, t: string, j: nat)
    requires IsHeader(h) && h <= t && j < |h| - 4 && At(t, CONTENT_LENGTH, j)
    ensures j + 15 <= |h| - 4 && At(h, CONTENT_LENGTH, j)
  {
    var e := |h| - 4;
    assert t[e] == h[e] == h[e..e + 4][0] == '\r';
    if j + 15 > e {
      PatternHasNoCr(t, j, e);
    }
    AtPrefix(t, h, CONTENT_LENGTH, j);
  }

  /** Both texts have the same Content-Length in their header, or none. */
  lemma SameFind(h: string, t: string)
    requires IsHeader(h) && h <= t
    ensures var p, q, e := Find(h, CONTENT_LENGTH, 0), Find(t, CONTENT_LENGTH, 0), |h| - 4;
      (0 <= p < e <==> 0 <= q < e) && (0 <= p < e ==> p == q && p + 15 <= e)
  {
    var p, q, e := Find(h, CONTENT_LENGTH, 0), Find(t, CONTENT_LENGTH, 0), |h| - 4;
    if 0 <= q < e {
      NoStraddle(h, t, q);
      FoundBy(h, CONTENT_LENGTH, 0, q);
    }
    if 0 <= p < e {
      NoStraddle(h, h, p);
      SameFound(h, t, CONTENT_LENGTH, 0);
    }
  }

  /** The number after white space, with its sign. */
  function SignedAt(t: string, i: nat): (int, nat)
    requires i < |t|
  {
    if t[i] == '-' then Number(t, i + 1, true)
    else if t[i] == '+' then Number(t, i + 1, false)
    else Number(t, i, false)
  }

  lemma StrtollIs(t: string, i: nat)
    requires i < |t| && IsSpan(t, 0, IsSpace, i)
    ensures Strtoll(t) == SignedAt(t, i)
  {
    SpanIs(t, 0, IsSpace, i);
  }

  lemma SpanContinues(u: string, t: string, i: nat)
    requires u <= t && i < |u| && IsSpan(u, 0, IsSpace, i)
    ensures IsSpan(t, 0, IsSpace, i) && t[i] == u[i]
  {
    assert forall k :: 0 <= k < |u| ==> t[k] == u[k];
  }

  lemma SignedStops(u: string, t: string, i: nat)
    requires u <= t && i < |u| - 1 && u[|u| - 1] == '\n' && t[i] == u[i]
    ensures SignedAt(t, i).0 == SignedAt(u, i).0
  {
    NumberStops(u, t, i, false);
    NumberStops(u, t, i + 1, true);
    NumberStops(u, t, i + 1, false);
  }

  /** Where strtol stops: a text with something other than white space, ended by a newline, is all it needs. */
  lemma StrtollStops(u: string, v: string, i: nat)
    requires i < |u| && IsSpan(u, 0, IsSpace, i) && u[|u| - 1] == '\n'
    ensures Strtoll(u + v).0 == Strtoll(u).0
  {
    var t := u + v;
    SpanContinues(u, t, i);
    StrtollIs(u, i);
    StrtollIs(t, i);
    SignedStops(u, t, i);
  }

  lemma {:induction false} SpanStops(u: string, t: string, j: nat)
    requires u <= t && j < |u| && !IsDigit(u[|u| - 1])
    ensures Span(t, j, IsDigit) == Span(u, j, IsDigit) && j + Span(u, j, IsDigit) < |u|
    decreases |u| - j
  {
    assert t[j] == u[j];
    if IsDigit(u[j]) {
      SpanStops(u, t, j + 1);
    }
  }

  lemma NumberStops(u: string, t: string, j: nat, negative: bool)
    requires u <= t && j < |u| && !IsDigit(u[|u| - 1])
    ensures Number(t, j, negative) == Number(u, j, negative)
  {
    SpanStops(u, t, j);
    PrefixChar(t, u, j, Span(u, j, IsDigit));
  }

  lemma {:induction false} SpanExists(t: string, i: nat)
    requires i <= |t|
    ensures IsSpan(t, i, IsSpace, Span(t, i, IsSpace))
    decreases |t| - i
  {
    if i < |t| && IsSpace(t[i]) {
      SpanExists(t, i + 1);
    }
  }

  /** What strtol reads of the rest of a header, when a body follows it. */
  lemma StrtollInHeader(u: string, v: string)
    requires u != "" && u[|u| - 1] == '\n'
    ensures v == "" || Strtoll(u).0 != 0 ==> Strtoll(u + v).0 == Strtoll(u).0
  {
    if v == "" {
      assert u + v == u;
    } else {
      var i := Span(u, 0, IsSpace);
      SpanExists(u, 0);
      if i < |u| {
        StrtollStops(u, v, i);
      }
    }
  }

  /** The announced length is the same whatever part of the body has arrived. */
  lemma SameLength(h: string, b: string, t: string)
    requires IsHeader(h) && |b| == Declared(h) && h <= t <= h + b
    ensures LengthIn(t, |h| - 4) == Declared(h)
  {
    SameFind(h, t);
    var p := Find(h, CONTENT_LENGTH, 0);
    if 0 <= p < |h| - 4 {
      RestOfHeader(h, t, p + 15);
      StrtollInHeader(h[p + 15..], t[|h|..]);
      assert |t[|h|..]| <= |b|;
    }
  }

  lemma RestOfHeader(h: string, t: string, k: nat)
    requires IsHeader(h) && h <= t && k <= |h| - 4
    ensures t[k..] == h[k..] + t[|h|..] && h[k..] != "" && h[k..][|h| - k - 1] == '\n'
  {
    assert t == h + t[|h|..];
    assert h[|h| - 1] == h[|h| - 4..|h| - 4 + 4][3] == '\n';
  }

  // ---------------------------------------------------------------- any stream that begins with a header

  /** The value of the first length field of the header, if it has one, is not blank. */
  ghost predicate Definite(h: string)
  {
    var p := Find(h, CONTENT_LENGTH, 0);
    0 <= p < |h| - 4 ==> exists i :: p + 15 <= i < |h| && !IsSpace(h[i])
  }

  /** The stream begins with the header, which announces this length whatever part of the rest has arrived with it. */
  ghost predicate Announced(h: string, s: string, n: int)
  {
    IsHeader(h) && h <= s && forall t {:trigger LengthIn(t, |h| - 4)} :: h <= t <= s ==> LengthIn(t, |h| - 4) == n
  }

  /** That is so of every header whose length field is not blank, whatever follows it. */
  lemma DefiniteIsAnnounced(h: string, s: string)
    requires IsHeader(h) && h <= s && Definite(h)
    ensures Announced(h, s, Declared(h))
  {
    forall t {:trigger LengthIn(t, |h| - 4)} | h <= t <= s
      ensures LengthIn(t, |h| - 4) == Declared(h)
    {
      DefiniteLength(h, t);
    }
  }

  lemma DefiniteLength(h: string, t: string)
    requires IsHeader(h) && h <= t && Definite(h)
    ensures LengthIn(t, |h| - 4) == Declared(h)
  {
    SameFind(h, t);
    var p := Find(h, CONTENT_LENGTH, 0);
    if 0 <= p < |h| - 4 {
      RestOfHeader(h, t, p + 15);
      NotBlank(h[p + 15..], t[|h|..]);
    }
  }

  /** A length other than zero cannot come from a blank field. */
  lemma NonZeroIsDefinite(h: string)
    requires IsHeader(h) && Declared(h) != 0
    ensures Definite(h)
  {
    var p := Find(h, CONTENT_LENGTH, 0);
    if forall i :: p + 15 <= i < |h| ==> IsSpace(h[i]) {
      NoStraddle(h, h, p);
      BlankIsZero(h[p + 15..]);
    }
  }

  lemma BlankIsZero(u: string)
    requires forall i :: 0 <= i < |u| ==> IsSpace(u[i])
    ensures Strtoll(u).0 == 0
  {
    SpanIs(u, 0, IsSpace, |u|);
  }

  lemma NotBlank(u: string, v: string)
    requires u != "" && u[|u| - 1] == '\n' && exists i :: 0 <= i < |u| && !IsSpace(u[i])
    ensures Strtoll(u + v).0 == Strtoll(u).0
  {
    var i := Span(u, 0, IsSpace);
    SpanExists(u, 0);
    StrtollStops(u, v, i);
  }

  /** And of the header of one request. */
  lemma OneIsAnnounced(h: string, b: string)
    requires OneRequest(h, b)
    ensures Announced(h, h + b, |b|)
  {
    forall t {:trigger LengthIn(t, |h| - 4)} | h <= t <= h + b
      ensures LengthIn(t, |h| - 4) == |b|
    {
      SameLength(h, b, t);
    }
  }

  /** What is to become of a request with this header and this announced length. */
  function Fate(h: string, n: int): Verdict
  {
    if n < 0 then Invalid else if |h| + n >= 8388608 then TooLarge else Complete
  }

  /** The number of bytes that have to be there for it. */
  function Needed(h: string, n: int): nat { if Fate(h, n) == Complete then |h| + n else |h| }

  function ResultOf(v: Verdict): Result { if v == Complete then Dispatched else Refused(v) }

  /** What the connection knows of the request as long as that is not decided. */
  ghost predicate Follows(c: Conn, h: string, s: string, n: int)
  {
    && c.data <= s && IsCapacity(c.capacity) && |c.data| < c.capacity && |c.data| < Needed(h, n)
    && (|c.data| < |h| ==> c.headerBytes == 0)
    && (|c.data| >= |h| ==> c.headerBytes == |h| && c.contentLength == n)
  }

  /** It is decided as it is to be. */
  ghost predicate Decided(c: Conn, h: string, s: string, n: int, result: Result)
  {
    c.data <= s && |c.data| >= Needed(h, n) && result == ResultOf(Fate(h, n))
  }

  /** The header fields after the check, wherever the last recv ended. */
  lemma ScanStream(h: string, s: string, n: int, c: Conn)
    requires Announced(h, s, n) && c.data <= s
    requires c.headerBytes == 0 || (c.headerBytes == |h| <= |c.data| && c.contentLength == n)
    ensures var d := Scan(c);
      && d == c.(headerBytes := d.headerBytes, contentLength := d.contentLength)
      && (|c.data| < |h| ==> d.headerBytes == 0)
      && (|c.data| >= |h| ==> d.headerBytes == |h| && d.contentLength == n)
  {
    assert s[..|h|] == h;
    if |c.data| < |h| {
      assert c.data == s[..|c.data|] == h[..|c.data|];
      NotYet(h, c.data);
    } else if c.headerBytes == 0 {
      assert h <= c.data by { assert c.data == s[..|c.data|]; }
      NulFreePrefix(h, c.data);
      var t := CString(c.data);
      assert t <= s by { assert c.data == s[..|c.data|]; }
      EndFound(h, t);
    }
  }

  lemma SettleStream(h: string, s: string, n: int, d: Conn, scanned: bool)
    requires d.data <= s && IsCapacity(d.capacity) && |d.data| < d.capacity && |h| > 0 && (scanned || Sane(d))
    requires |d.data| < |h| ==> d.headerBytes == 0
    requires |d.data| >= |h| ==> d.headerBytes == |h| && d.contentLength == n
    ensures var (e, verdict) := Settle(d, scanned);
      && e == d.(capacity := e.capacity) && verdict == (if |d.data| < Needed(h, n) then More else Fate(h, n))
      && (verdict == More ==> Follows(e, h, s, n))
      && (|d.data| >= |h| && (verdict == More || verdict == Complete) ==> |h| + n < e.capacity)
  {
    if |d.data| >= |h| && Fate(h, n) == Complete {
      GrowIsCapacity(d.capacity, |h| + n + 1);
    }
  }

  /**
    The check after a recv: More as long as the header or the announced body is not complete, and then what is to become
    of the request.  Once the header is complete the buffer has room for all of a request that is not refused.
  */
  lemma CheckStream(h: string, s: string, n: int, c: Conn)
    requires Announced(h, s, n) && c.data <= s && IsCapacity(c.capacity) && |c.data| < c.capacity && Sane(c)
    requires c.headerBytes == 0 || (c.headerBytes == |h| <= |c.data| && c.contentLength == n)
    ensures var (d, verdict) := Check(c);
      && d.data == c.data && verdict == (if |c.data| < Needed(h, n) then More else Fate(h, n))
      && (verdict == More ==> Follows(d, h, s, n))
      && (|c.data| >= |h| && (verdict == More || verdict == Complete) ==> |h| + n < d.capacity)
  {
    ScanStream(h, s, n, c);
    SettleStream(h, s, n, Scan(c), c.headerBytes == 0);
  }

  lemma WidenedFollows(h: string, s: string, n: int, c: Conn)
    requires |h| < MAX && Follows(c, h, s, n)
    ensures Follows(Widened(c), h, s, n) && Space(Widened(c)) > 0
    ensures Widened(c) == c.(capacity := Widened(c).capacity)
  {
    if c.capacity <= |c.data| + 1 {
      GrowIsCapacity(c.capacity, if 2 * c.capacity > MAX then MAX else 2 * c.capacity);
    }
  }

  predicate Quiet(script: seq<Recv>)
  {
    forall i :: 0 <= i < |script| ==> script[i] != Eof && script[i] != Failed
  }

  /** One recv that delivers something. */
  lemma ReceiveStream(h: string, s: string, n: int, w: Conn, waiting: string, k: nat)
    requires Announced(h, s, n) && Follows(w, h, s, n) && w.data + waiting <= s
    requires 0 < k <= |waiting| && k <= Space(w)
    ensures Sane(w)
    ensures var (d, progress) := Accept(w, waiting[..k]);
      && d.data + waiting[k..] == w.data + waiting
      && if progress == Continue then Follows(d, h, s, n) else Decided(d, h, s, n, progress.result)
  {
    var e := w.(data := w.data + waiting[..k]);
    assert e.data + waiting[k..] == w.data + waiting;
    assert e.data <= s;
    CheckStream(h, s, n, e);
  }

  /** One round of the receive loop, whatever recv reports: nothing is lost, and it is closed by the kernel only. */
  lemma RoundStream(h: string, s: string, n: int, c: Conn, waiting: string, r: Recv)
    requires Announced(h, s, n) && |h| < MAX && Follows(c, h, s, n) && c.data + waiting <= s
    ensures Sane(c)
    ensures var (d, rest, progress) := Round(c, waiting, r);
      && d.data + rest == c.data + waiting
      && (r == Eof || r == Failed <==> progress == End(Closed))
      && if progress in {Continue, End(Waiting), End(Closed)} then Follows(d, h, s, n)
         else Decided(d, h, s, n, progress.result)
  {
    var w := Widened(c);
    WidenedFollows(h, s, n, c);
    if r.Bytes? {
      var k := Delivered(r.n, |waiting|, Space(w));
      if k > 0 {
        ReceiveStream(h, s, n, w, waiting, k);
      }
    }
  }

  /** How a call leaves the connection: waiting, closed if the kernel says so, or decided. */
  ghost predicate Ends(d: Conn, rest: string, result: Result, h: string, s: string, n: int, quiet: bool)
  {
    if result == Waiting || result == Closed then Follows(d, h, s, n) && (quiet ==> result == Waiting)
    else Decided(d, h, s, n, result)
  }

  /** One call of handle_client_event, however the kernel cuts the bytes. */
  lemma {:induction false} HandleStream(h: string, s: string, n: int, c: Conn, waiting: string, script: seq<Recv>)
    requires Announced(h, s, n) && |h| < MAX && Follows(c, h, s, n) && c.data + waiting <= s
    ensures Sane(c)
    ensures var (d, rest, result) := Handle(c, waiting, script);
      d.data + rest == c.data + waiting && Ends(d, rest, result, h, s, n, Quiet(script))
    decreases |script|
  {
    var r := if script == [] then Again else script[0];
    RoundStream(h, s, n, c, waiting, r);
    var (d, rest, progress) := Round(c, waiting, r);
    if progress == Continue && script != [] {
      HandleStream(h, s, n, d, rest, script[1..]);
    }
  }

  // ---------------------------------------------------------------- whole runs

  /** An epoll event: the bytes that arrived since the last one, and what recv reports. */
  datatype Event = Event(arrived: string, script: seq<Recv>)

  /** A connection's life over its epoll events: it ends with the first call that does not leave it waiting. */
  function Run(c: Conn, waiting: string, events: seq<Event>): (Conn, string, Result)
    requires Sane(c)
    decreases |events|
  {
    if events == [] then (c, waiting, Waiting)
    else
      var (d, rest, result) := Handle(c, waiting + events[0].arrived, events[0].script);
      if result == Waiting then Run(d, rest, events[1..]) else (d, rest, result)
  }

  function Arrived(events: seq<Event>): string
  {
    if events == [] then "" else events[0].arrived + Arrived(events[1..])
  }

  /** add_client_to_worker */
  const START: Conn := Conn("", INITIAL, 0, -1)

  predicate AllQuiet(events: seq<Event>) { forall i :: 0 <= i < |events| ==> Quiet(events[i].script) }

  lemma {:induction false} RunStream(h: string, s: string, n: int, c: Conn, waiting: string, events: seq<Event>)
    requires Announced(h, s, n) && |h| < MAX && Follows(c, h, s, n) && c.data + waiting + Arrived(events) <= s
    ensures Sane(c)
    ensures var (d, rest, result) := Run(c, waiting, events);
      && Ends(d, rest, result, h, s, n, AllQuiet(events))
      && (result == Waiting ==> d.data + rest == c.data + waiting + Arrived(events))
    decreases |events|
  {
    if events == [] {
      assert c.data + waiting + "" == c.data + waiting;
    } else {
      var now, later := waiting + events[0].arrived, Arrived(events[1..]);
      Regrouped(c.data, waiting, events[0].arrived, later, s);
      HandleStream(h, s, n, c, now, events[0].script);
      var (d, rest, result) := Handle(c, now, events[0].script);
      if result == Waiting {
        RunStream(h, s, n, d, rest, events[1..]);
      }
    }
  }

  lemma Regrouped(a: string, b: string, c: string, d: string, s: string)
    ensures a + b + (c + d) == a + (b + c) + d
    ensures a + (b + c) + d <= s ==> a + (b + c) <= s
  {
  }

  /**
    What becomes of any stream that begins with a header of less than 8 MiB, however it is cut into arrivals, epoll
    events and recv results.  As long as less than the bytes needed are received the connection waits, with nothing lost
    (or is closed, if recv reports the end or an error); with them it is refused as invalid exactly if the announced
    length is negative, refused as too large exactly if header, body and terminator exceed 8 MiB, and otherwise
    dispatched.
  */
  lemma EveryStream(h: string, s: string, n: int, c: Conn, events: seq<Event>)
    requires Announced(h, s, n) && |h| < 8388608 && Arrived(events) == s && c == START
    ensures var (d, rest, result) := Run(c, "", events);
      && d.data <= s
      && if |d.data| < Needed(h, n)
         then (result == Waiting && d.data + rest == s) || (result == Closed && !AllQuiet(events))
         else result == if n < 0 then Refused(Invalid)
                        else if |h| + n + 1 > 8388608 then Refused(TooLarge)
                        else Dispatched
  {
    StartFollows(h, s, n);
    RunFromEmpty(h, s, n, c, events);
  }

  lemma StartFollows(h: string, s: string, n: int)
    requires IsHeader(h)
    ensures Follows(START, h, s, n)
  {
    assert INITIAL == INITIAL * Pow2(0);
  }

  lemma RunFromEmpty(h: string, s: string, n: int, c: Conn, events: seq<Event>)
    requires Announced(h, s, n) && |h| < MAX && Arrived(events) == s && c.data == "" && Follows(c, h, s, n)
    ensures Sane(c)
    ensures var (d, rest, result) := Run(c, "", events);
      Ends(d, rest, result, h, s, n, AllQuiet(events)) && (result == Waiting ==> d.data + rest == s)
  {
    var none := "";
    assert c.data + none + Arrived(events) == s;
    RunStream(h, s, n, c, none, events);
  }

  /**
    Framing does not depend on fragmentation: however one request is cut into arrivals, epoll events and recv results,
    it is dispatched as a whole; and it has been once all of it has arrived and nothing waits in the kernel.
  */
  lemma FramingIgnoresFragmentation(h: string, b: string, c: Conn, events: seq<Event>)
    requires OneRequest(h, b) && Arrived(events) == h + b && c == START
    requires forall i :: 0 <= i < |events| ==> Quiet(events[i].script)
    ensures var (d, rest, result) := Run(c, "", events);
      (result == Dispatched && d.data == h + b) || (result == Waiting && rest != "" && d.data + rest == h + b)
  {
    OneIsAnnounced(h, b);
    EveryStream(h, h + b, |b|, c, events);
    var (d, rest, result) := Run(c, "", events);
    assert rest == "" ==> d.data + rest == d.data;
  }

  // ---------------------------------------------------------------- what the kernel reports

  /** A recv that reports the end of the stream or an error closes the connection, EAGAIN leaves it as it is. */
  lemma {:induction false} KernelDecides(c: Conn, waiting: string, script: seq<Recv>, k: nat)
    requires Bounded(c) && k < |script| && forall i :: 0 <= i < k ==> script[i] == Interrupted
    ensures var (d, rest, result) := Handle(c, waiting, script);
      script[k] in {Eof, Failed, Again} ==>
        d.data == c.data && rest == waiting && result == if script[k] == Again then Waiting else Closed
    decreases k
  {
    WidenedBounded(c);
    if k > 0 {
      KernelDecides(Widened(c), waiting, script[1..], k - 1);
    }
  }

  /** With 8 MiB less one received and no end of a header in sight, there is no room for a recv: it is closed. */
  lemma FullBufferCloses(c: Conn, waiting: string, n: nat, script: seq<Recv>)
    requires Bounded(c) && |c.data| + 1 == 8388608
    ensures Handle(c, waiting, [Bytes(n)] + script).2 == Closed
  {
    WidenedBounded(c);
  }

  // ---------------------------------------------------------------- bounds, for any bytes

  /** The bounds of the buffer, whatever arrives. */
  ghost predicate Bounded(c: Conn)
  {
    && IsCapacity(c.capacity) && |c.data| < c.capacity
    && Sane(c) && c.headerBytes <= |c.data| && c.contentLength <= LLONG_MAX
  }

  lemma SettleBounded(d: Conn, scanned: bool)
    requires IsCapacity(d.capacity) && |d.data| < d.capacity && d.headerBytes <= |d.data|
             && d.contentLength <= LLONG_MAX
    requires scanned || Sane(d)
    ensures var (e, verdict) := Settle(d, scanned);
      && IsCapacity(e.capacity) && |e.data| < e.capacity && e == d.(capacity := e.capacity)
      && (verdict != Invalid ==> Bounded(e))
      && (e.capacity == d.capacity || 2 * d.capacity <= e.capacity)
  {
    if d.headerBytes != 0 && d.contentLength >= 0 && d.headerBytes + d.contentLength + 1 <= MAX {
      GrowIsCapacity(d.capacity, d.headerBytes + d.contentLength + 1);
    }
  }

  /** The check keeps the bounds, and the size it computes cannot wrap in 64 bits. */
  lemma CheckBounded(c: Conn)
    requires Bounded(c)
    ensures var (d, verdict) := Check(c);
      && IsCapacity(d.capacity) && |d.data| < d.capacity && d.data == c.data
      && (verdict != Invalid ==> Bounded(d))
      && d.headerBytes + d.contentLength + 1 < 0x1_0000_0000_0000_0000
      && (d.capacity == c.capacity || 2 * c.capacity <= d.capacity)
  {
    SettleBounded(Scan(c), c.headerBytes == 0);
  }

  lemma WidenedBounded(c: Conn)
    requires Bounded(c)
    ensures var w := Widened(c);
      && Bounded(w) && w == c.(capacity := w.capacity)
      && (w.capacity == c.capacity || 2 * c.capacity <= w.capacity)
      && (Space(w) == 0 <==> |c.data| + 1 == MAX)
  {
    if c.capacity <= |c.data| + 1 {
      GrowIsCapacity(c.capacity, if 2 * c.capacity > MAX then MAX else 2 * c.capacity);
    }
  }

  /** Before a recv a buffer with room stays as it is, and a full one is doubled, up to 8 MiB. */
  lemma WidenedDoubles(c: Conn)
    requires Bounded(c)
    ensures Widened(c).capacity ==
            if |c.data| + 1 < c.capacity then c.capacity else Min(2 * c.capacity, 8388608)
  {
    if c.capacity <= |c.data| + 1 {
      if c.capacity < MAX {
        assert IsCapacity(MAX) by { assert MAX == INITIAL * Pow2(10); }
        NextCapacity(c.capacity, MAX);
        assert Doubled(2 * c.capacity, 2 * c.capacity) == 2 * c.capacity;
      }
    }
  }

  /** The buffer is large enough and not too large. */
  ghost predicate Capped(c: Conn) { IsCapacity(c.capacity) && |c.data| < c.capacity <= MAX }

  lemma AcceptBounded(w: Conn, d: string)
    requires Bounded(w) && |d| <= Space(w)
    ensures var (c, progress) := Accept(w, d); Capped(c) && (progress == Continue ==> Bounded(c))
  {
    CheckBounded(w.(data := w.data + d));
  }

  lemma RoundBounded(c: Conn, waiting: string, r: Recv)
    requires Bounded(c)
    ensures var (d, rest, progress) := Round(c, waiting, r);
      Capped(d) && (progress == Continue || progress == End(Waiting) ==> Bounded(d))
  {
    var w := Widened(c);
    WidenedBounded(c);
    if r.Bytes? {
      AcceptBounded(w, waiting[..Delivered(r.n, |waiting|, Space(w))]);
    }
  }

  lemma {:induction false} HandleBounded(c: Conn, waiting: string, script: seq<Recv>)
    requires Bounded(c)
    ensures var (d, rest, result) := Handle(c, waiting, script); Capped(d) && (result == Waiting ==> Bounded(d))
    decreases |script|
  {
    var r := if script == [] then Again else script[0];
    RoundBounded(c, waiting, r);
    var (d, rest, progress) := Round(c, waiting, r);
    if progress == Continue && script != [] {
      HandleBounded(d, rest, script[1..]);
    }
  }

  /**
    Whatever arrives, in any run, the received bytes stay below the capacity, which is a doubling of 8192 up to
    8 MiB.
  */
  lemma {:induction false} EveryRunIsBounded(c: Conn, waiting: string, events: seq<Event>)
    requires Bounded(c)
    ensures Capped(Run(c, waiting, events).0)
    decreases |events|
  {
    if events != [] {
      HandleBounded(c, waiting + events[0].arrived, events[0].script);
      var (d, rest, result) := Handle(c, waiting + events[0].arrived, events[0].script);
      if result == Waiting {
        EveryRunIsBounded(d, rest, events[1..]);
      }
    }
  }

  /** So it is in every run of a fresh connection. */
  lemma FreshRunIsBounded(c: Conn, waiting: string, events: seq<Event>)
    requires c == START
    ensures Capped(Run(c, waiting, events).0)
  {
    StartIsBounded();
    EveryRunIsBounded(c, waiting, events);
  }

  lemma StartIsBounded()
    ensures Bounded(START)
  {
    assert INITIAL == INITIAL * Pow2(0);
  }
}

/**
  Chunked, checksummed file transfer: the client loops httpfs_write_file and httpfs_read_file of
  src/http_client.c against the handlers handle_write and handle_read of
  demo/service_provider/c/httpfs_server.c.

  The checksum is a parameter: nothing below depends on how it is computed.  Every method computes a function of the
  drive, the network and its arguments; the theorems are about these functions.
*/
module Transfer {
  import opened Base
  import opened Files

  /** HTTPFS_READ_CHUNK_SIZE and HTTPFS_WRITE_CHUNK_SIZE */
  const CHUNK: nat := 1048576

  /** A checksum of a window at a file offset, as text, and the receiver's format check. */
  datatype Scheme = Scheme(sum: (seq<bv8>, nat) -> string, valid: string -> bool)

  ghost predicate Sound(s: Scheme)
  {
    forall data, off {:trigger s.sum(data, off)} :: s.valid(s.sum(data, off))
  }

  datatype WriteReply = Written(n: nat, md5: string) | WriteError

  datatype ReadReply = Content(data: seq<bv8>, md5: string) | ReadError

  /**
    What becomes of one request: it never reaches the server, or it arrives - perhaps with another body - at a
    server that can or cannot open the file, and whose answer does or does not reach the client.
  */
  datatype Delivery = Lost | Arrives(altered: Option<seq<bv8>>, opens: bool, answered: bool)

  /** What becomes of the requests to come; when they are used up, requests and answers get through. */
  type Net = seq<Delivery>

  function First(net: Net): Delivery { if net == [] then Arrives(None, true, true) else net[0] }

  function Later(net: Net): Net { if net == [] then [] else net[1..] }

  /** What arrives in place of `sent`. */
  function Body(d: Delivery, sent: seq<bv8>): seq<bv8>
  {
    if d.Arrives? && d.altered.Some? then d.altered.value else sent
  }

  predicate Unaltered(d: Delivery)
  {
    d.Arrives? ==> d.altered.None?
  }

  ghost predicate HonestNet(net: Net)
  {
    forall i :: 0 <= i < |net| ==> Unaltered(net[i])
  }

  /** Every request and every answer gets through, perhaps altered. */
  ghost predicate OpenNet(net: Net)
  {
    forall i :: 0 <= i < |net| ==> net[i].Arrives? && net[i].opens && net[i].answered
  }

  /** The request reaches a server that opens the file, and its answer comes back. */
  predicate Through(way: Delivery) { way.Arrives? && way.opens && way.answered }

  ghost predicate ReliableNet(net: Net)
  {
    forall i :: 0 <= i < |net| ==> net[i] == Arrives(None, true, true)
  }

  // ---------------------------------------------------------------- writing

  /** The server after pwrite_full in handle_write: the read-back, if everything was written. */
  function Verify(scheme: Scheme, p: Put, gets: Script, offset: nat, header: string, body: seq<bv8>)
    : (Drive, WriteReply)
  {
    if p.failed || p.count != |body| then (Drive(p.file, p.rest, gets), WriteError)
    else
      var g := PreadRun(p.file, offset, |body|, [], gets);
      var d := Drive(p.file, p.rest, g.rest);
      if g.failed || |g.data| != |body| || scheme.sum(g.data, offset) != header then (d, WriteError)
      else (d, Written(p.count, scheme.sum(g.data, offset)))
  }

  /** handle_write */
  function Serve(scheme: Scheme, d: Drive, opens: bool, offset: int, header: string, body: seq<bv8>)
    : (Drive, WriteReply)
  {
    if offset < 0 || !scheme.valid(header) || scheme.sum(body, offset) != header || !opens then (d, WriteError)
    else Verify(scheme, PwriteRun(WriteAt, d.bytes, offset, body, 0, d.puts), d.gets, offset, header, body)
  }

  /** The client's checks on the reply for a chunk. */
  predicate Accepts(scheme: Scheme, reply: WriteReply, chunk: seq<bv8>, offset: nat)
  {
    reply.Written? && scheme.valid(reply.md5) && reply.n == |chunk| && reply.md5 == scheme.sum(chunk, offset)
  }

  /** One pass of the client's write loop, from the checksum of the chunk to the checks on the reply. */
  function Send(scheme: Scheme, d: Drive, way: Delivery, offset: int, chunk: seq<bv8>): (Drive, bool)
  {
    if offset < 0 || way.Lost? then (d, false)
    else
      var (e, reply) := Serve(scheme, d, way.opens, offset, scheme.sum(chunk, offset), Body(way, chunk));
      (e, way.answered && Accepts(scheme, reply, chunk, offset))
  }

  /** A way to send one chunk. */
  type Sender = (Drive, Delivery, int, seq<bv8>) -> (Drive, bool)

  function SendOf(scheme: Scheme): Sender
  {
    (d: Drive, way: Delivery, offset: int, chunk: seq<bv8>) => Send(scheme, d, way, offset, chunk)
  }

  /** The loop of httpfs_write_file. */
  function WriteWith(send: Sender, d: Drive, net: Net, offset: int, buffer: seq<bv8>): (Drive, bool)
    decreases |buffer|
  {
    if buffer == [] then (d, true)
    else
      var n := Min(|buffer|, CHUNK);
      var (e, accepted) := send(d, First(net), offset, buffer[..n]);
      if accepted then WriteWith(send, e, Later(net), offset + n, buffer[n..]) else (e, false)
  }

  /** httpfs_write_file */
  function WriteLoop(scheme: Scheme, d: Drive, net: Net, offset: int, buffer: seq<bv8>): (Drive, bool)
  {
    WriteWith(SendOf(scheme), d, net, offset, buffer)
  }

  method HandleWrite(scheme: Scheme, disk: Disk, opens: bool, offset: int, header: string, body: seq<bv8>)
    returns (reply: WriteReply)
    modifies disk
    ensures (disk.Now(), reply) == Serve(scheme, old(disk.Now()), opens, offset, header, body)
  {
    if offset < 0 { return WriteError; }
    if !scheme.valid(header) { return WriteError; }
    var expected := scheme.sum(body, offset);
    if expected != header { return WriteError; }
    if !opens { return WriteError; }
    var written := disk.PwriteFull(body, offset);
    if written < 0 { return WriteError; }
    if written != |body| { return WriteError; }
    var ok, data := disk.PreadFull(|body|, offset);
    if !ok { return WriteError; }
    if |data| != |body| || scheme.sum(data, offset) != expected { return WriteError; }
    reply := Written(written, scheme.sum(data, offset));
  }

  method SendChunk(scheme: Scheme, disk: Disk, way: Delivery, offset: int, chunk: seq<bv8>) returns (accepted: bool)
    modifies disk
    ensures (disk.Now(), accepted) == Send(scheme, old(disk.Now()), way, offset, chunk)
  {
    if offset < 0 { return false; }
    var expected := scheme.sum(chunk, offset);
    if way.Lost? { return false; }
    var reply := HandleWrite(scheme, disk, way.opens, offset, expected, Body(way, chunk));
    if !way.answered || reply.WriteError? { return false; }
    if !scheme.valid(reply.md5) { return false; }
    if reply.n != |chunk| { return false; }
    if expected != reply.md5 { return false; }
    accepted := true;
  }

  method WriteFile(scheme: Scheme, disk: Disk, net: Net, offset: int, buffer: seq<bv8>)
    returns (ok: bool, bytesWritten: nat)
    modifies disk
    ensures (disk.Now(), ok) == WriteLoop(scheme, old(disk.Now()), net, offset, buffer)
    ensures bytesWritten == if ok then |buffer| else 0
  {
    ghost var write := (d, left, at, rest) => WriteLoop(scheme, d, left, at, rest);
    ok, bytesWritten := WriteChunks(scheme, disk, net, offset, buffer, write);
  }

  /** The loop as a function of where it stands. */
  type WriteRunner = (Drive, Net, int, seq<bv8>) -> (Drive, bool)

  ghost predicate IsWrite(write: WriteRunner, scheme: Scheme)
  {
    forall d, net, offset, buffer {:trigger WriteLoop(scheme, d, net, offset, buffer)} ::
      write(d, net, offset, buffer) == WriteLoop(scheme, d, net, offset, buffer)
  }

  method WriteChunks(scheme: Scheme, disk: Disk, net: Net, offset: int, buffer: seq<bv8>, ghost write: WriteRunner)
    returns (ok: bool, bytesWritten: nat)
    requires IsWrite(write, scheme)
    modifies disk
    ensures (disk.Now(), ok) == write(old(disk.Now()), net, offset, buffer)
    ensures bytesWritten == if ok then |buffer| else 0
  {
    ok, bytesWritten := false, 0;
    var total: nat := 0;
    var left := net;
    ghost var goal, rest := write(disk.Now(), net, offset, buffer), buffer;
    while total < |buffer|
      invariant total <= |buffer| && rest == buffer[total..] && write(disk.Now(), left, offset + total, rest) == goal
      decreases |buffer| - total
    {
      var size := Min(|buffer| - total, CHUNK);
      var chunk := buffer[total..total + size];
      ghost var before := disk.Now();
      var accepted := SendChunk(scheme, disk, First(left), offset + total, chunk);
      Chunked(buffer, total, size, rest, chunk);
      WriteStep(write, scheme, before, left, offset + total, rest, size, chunk, disk.Now(), accepted);
      if !accepted { return; }
      left := Later(left);
      total := total + size;
      rest := rest[size..];
    }
    WriteEnds(write, scheme, disk.Now(), left, offset + total);
    ok, bytesWritten := true, total;
  }

  lemma Chunked(buffer: seq<bv8>, total: nat, size: nat, rest: seq<bv8>, chunk: seq<bv8>)
    requires total + size <= |buffer| && rest == buffer[total..] && chunk == buffer[total..total + size]
    ensures size <= |rest| && rest[..size] == chunk && rest[size..] == buffer[total + size..]
  {
  }

  lemma WriteStep(write: WriteRunner, scheme: Scheme, d: Drive, net: Net, offset: int, rest: seq<bv8>, size: nat,
                  chunk: seq<bv8>, e: Drive, accepted: bool)
    requires IsWrite(write, scheme) && rest != [] && size == Min(|rest|, CHUNK) && chunk == rest[..size]
    requires Send(scheme, d, First(net), offset, chunk) == (e, accepted)
    ensures write(d, net, offset, rest)
            == if accepted then write(e, Later(net), offset + size, rest[size..]) else (e, false)
  {
    assert write(d, net, offset, rest) == WriteLoop(scheme, d, net, offset, rest);
    assert write(e, Later(net), offset + size, rest[size..])
        == WriteLoop(scheme, e, Later(net), offset + size, rest[size..]);
  }

  lemma WriteEnds(write: WriteRunner, scheme: Scheme, d: Drive, net: Net, offset: int)
    requires IsWrite(write, scheme)
    ensures write(d, net, offset, []) == (d, true)
  {
    assert write(d, net, offset, []) == WriteLoop(scheme, d, net, offset, []);
  }

  // ---------------------------------------------------------------- what the server refuses and what it confirms

  /** The checks that handle_write makes before it touches the file. */
  predicate InOrder(scheme: Scheme, opens: bool, offset: int, header: string, body: seq<bv8>)
  {
    offset >= 0 && scheme.valid(header) && scheme.sum(body, offset) == header && opens
  }

  /** A request that is not in order leaves the drive as it is, unread and unwritten. */
  lemma RefusedUntouched(scheme: Scheme, d: Drive, opens: bool, offset: int, header: string, body: seq<bv8>)
    requires offset < 0 || !scheme.valid(header) || scheme.sum(body, offset) != header || !opens
    ensures Serve(scheme, d, opens, offset, header, body) == (d, WriteError)
  {
  }

  /**
    A request is confirmed if and only if it is in order, pwrite_full writes all of the body, and pread_full then reads
    as many bytes with the same checksum; the confirmation is that of the body.
  */
  lemma ConfirmedExactly(scheme: Scheme, d: Drive, opens: bool, offset: int, header: string, body: seq<bv8>)
    ensures var (e, reply) := Serve(scheme, d, opens, offset, header, body);
      && (reply.Written? <==>
            && InOrder(scheme, opens, offset, header, body)
            && var p := PwriteRun(WriteAt, d.bytes, offset, body, 0, d.puts);
               !p.failed && p.count == |body| && ReadsBack(scheme, e, d.gets, offset, header, |body|))
      && (reply.Written? ==> reply == Written(|body|, scheme.sum(body, offset)))
  {
  }

  /** What is read from the drive as it is now has this length and this checksum. */
  predicate ReadsBack(scheme: Scheme, e: Drive, gets: Script, offset: nat, header: string, len: nat)
  {
    var g := PreadRun(e.bytes, offset, len, [], gets);
    !g.failed && |g.data| == len && scheme.sum(g.data, offset) == header
  }

  // ---------------------------------------------------------------- a chunked write is one write

  lemma LaterHonest(net: Net)
    requires HonestNet(net)
    ensures HonestNet(Later(net)) && Unaltered(First(net))
  {
  }

  /** Nothing before the offset changes, whatever happens. */
  lemma ServeKeepsBelow(scheme: Scheme, d: Drive, opens: bool, offset: nat, header: string, body: seq<bv8>)
    ensures SameBelow(d.bytes, Serve(scheme, d, opens, offset, header, body).0.bytes, offset)
  {
    WriteAtStores();
    PwriteKeepsBelow(WriteAt, d.bytes, offset, body, 0, d.puts);
  }

  /** On an honest disk handle_write writes a prefix of the body, and all of it when it says so. */
  lemma ServeHonest(scheme: Scheme, d: Drive, opens: bool, offset: nat, header: string, body: seq<bv8>) returns (k: nat)
    requires Honest(d.puts)
    ensures var (e, reply) := Serve(scheme, d, opens, offset, header, body);
      && Honest(e.puts) && k <= |body| && e.bytes == WriteAt(d.bytes, offset, body[..k])
      && (reply.Written? ==> k == |body|)
  {
    k := 0;
    if scheme.valid(header) && scheme.sum(body, offset) == header && opens {
      WriteAtStores();
      PwriteHonest(WriteAt, d.bytes, offset, body, 0, d.puts);
      k := PwriteRun(WriteAt, d.bytes, offset, body, 0, d.puts).count;
      assert body[0..k] == body[..k];
    }
  }

  /** `g` is `f` overwritten by some prefix of `data`. */
  ghost predicate WritesPrefix(put: Store, f: seq<bv8>, g: seq<bv8>, offset: nat, data: seq<bv8>)
  {
    exists k: nat :: k <= |data| && g == put(f, offset, data[..k])
  }

  /** What sending a chunk does on an honest path. */
  ghost predicate Sends(send: Sender, effect: Effect)
  {
    forall d: Drive, way: Delivery, offset: nat, chunk {:trigger send(d, way, offset, chunk)} ::
      Honest(d.puts) && Unaltered(way) ==>
        var (e, accepted) := send(d, way, offset, chunk);
        Honest(e.puts) && effect(d.bytes, e.bytes, offset, chunk, accepted)
  }

  lemma SendHonest(scheme: Scheme)
    ensures Sends(SendOf(scheme), EffectOf(WriteAt))
  {
    forall d: Drive, way: Delivery, offset: nat, chunk | Honest(d.puts) && Unaltered(way)
      ensures var (e, accepted) := SendOf(scheme)(d, way, offset, chunk);
        Honest(e.puts) && EffectOf(WriteAt)(d.bytes, e.bytes, offset, chunk, accepted)
    {
      SendOneHonest(scheme, d, way, offset, chunk);
    }
  }

  lemma SendOneHonest(scheme: Scheme, d: Drive, way: Delivery, offset: nat, chunk: seq<bv8>)
    requires Honest(d.puts) && Unaltered(way)
    ensures var (e, accepted) := Send(scheme, d, way, offset, chunk);
      && Honest(e.puts) && WritesPrefix(WriteAt, d.bytes, e.bytes, offset, chunk)
      && (accepted ==> e.bytes == WriteAt(d.bytes, offset, chunk))
  {
    if way.Arrives? {
      var k := ServeHonest(scheme, d, way.opens, offset, scheme.sum(chunk, offset), chunk);
      assert chunk[..|chunk|] == chunk;
    } else {
      assert d.bytes == WriteAt(d.bytes, offset, chunk[..0]);
    }
  }

  lemma PrefixAll(put: Store, f: seq<bv8>, offset: nat, data: seq<bv8>)
    ensures WritesPrefix(put, f, put(f, offset, data), offset, data)
  {
    assert data[..|data|] == data;
  }

  lemma PrefixFirst(put: Store, f: seq<bv8>, g: seq<bv8>, offset: nat, buffer: seq<bv8>, n: nat)
    requires n <= |buffer| && WritesPrefix(put, f, g, offset, buffer[..n])
    ensures WritesPrefix(put, f, g, offset, buffer)
  {
    var k: nat :| k <= n && g == put(f, offset, buffer[..n][..k]);
    assert buffer[..n][..k] == buffer[..k];
  }

  lemma PrefixRest(put: Store, f: seq<bv8>, g: seq<bv8>, offset: nat, buffer: seq<bv8>, n: nat)
    requires Appends(put) && n <= |buffer| && WritesPrefix(put, put(f, offset, buffer[..n]), g, offset + n, buffer[n..])
    ensures WritesPrefix(put, f, g, offset, buffer)
  {
    var k: nat :| k <= |buffer| - n && g == put(put(f, offset, buffer[..n]), offset + n, buffer[n..][..k]);
    assert buffer[..n] + buffer[n..][..k] == buffer[..n + k];
  }

  /** Success leaves the file that one write leaves, failure one overwritten by a prefix. */
  ghost predicate Refines(put: Store, f: seq<bv8>, g: seq<bv8>, offset: nat, data: seq<bv8>, ok: bool)
  {
    WritesPrefix(put, f, g, offset, data) && (ok ==> g == put(f, offset, data))
  }

  /** What a write may do to a file. */
  type Effect = (seq<bv8>, seq<bv8>, nat, seq<bv8>, bool) -> bool

  ghost function EffectOf(put: Store): Effect
  {
    (f, g, offset: nat, data, ok) => Refines(put, f, g, offset, data, ok)
  }

  /** It may do so in parts, and stop after one. */
  ghost predicate Composes(effect: Effect)
  {
    && (forall f, offset: nat :: effect(f, f, offset, [], true))
    && (forall f, e, offset: nat, a, b {:trigger effect(f, e, offset, a, false), a + b} ::
          effect(f, e, offset, a, false) ==> effect(f, e, offset, a + b, false))
    && (forall f, e, g, offset: nat, later: nat, a, b, ok
          {:trigger effect(f, e, offset, a, true), effect(e, g, later, b, ok)} ::
          effect(f, e, offset, a, true) && later == offset + |a| && effect(e, g, later, b, ok)
          ==> effect(f, g, offset, a + b, ok))
  }

  lemma RefinesMore(put: Store, f: seq<bv8>, e: seq<bv8>, offset: nat, a: seq<bv8>, b: seq<bv8>)
    requires Refines(put, f, e, offset, a, false)
    ensures Refines(put, f, e, offset, a + b, false)
  {
    assert (a + b)[..|a|] == a;
    PrefixFirst(put, f, e, offset, a + b, |a|);
  }

  lemma RefinesBoth(put: Store, f: seq<bv8>, e: seq<bv8>, g: seq<bv8>, offset: nat, a: seq<bv8>, b: seq<bv8>, ok: bool)
    requires Appends(put) && Refines(put, f, e, offset, a, true) && Refines(put, e, g, offset + |a|, b, ok)
    ensures Refines(put, f, g, offset, a + b, ok)
  {
    assert (a + b)[..|a|] == a && (a + b)[|a|..] == b;
    PrefixRest(put, f, g, offset, a + b, |a|);
  }

  lemma RefinesComposes(put: Store)
    requires Appends(put) && Idles(put)
    ensures Composes(EffectOf(put))
  {
    var effect := EffectOf(put);
    forall f, offset: nat
      ensures effect(f, f, offset, [], true)
    {
      PrefixAll(put, f, offset, []);
    }
    forall f, e, offset: nat, a, b | effect(f, e, offset, a, false)
      ensures effect(f, e, offset, a + b, false)
    {
      RefinesMore(put, f, e, offset, a, b);
    }
    forall f, e, g, offset: nat, later: nat, a, b, ok
      | effect(f, e, offset, a, true) && later == offset + |a| && effect(e, g, later, b, ok)
      ensures effect(f, g, offset, a + b, ok)
    {
      RefinesBoth(put, f, e, g, offset, a, b, ok);
    }
  }

  lemma {:induction false} WriteWithRefines(send: Sender, effect: Effect, d: Drive, net: Net, offset: nat,
                                            buffer: seq<bv8>)
    requires Sends(send, effect) && Composes(effect) && Honest(d.puts) && HonestNet(net)
    ensures var (e, ok) := WriteWith(send, d, net, offset, buffer); effect(d.bytes, e.bytes, offset, buffer, ok)
    decreases |buffer|
  {
    if buffer != [] {
      var n := Min(|buffer|, CHUNK);
      LaterHonest(net);
      var (e, accepted) := send(d, First(net), offset, buffer[..n]);
      assert effect(d.bytes, e.bytes, offset, buffer[..n], accepted);
      assert buffer[..n] + buffer[n..] == buffer;
      if accepted {
        var (g, ok) := WriteWith(send, e, Later(net), offset + n, buffer[n..]);
        WriteWithRefines(send, effect, e, Later(net), offset + n, buffer[n..]);
        assert effect(d.bytes, e.bytes, offset, buffer[..n], true);
        assert effect(e.bytes, g.bytes, offset + n, buffer[n..], ok);
        assert effect(d.bytes, g.bytes, offset, buffer[..n] + buffer[n..], ok);
      }
    }
  }

  lemma WriteHonest(scheme: Scheme)
    ensures Sends(SendOf(scheme), EffectOf(WriteAt)) && Composes(EffectOf(WriteAt))
  {
    SendHonest(scheme);
    WriteAtStores();
    RefinesComposes(WriteAt);
  }

  /**
    httpfs_write_file on an honest path: success leaves the file that one write of the whole buffer leaves, failure the
    old file overwritten by some prefix of it.
  */
  lemma WriteRefinesOneWrite(scheme: Scheme, d: Drive, net: Net, offset: nat, buffer: seq<bv8>)
    requires Honest(d.puts) && HonestNet(net)
    ensures var (e, ok) := WriteLoop(scheme, d, net, offset, buffer);
      && WritesPrefix(WriteAt, d.bytes, e.bytes, offset, buffer)
      && (ok ==> e.bytes == WriteAt(d.bytes, offset, buffer))
  {
    WriteHonest(scheme);
    WriteWithRefines(SendOf(scheme), EffectOf(WriteAt), d, net, offset, buffer);
    var (e, ok) := WriteLoop(scheme, d, net, offset, buffer);
    assert Refines(WriteAt, d.bytes, e.bytes, offset, buffer, ok);
  }

  // ---------------------------------------------------------------- what acceptance says about the disk

  /** Every chunk of `stored` has the length and checksum of the chunk of `sent` it stands for. */
  ghost predicate ChunksAgree(scheme: Scheme, stored: seq<bv8>, sent: seq<bv8>, offset: nat)
    decreases |sent|
  {
    && |stored| == |sent|
    && (sent != [] ==>
          var n := Min(|sent|, CHUNK);
          scheme.sum(stored[..n], offset) == scheme.sum(sent[..n], offset)
          && ChunksAgree(scheme, stored[n..], sent[n..], offset + n))
  }

  lemma ChunksJoin(scheme: Scheme, a: seq<bv8>, b: seq<bv8>, sent: seq<bv8>, offset: nat, n: nat)
    requires sent != [] && n == Min(|sent|, CHUNK) && |a| == n
    requires scheme.sum(a, offset) == scheme.sum(sent[..n], offset) && ChunksAgree(scheme, b, sent[n..], offset + n)
    ensures ChunksAgree(scheme, a + b, sent, offset)
  {
    assert (a + b)[..n] == a && (a + b)[n..] == b;
  }

  /** What the server reads back after a chunk: a function of the file then and of the outcomes of its reads. */
  function ReadBack(scheme: Scheme, d: Drive, way: Delivery, offset: nat, chunk: seq<bv8>): (data: seq<bv8>)
    ensures |data| <= |chunk|
  {
    PreadRun(Send(scheme, d, way, offset, chunk).0.bytes, offset, |chunk|, [], d.gets).data
  }

  /** A chunk is accepted only if what was read back has its length and its checksum. */
  lemma AcceptedReadBack(scheme: Scheme, d: Drive, way: Delivery, offset: nat, chunk: seq<bv8>)
    requires Send(scheme, d, way, offset, chunk).1
    ensures var e, data := Send(scheme, d, way, offset, chunk).0, ReadBack(scheme, d, way, offset, chunk);
      && |data| == |chunk| && scheme.sum(data, offset) == scheme.sum(chunk, offset)
      && e.gets == PreadRun(e.bytes, offset, |chunk|, [], d.gets).rest
      && |Body(way, chunk)| == |chunk|
  {
  }

  /** All that is read back during a write. */
  function ReadBacks(scheme: Scheme, d: Drive, net: Net, offset: nat, buffer: seq<bv8>): seq<bv8>
    decreases |buffer|
  {
    if buffer == [] then []
    else
      var n := Min(|buffer|, CHUNK);
      var e := Send(scheme, d, First(net), offset, buffer[..n]).0;
      ReadBack(scheme, d, First(net), offset, buffer[..n]) + ReadBacks(scheme, e, Later(net), offset + n, buffer[n..])
  }

  /** Whatever is altered where: after a successful write every chunk read back had its length and checksum. */
  lemma {:induction false} AcceptedReadBacks(scheme: Scheme, d: Drive, net: Net, offset: nat, buffer: seq<bv8>)
    requires WriteLoop(scheme, d, net, offset, buffer).1
    ensures ChunksAgree(scheme, ReadBacks(scheme, d, net, offset, buffer), buffer, offset)
    decreases |buffer|
  {
    if buffer != [] {
      var n := Min(|buffer|, CHUNK);
      var e := Send(scheme, d, First(net), offset, buffer[..n]).0;
      AcceptedReadBack(scheme, d, First(net), offset, buffer[..n]);
      AcceptedReadBacks(scheme, e, Later(net), offset + n, buffer[n..]);
      ChunksJoin(scheme, ReadBack(scheme, d, First(net), offset, buffer[..n]),
                 ReadBacks(scheme, e, Later(net), offset + n, buffer[n..]), buffer, offset, n);
    }
  }

  /** With honest reads an accepted chunk's checksum is that of the bytes in the file. */
  lemma AcceptedIsStored(scheme: Scheme, d: Drive, way: Delivery, offset: nat, chunk: seq<bv8>)
    requires Honest(d.gets) && Send(scheme, d, way, offset, chunk).1
    ensures var e := Send(scheme, d, way, offset, chunk).0;
      var s := Slice(e.bytes, offset, |chunk|);
      Honest(e.gets) && |s| == |chunk| && scheme.sum(s, offset) == scheme.sum(chunk, offset)
  {
    var e := Send(scheme, d, way, offset, chunk).0;
    AcceptedReadBack(scheme, d, way, offset, chunk);
    PreadHonest(e.bytes, offset, |chunk|, [], d.gets);
    var data := ReadBack(scheme, d, way, offset, chunk);
    assert data <= Slice(e.bytes, offset, |chunk|) && |data| == |chunk|;
    assert data == Slice(e.bytes, offset, |chunk|);
  }

  lemma SendKeepsBelow(scheme: Scheme, d: Drive, way: Delivery, offset: nat, chunk: seq<bv8>)
    ensures SameBelow(d.bytes, Send(scheme, d, way, offset, chunk).0.bytes, offset)
  {
    if way.Arrives? {
      ServeKeepsBelow(scheme, d, way.opens, offset, scheme.sum(chunk, offset), Body(way, chunk));
    }
  }

  lemma {:induction false} WriteWithKeepsEarlier(send: Sender, d: Drive, net: Net, offset: nat, buffer: seq<bv8>)
    requires forall d: Drive, way, offset: nat, chunk :: SameBelow(d.bytes, send(d, way, offset, chunk).0.bytes, offset)
    ensures SameBelow(d.bytes, WriteWith(send, d, net, offset, buffer).0.bytes, offset)
    decreases |buffer|
  {
    if buffer != [] {
      var n := Min(|buffer|, CHUNK);
      var (e, accepted) := send(d, First(net), offset, buffer[..n]);
      assert SameBelow(d.bytes, send(d, First(net), offset, buffer[..n]).0.bytes, offset);
      if accepted {
        WriteWithKeepsEarlier(send, e, Later(net), offset + n, buffer[n..]);
        BelowTwice(d.bytes, e.bytes, WriteWith(send, d, net, offset, buffer).0.bytes, offset, offset + n);
      }
    }
  }

  lemma WriteKeepsEarlier(scheme: Scheme, d: Drive, net: Net, offset: nat, buffer: seq<bv8>)
    ensures SameBelow(d.bytes, WriteLoop(scheme, d, net, offset, buffer).0.bytes, offset)
  {
    forall d: Drive, way, offset: nat, chunk
      ensures SameBelow(d.bytes, SendOf(scheme)(d, way, offset, chunk).0.bytes, offset)
    {
      SendKeepsBelow(scheme, d, way, offset, chunk);
    }
    WriteWithKeepsEarlier(SendOf(scheme), d, net, offset, buffer);
  }

  /**
    End-to-end integrity: bodies may be altered in transit and pwrite may store other bytes.  If reads are honest, a
    successful write leaves a file whose bytes at the range written have, chunk by chunk, the checksums of the buffer.
  */
  lemma {:induction false} AcceptedWriteIsStored(scheme: Scheme, d: Drive, net: Net, offset: nat, buffer: seq<bv8>)
    requires Honest(d.gets) && WriteLoop(scheme, d, net, offset, buffer).1
    ensures var e := WriteLoop(scheme, d, net, offset, buffer).0;
      ChunksAgree(scheme, Slice(e.bytes, offset, |buffer|), buffer, offset)
    decreases |buffer|
  {
    if buffer != [] {
      var n, m := Min(|buffer|, CHUNK), |buffer| - Min(|buffer|, CHUNK);
      var d' := Send(scheme, d, First(net), offset, buffer[..n]).0;
      AcceptedIsStored(scheme, d, First(net), offset, buffer[..n]);
      AcceptedWriteIsStored(scheme, d', Later(net), offset + n, buffer[n..]);
      WriteKeepsEarlier(scheme, d', Later(net), offset + n, buffer[n..]);
      var e := WriteLoop(scheme, d, net, offset, buffer).0;
      SliceStays(d'.bytes, e.bytes, offset + n, offset, n);
      SliceAppend(e.bytes, offset, n, m);
      ChunksJoin(scheme, Slice(e.bytes, offset, n), Slice(e.bytes, offset + n, m), buffer, offset, n);
    }
  }

  // ---------------------------------------------------------------- when a write succeeds

  /** Every body that arrives has the length and the checksum of the chunk it stands for. */
  ghost predicate BodiesMatch(scheme: Scheme, net: Net, offset: nat, buffer: seq<bv8>)
    decreases |buffer|
  {
    buffer != [] ==>
      var n := Min(|buffer|, CHUNK);
      var body := Body(First(net), buffer[..n]);
      && |body| == n && scheme.sum(body, offset) == scheme.sum(buffer[..n], offset)
      && BodiesMatch(scheme, Later(net), offset + n, buffer[n..])
  }

  /** The bodies that arrive, one after the other. */
  function Bodies(net: Net, buffer: seq<bv8>): seq<bv8>
    decreases |buffer|
  {
    if buffer == [] then []
    else
      var n := Min(|buffer|, CHUNK);
      Body(First(net), buffer[..n]) + Bodies(Later(net), buffer[n..])
  }

  /** Every body that arrives has the length of the chunk it stands for. */
  ghost predicate LengthsMatch(net: Net, buffer: seq<bv8>)
    decreases |buffer|
  {
    buffer != [] ==>
      var n := Min(|buffer|, CHUNK);
      |Body(First(net), buffer[..n])| == n && LengthsMatch(Later(net), buffer[n..])
  }

  /** Bodies of the right lengths match exactly when, put together, they agree with the buffer chunk by chunk. */
  lemma {:induction false} MatchIsAgreement(scheme: Scheme, net: Net, offset: nat, buffer: seq<bv8>)
    ensures BodiesMatch(scheme, net, offset, buffer) <==>
            LengthsMatch(net, buffer) && ChunksAgree(scheme, Bodies(net, buffer), buffer, offset)
    ensures LengthsMatch(net, buffer) ==> |Bodies(net, buffer)| == |buffer|
    decreases |buffer|
  {
    if buffer != [] {
      var n := Min(|buffer|, CHUNK);
      MatchIsAgreement(scheme, Later(net), offset + n, buffer[n..]);
      var body, rest := Body(First(net), buffer[..n]), Bodies(Later(net), buffer[n..]);
      if |body| == n {
        assert (body + rest)[..n] == body && (body + rest)[n..] == rest;
      }
    }
  }

  /** On a reliable disk handle_write accepts exactly the bodies with the right checksum, and stores them. */
  lemma ServeReliable(scheme: Scheme, d: Drive, offset: nat, header: string, body: seq<bv8>)
    requires Reliable(d.puts) && Reliable(d.gets) && scheme.valid(header)
    ensures var (e, reply) := Serve(scheme, d, true, offset, header, body);
      && Reliable(e.puts) && Reliable(e.gets)
      && reply == (if scheme.sum(body, offset) == header then Written(|body|, header) else WriteError)
      && (reply.Written? ==> e.bytes == WriteAt(d.bytes, offset, body))
  {
    if scheme.sum(body, offset) == header {
      RestReliable(d.puts);
      WriteAtStores();
      PwriteHonest(WriteAt, d.bytes, offset, body, 0, d.puts);
      PwriteReliable(WriteAt, d.bytes, offset, body, 0, d.puts);
      assert body[0..|body|] == body;
      var g := WriteAt(d.bytes, offset, body);
      SliceOfWrite(d.bytes, offset, body);
      PreadReliable(g, offset, |body|, [], d.gets);
    }
  }

  lemma SendReliable(scheme: Scheme, d: Drive, way: Delivery, offset: nat, chunk: seq<bv8>)
    requires Sound(scheme) && Reliable(d.puts) && Reliable(d.gets) && way.Arrives? && way.opens && way.answered
    ensures var (e, accepted) := Send(scheme, d, way, offset, chunk);
      var body := Body(way, chunk);
      && Reliable(e.puts) && Reliable(e.gets)
      && (accepted <==> |body| == |chunk| && scheme.sum(body, offset) == scheme.sum(chunk, offset))
      && (accepted ==> e.bytes == WriteAt(d.bytes, offset, body))
  {
    ServeReliable(scheme, d, offset, scheme.sum(chunk, offset), Body(way, chunk));
  }

  lemma LaterOpen(net: Net)
    requires OpenNet(net)
    ensures OpenNet(Later(net)) && First(net).Arrives? && First(net).opens && First(net).answered
  {
  }

  /**
    On a reliable disk a write succeeds if and only if every body that arrives has its chunk's length and checksum, and
    then the file is the one that writing those bodies leaves.
  */
  lemma {:induction false} WriteSucceedsExactly(scheme: Scheme, d: Drive, net: Net, offset: nat, buffer: seq<bv8>)
    requires Sound(scheme) && Reliable(d.puts) && Reliable(d.gets) && OpenNet(net)
    ensures var (e, ok) := WriteLoop(scheme, d, net, offset, buffer);
      && Reliable(e.puts) && Reliable(e.gets)
      && (ok <==> BodiesMatch(scheme, net, offset, buffer))
      && (ok ==> e.bytes == WriteAt(d.bytes, offset, Bodies(net, buffer)))
    decreases |buffer|
  {
    if buffer != [] {
      var n := Min(|buffer|, CHUNK);
      LaterOpen(net);
      SendReliable(scheme, d, First(net), offset, buffer[..n]);
      var (e, accepted) := Send(scheme, d, First(net), offset, buffer[..n]);
      if accepted {
        WriteSucceedsExactly(scheme, e, Later(net), offset + n, buffer[n..]);
        WriteAtAppend(d.bytes, offset, Body(First(net), buffer[..n]), Bodies(Later(net), buffer[n..]));
      }
    }
  }

  /**
    What a write stores on a reliable disk, and whether it succeeds: a chunk that does not reach a server that opens the
    file, or arrives with another checksum, stores nothing and is the last; one whose answer is lost, or whose body has
    another length, is stored and is the last.
  */
  function Kept(scheme: Scheme, net: Net, offset: nat, buffer: seq<bv8>): (seq<bv8>, bool)
    decreases |buffer|
  {
    if buffer == [] then ([], true)
    else
      var n, way := Min(|buffer|, CHUNK), First(net);
      var body := Body(way, buffer[..n]);
      if !way.Arrives? || !way.opens || scheme.sum(body, offset) != scheme.sum(buffer[..n], offset) then ([], false)
      else if !way.answered || |body| != n then (body, false)
      else
        var (rest, ok) := Kept(scheme, Later(net), offset + n, buffer[n..]);
        (body + rest, ok)
  }

  /** One chunk of it. */
  lemma SendKeeps(scheme: Scheme, d: Drive, way: Delivery, offset: nat, chunk: seq<bv8>)
    requires Sound(scheme) && Reliable(d.puts) && Reliable(d.gets)
    ensures var (e, accepted) := Send(scheme, d, way, offset, chunk);
      var body := Body(way, chunk);
      var taken := way.Arrives? && way.opens && scheme.sum(body, offset) == scheme.sum(chunk, offset);
      && Reliable(e.puts) && Reliable(e.gets)
      && (accepted <==> taken && way.answered && |body| == |chunk|)
      && e.bytes == (if taken then WriteAt(d.bytes, offset, body) else d.bytes)
  {
    if way.Arrives? {
      if way.opens && scheme.sum(Body(way, chunk), offset) == scheme.sum(chunk, offset) {
        ServeReliable(scheme, d, offset, scheme.sum(chunk, offset), Body(way, chunk));
      } else {
        RefusedUntouched(scheme, d, way.opens, offset, scheme.sum(chunk, offset), Body(way, chunk));
      }
    }
  }

  /** What a write leaves on a reliable disk, whatever becomes of its requests and of their bodies and answers. */
  lemma {:induction false} WriteLeavesExactly(scheme: Scheme, d: Drive, net: Net, offset: nat, buffer: seq<bv8>)
    requires Sound(scheme) && Reliable(d.puts) && Reliable(d.gets)
    ensures var (e, ok) := WriteLoop(scheme, d, net, offset, buffer);
      var (kept, all) := Kept(scheme, net, offset, buffer);
      ok == all && e.bytes == WriteAt(d.bytes, offset, kept)
    decreases |buffer|
  {
    if buffer != [] {
      var n, way := Min(|buffer|, CHUNK), First(net);
      var body := Body(way, buffer[..n]);
      SendKeeps(scheme, d, way, offset, buffer[..n]);
      var (e, accepted) := Send(scheme, d, way, offset, buffer[..n]);
      if accepted {
        WriteLeavesExactly(scheme, e, Later(net), offset + n, buffer[n..]);
        WriteAtAppend(d.bytes, offset, body, Kept(scheme, Later(net), offset + n, buffer[n..]).0);
      }
    }
  }

  /** The delivery of chunk `i`. */
  function Nth(net: Net, i: nat): Delivery { if i < |net| then net[i] else Arrives(None, true, true) }

  /** Chunk `i` of the buffer. */
  function Chunk(buffer: seq<bv8>, i: nat): seq<bv8>
    requires i * CHUNK <= |buffer|
  {
    buffer[i * CHUNK..Min(|buffer|, (i + 1) * CHUNK)]
  }

  /** The first `i` chunks get through, with bodies that match. */
  ghost predicate Good(scheme: Scheme, net: Net, offset: nat, buffer: seq<bv8>, i: nat)
    requires i * CHUNK <= |buffer|
  {
    (forall j: nat :: j < i ==> Through(Nth(net, j))) && BodiesMatch(scheme, net, offset, buffer[..i * CHUNK])
  }

  lemma ChunkLater(buffer: seq<bv8>, i: nat)
    requires i > 0 && i * CHUNK < |buffer|
    ensures (i - 1) * CHUNK == i * CHUNK - CHUNK && Chunk(buffer[CHUNK..], i - 1) == Chunk(buffer, i)
  {
    var a, b := i * CHUNK, Min(|buffer|, (i + 1) * CHUNK);
    Sliced(buffer, CHUNK, a - CHUNK, b - CHUNK);
  }

  lemma Sliced(buffer: seq<bv8>, n: nat, a: nat, b: nat)
    requires a <= b && n + b <= |buffer|
    ensures buffer[n..][a..b] == buffer[n + a..n + b]
  {
  }

  /** If chunk `i` is the first to be refused, the file is that of writing the bodies before it. */
  lemma {:induction false} RefusedChunk(scheme: Scheme, net: Net, offset: nat, buffer: seq<bv8>, i: nat)
    requires i * CHUNK < |buffer| && Good(scheme, net, offset, buffer, i)
    requires var way, chunk, at := Nth(net, i), Chunk(buffer, i), offset + i * CHUNK;
      way.Lost? || !way.opens || scheme.sum(Body(way, chunk), at) != scheme.sum(chunk, at)
    ensures Kept(scheme, net, offset, buffer) == (Bodies(net, buffer[..i * CHUNK]), false)
    decreases i
  {
    var n := Min(|buffer|, CHUNK);
    var done := buffer[..i * CHUNK];
    if i == 0 {
      assert Chunk(buffer, 0) == buffer[..n];
    } else {
      ChunkLater(buffer, i);
      assert done[..n] == buffer[..n] && done[n..] == buffer[n..][..(i - 1) * CHUNK];
      assert Through(Nth(net, 0));
      assert forall j: nat :: j < i ==> Nth(Later(net), j) == Nth(net, j + 1);
      RefusedChunk(scheme, Later(net), offset + n, buffer[n..], i - 1);
    }
  }

  /** So a write whose chunk `i` is the first to arrive spoilt, or not at all, stores exactly the bodies before it. */
  lemma WriteStopsAtRefusal(scheme: Scheme, d: Drive, net: Net, offset: nat, buffer: seq<bv8>, i: nat)
    requires Sound(scheme) && Reliable(d.puts) && Reliable(d.gets)
    requires i * CHUNK < |buffer| && Good(scheme, net, offset, buffer, i)
    requires var way, chunk, at := Nth(net, i), Chunk(buffer, i), offset + i * CHUNK;
      way.Lost? || !way.opens || scheme.sum(Body(way, chunk), at) != scheme.sum(chunk, at)
    ensures var (e, ok) := WriteLoop(scheme, d, net, offset, buffer);
      !ok && e.bytes == WriteAt(d.bytes, offset, Bodies(net, buffer[..i * CHUNK]))
  {
    WriteLeavesExactly(scheme, d, net, offset, buffer);
    RefusedChunk(scheme, net, offset, buffer, i);
  }

  /** Below offset zero nothing is written or read, and whatever was asked for fails. */
  lemma NegativeOffsets(scheme: Scheme, d: Drive, net: Net, offset: int, buffer: seq<bv8>, size: nat)
    requires offset < 0
    ensures WriteLoop(scheme, d, net, offset, buffer) == (d, buffer == [])
    ensures ReadLoop(scheme, d, net, offset, size) == (d, if size == 0 then Some([]) else None)
  {
  }

  lemma {:induction false} HonestBodies(scheme: Scheme, net: Net, offset: nat, buffer: seq<bv8>)
    requires HonestNet(net)
    ensures BodiesMatch(scheme, net, offset, buffer) && Bodies(net, buffer) == buffer
    decreases |buffer|
  {
    if buffer != [] {
      var n := Min(|buffer|, CHUNK);
      LaterHonest(net);
      HonestBodies(scheme, Later(net), offset + n, buffer[n..]);
      assert buffer[..n] + buffer[n..] == buffer;
    }
  }

  // ---------------------------------------------------------------- reading

  /** handle_read: a single pread, so an interrupted call is an error and a short one is passed on as it is. */
  function Answer(scheme: Scheme, d: Drive, opens: bool, offset: int, size: int): (Drive, ReadReply)
  {
    if offset < 0 || size < 0 || !opens then (d, ReadError)
    else
      var o := Next(d.gets, size);
      var e := d.(gets := Rest(d.gets));
      if o.Interrupted? || o.Failed? then (e, ReadError)
      else
        var data := Carried(o, Slice(d.bytes, offset, size), size);
        (e, Content(data, scheme.sum(data, offset)))
  }

  /** The client's checks on an answer. */
  predicate Takes(scheme: Scheme, response: seq<bv8>, md5: string, offset: nat, size: nat)
  {
    scheme.valid(md5) && |response| <= size && scheme.sum(response, offset) == md5
  }

  /** One pass of the client's read loop. */
  function Fetch(scheme: Scheme, d: Drive, way: Delivery, offset: int, size: nat): (Drive, Option<seq<bv8>>)
  {
    if way.Lost? then (d, None)
    else
      var (e, reply) := Answer(scheme, d, way.opens, offset, size);
      if !way.answered || reply.ReadError? then (e, None)
      else
        var response := Body(way, reply.data);
        if offset >= 0 && Takes(scheme, response, reply.md5, offset, size) then (e, Some(response)) else (e, None)
  }

  /** A way to get one chunk. */
  type Fetcher = (Drive, Delivery, int, nat) -> (Drive, Option<seq<bv8>>)

  function FetchOf(scheme: Scheme): Fetcher
  {
    (d: Drive, way: Delivery, offset: int, size: nat) => Fetch(scheme, d, way, offset, size)
  }

  /** The loop of httpfs_read_file: a short answer ends it as if the file ended there. */
  function ReadWith(fetch: Fetcher, d: Drive, net: Net, offset: int, size: nat): (Drive, Option<seq<bv8>>)
    decreases size
  {
    if size == 0 then (d, Some([]))
    else
      var n := Min(size, CHUNK);
      var (e, answer) := fetch(d, First(net), offset, n);
      if answer.None? || |answer.value| < n then (e, answer)
      else
        var (g, rest) := ReadWith(fetch, e, Later(net), offset + n, size - n);
        (g, if rest.None? then None else Some(answer.value + rest.value))
  }

  /** httpfs_read_file */
  function ReadLoop(scheme: Scheme, d: Drive, net: Net, offset: int, size: nat): (Drive, Option<seq<bv8>>)
  {
    ReadWith(FetchOf(scheme), d, net, offset, size)
  }

  method HandleRead(scheme: Scheme, disk: Disk, opens: bool, offset: int, size: int) returns (reply: ReadReply)
    modifies disk`gets
    ensures (disk.Now(), reply) == Answer(scheme, old(disk.Now()), opens, offset, size)
  {
    if offset < 0 || size < 0 { return ReadError; }
    if !opens { return ReadError; }
    var r, data := disk.Pread(size, offset);
    if !r.Count? { return ReadError; }
    reply := Content(data, scheme.sum(data, offset));
  }

  method FetchChunk(scheme: Scheme, disk: Disk, way: Delivery, offset: int, size: nat) returns (r: Option<seq<bv8>>)
    modifies disk`gets
    ensures (disk.Now(), r) == FetchOf(scheme)(old(disk.Now()), way, offset, size)
    ensures r.Some? ==> |r.value| <= size
  {
    if way.Lost? { return None; }
    var reply := HandleRead(scheme, disk, way.opens, offset, size);
    if !way.answered || reply.ReadError? { return None; }
    var response := Body(way, reply.data);
    if !scheme.valid(reply.md5) { return None; }
    if |response| > size { return None; }
    if scheme.sum(response, offset) != reply.md5 { return None; }
    r := Some(response);
  }

  /** httpfs_read_file; when it fails the caller is told of no bytes. */
  method ReadFile(scheme: Scheme, disk: Disk, net: Net, offset: int, size: nat) returns (ok: bool, data: seq<bv8>)
    modifies disk`gets
    ensures var (d, r) := ReadLoop(scheme, old(disk.Now()), net, offset, size);
      disk.Now() == d && ok == r.Some? && data == if r.Some? then r.value else []
  {
    ok, data := false, [];
    var buffer: seq<bv8> := [];
    var left := net;
    ghost var fetch := FetchOf(scheme);
    ghost var goal := ReadWith(fetch, disk.Now(), net, offset, size);
    assert goal.1.Some? ==> [] + goal.1.value == goal.1.value;
    while |buffer| < size
      invariant Remains(fetch, disk.Now(), left, offset, size, buffer, goal)
      decreases size - |buffer|
    {
      var n := Min(size - |buffer|, CHUNK);
      ghost var before := disk.Now();
      var r := FetchChunk(scheme, disk, First(left), offset + |buffer|, n);
      ReadStep(fetch, before, left, offset, size, buffer, goal, disk.Now(), r);
      if r.None? { return; }
      if |r.value| < n { return true, buffer + r.value; }
      buffer := buffer + r.value;
      left := Later(left);
    }
    assert buffer + [] == buffer;
    ok, data := true, buffer;
  }

  /** The loop has `buffer`, and what it still gets completes it to `goal`. */
  ghost predicate Remains(fetch: Fetcher, d: Drive, net: Net, offset: int, size: nat, buffer: seq<bv8>,
                          goal: (Drive, Option<seq<bv8>>))
  {
    && |buffer| <= size
    && var (g, rest) := ReadWith(fetch, d, net, offset + |buffer|, size - |buffer|);
       goal == (g, if rest.None? then None else Some(buffer + rest.value))
  }

  lemma ReadStep(fetch: Fetcher, d: Drive, net: Net, offset: int, size: nat, buffer: seq<bv8>,
                 goal: (Drive, Option<seq<bv8>>), e: Drive, r: Option<seq<bv8>>)
    requires |buffer| < size && fetch(d, First(net), offset + |buffer|, Min(size - |buffer|, CHUNK)) == (e, r)
    requires r.Some? ==> |r.value| <= Min(size - |buffer|, CHUNK)
    requires Remains(fetch, d, net, offset, size, buffer, goal)
    ensures r.None? ==> goal == (e, None)
    ensures r.Some? && |r.value| < Min(size - |buffer|, CHUNK) ==> goal == (e, Some(buffer + r.value))
    ensures r.Some? && |r.value| == Min(size - |buffer|, CHUNK) ==>
              Remains(fetch, e, Later(net), offset, size, buffer + r.value, goal)
  {
    if r.Some? && |r.value| == Min(size - |buffer|, CHUNK) {
      var at, more := offset + |buffer|, |r.value|;
      var next := ReadWith(fetch, e, Later(net), at + more, size - |buffer| - more);
      assert next.1.Some? ==> buffer + (r.value + next.1.value) == buffer + r.value + next.1.value;
      assert at + more == offset + |buffer + r.value|;
    }
  }

  /** handle_read refuses exactly what is out of range or cannot be opened before it reads, and then what pread does. */
  lemma ReadRefused(scheme: Scheme, d: Drive, opens: bool, offset: int, size: int)
    ensures var (e, reply) := Answer(scheme, d, opens, offset, size);
      && (offset < 0 || size < 0 || !opens ==> (e, reply) == (d, ReadError))
      && (offset >= 0 && size >= 0 && opens ==>
            && e == d.(gets := Rest(d.gets))
            && (reply.ReadError? <==> d.gets != [] && d.gets[0] in {Interrupted, Failed}))
  {
  }

  // ---------------------------------------------------------------- what a read returns

  /**
    The number of bytes that a read returns on an honest disk, from what becomes of its requests and the outcomes of its
    calls: None if a request or an answer does not get through or a call is interrupted or fails.  A call that transfers
    less than it was asked for is the last.
  */
  function ReadLength(net: Net, script: Script, f: seq<bv8>, offset: nat, size: nat): Option<nat>
    decreases size
  {
    if size == 0 then Some(0)
    else
      var n := Min(size, CHUNK);
      var o, s := Next(script, n), |Slice(f, offset, n)|;
      if !Through(First(net)) || !o.Moves? then None
      else if Min(o.n, s) < n then Some(Min(o.n, s))
      else
        var rest := ReadLength(Later(net), Rest(script), f, offset + n, size - n);
        if rest.None? then None else Some(n + rest.value)
  }

  /** What one call gets on an honest disk over a network that alters nothing. */
  ghost predicate FetchesHonestly(fetch: Fetcher)
  {
    forall d: Drive, way: Delivery, offset: nat, size: nat {:trigger fetch(d, way, offset, size)} ::
      Honest(d.gets) && Unaltered(way) ==>
        var (e, r) := fetch(d, way, offset, size);
        var o, s := Next(d.gets, size), Slice(d.bytes, offset, size);
        && e.bytes == d.bytes && Honest(e.gets)
        && (r.Some? ==> o.Moves? && |r.value| == Min(o.n, |s|) && r.value == Slice(d.bytes, offset, |r.value|))
        && (r.Some? <==> Through(way) && o.Moves?) && (Through(way) ==> e.gets == Rest(d.gets))
  }

  lemma FetchHonest(scheme: Scheme)
    requires Sound(scheme)
    ensures FetchesHonestly(FetchOf(scheme)) && FetchesBytes(FetchOf(scheme))
  {
    forall d: Drive, offset: nat, size: nat, k: nat | k <= |Slice(d.bytes, offset, size)|
      ensures Slice(d.bytes, offset, size)[..k] == Slice(d.bytes, offset, k)
    {
      SliceCut(d.bytes, offset, size, k);
    }
  }

  lemma LaterReliable(net: Net)
    requires ReliableNet(net)
    ensures ReliableNet(Later(net)) && First(net) == Arrives(None, true, true)
  {
  }

  /** Less of it: bytes of the file from the offset on. */
  ghost predicate FetchesBytes(fetch: Fetcher)
  {
    forall d: Drive, way: Delivery, offset: nat, size: nat {:trigger fetch(d, way, offset, size)} ::
      Honest(d.gets) && Unaltered(way) ==>
        var (e, r) := fetch(d, way, offset, size);
        && e.bytes == d.bytes && Honest(e.gets)
        && BytesAt(r, d.bytes, offset, size)
  }

  /** At most `size` bytes of the file from the offset on, if any. */
  ghost predicate BytesAt(r: Option<seq<bv8>>, f: seq<bv8>, offset: nat, size: nat)
  {
    r.Some? ==> |r.value| <= size && r.value == Slice(f, offset, |r.value|)
  }

  lemma BytesMore(a: seq<bv8>, rest: Option<seq<bv8>>, f: seq<bv8>, offset: nat, n: nat, size: nat)
    requires |a| == n <= size && BytesAt(Some(a), f, offset, n) && BytesAt(rest, f, offset + n, size - n)
    ensures BytesAt(if rest.None? then None else Some(a + rest.value), f, offset, size)
  {
    if rest.Some? {
      SliceAppend(f, offset, n, |rest.value|);
    }
  }

  lemma {:induction false} HonestReadWith(fetch: Fetcher, d: Drive, net: Net, offset: nat, size: nat)
    requires FetchesBytes(fetch) && Honest(d.gets) && HonestNet(net)
    ensures BytesAt(ReadWith(fetch, d, net, offset, size).1, d.bytes, offset, size)
    decreases size
  {
    if size > 0 {
      var n := Min(size, CHUNK);
      LaterHonest(net);
      var (e, answer) := fetch(d, First(net), offset, n);
      if answer.Some? && |answer.value| == n {
        HonestReadWith(fetch, e, Later(net), offset + n, size - n);
        BytesMore(answer.value, ReadWith(fetch, e, Later(net), offset + n, size - n).1, d.bytes, offset, n, size);
      }
    }
  }

  /** On an honest path a successful read returns a prefix of the slice asked for. */
  lemma ReadReturnsPrefix(scheme: Scheme, d: Drive, net: Net, offset: nat, size: nat)
    requires Sound(scheme) && Honest(d.gets) && HonestNet(net)
    ensures var r := ReadLoop(scheme, d, net, offset, size).1; r.Some? ==> r.value <= Slice(d.bytes, offset, size)
  {
    FetchHonest(scheme);
    HonestReadWith(FetchOf(scheme), d, net, offset, size);
    var r := ReadLoop(scheme, d, net, offset, size).1;
    if r.Some? {
      SlicePrefix(d.bytes, offset, |r.value|, size);
    }
  }

  lemma SlicePrefix(f: seq<bv8>, offset: nat, n: nat, size: nat)
    requires n <= size
    ensures Slice(f, offset, n) <= Slice(f, offset, size)
  {
  }

  lemma SliceCut(f: seq<bv8>, offset: nat, n: nat, k: nat)
    requires k <= |Slice(f, offset, n)|
    ensures Slice(f, offset, n)[..k] == Slice(f, offset, k)
  {
  }

  /** The bytes from the offset on, as many as `k` says. */
  ghost predicate Returns(r: Option<seq<bv8>>, f: seq<bv8>, offset: nat, k: Option<nat>)
  {
    (r.Some? <==> k.Some?) && (r.Some? ==> |r.value| == k.value && r.value == Slice(f, offset, k.value))
  }

  lemma ReturnsMore(a: seq<bv8>, rest: Option<seq<bv8>>, f: seq<bv8>, offset: nat, n: nat, k: Option<nat>)
    requires |a| == n && a == Slice(f, offset, n) && Returns(rest, f, offset + n, k)
    ensures Returns(if rest.None? then None else Some(a + rest.value), f, offset,
                    if k.None? then None else Some(n + k.value))
  {
    if k.Some? {
      SliceAppend(f, offset, n, k.value);
    }
  }

  /** One request: what it got, and what the requests after it return if it got everything. */
  lemma FirstReturns(o: Outcome, through: bool, answer: Option<seq<bv8>>, rest: Option<seq<bv8>>, f: seq<bv8>,
                     offset: nat, n: nat, k: Option<nat>)
    requires answer.Some? <==> through && o.Moves?
    requires answer.Some? ==> |answer.value| == Min(o.n, |Slice(f, offset, n)|)
                              && answer.value == Slice(f, offset, |answer.value|)
    requires answer.Some? && |answer.value| == n ==> Returns(rest, f, offset + n, k)
    ensures Returns(if answer.None? || |answer.value| < n then answer
                    else if rest.None? then None else Some(answer.value + rest.value), f, offset,
                    if !through || !o.Moves? then None
                    else if Min(o.n, |Slice(f, offset, n)|) < n then Some(Min(o.n, |Slice(f, offset, n)|))
                    else if k.None? then None else Some(n + k.value))
  {
    if answer.Some? && |answer.value| == n {
      ReturnsMore(answer.value, rest, f, offset, n, k);
    }
  }

  lemma {:induction false} ExactReadWith(fetch: Fetcher, d: Drive, net: Net, offset: nat, size: nat)
    requires FetchesHonestly(fetch) && Honest(d.gets) && HonestNet(net)
    ensures Returns(ReadWith(fetch, d, net, offset, size).1, d.bytes, offset,
                    ReadLength(net, d.gets, d.bytes, offset, size))
    decreases size
  {
    if size > 0 {
      var n := Min(size, CHUNK);
      LaterHonest(net);
      var (e, answer) := fetch(d, First(net), offset, n);
      if answer.Some? && |answer.value| == n {
        ExactReadWith(fetch, e, Later(net), offset + n, size - n);
      }
      FirstReturns(Next(d.gets, n), Through(First(net)), answer,
                   ReadWith(fetch, e, Later(net), offset + n, size - n).1, d.bytes, offset, n,
                   ReadLength(Later(net), Rest(d.gets), d.bytes, offset + n, size - n));
    }
  }

  /**
    Exactly what httpfs_read_file returns on an honest path: it succeeds if and only if every request and answer gets
    through and no call is interrupted or fails, and then returns the bytes from the offset on, as many as `ReadLength`
    says.
  */
  lemma ReadReturnsExactly(scheme: Scheme, d: Drive, net: Net, offset: nat, size: nat)
    requires Sound(scheme) && Honest(d.gets) && HonestNet(net)
    ensures Returns(ReadLoop(scheme, d, net, offset, size).1, d.bytes, offset,
                    ReadLength(net, d.gets, d.bytes, offset, size))
  {
    FetchHonest(scheme);
    ExactReadWith(FetchOf(scheme), d, net, offset, size);
  }

  /** Every request of a read gets through, and none of its calls transfers less than it could. */
  ghost predicate NeverShort(net: Net, script: Script, f: seq<bv8>, offset: nat, size: nat)
    decreases size
  {
    size > 0 ==>
      var n := Min(size, CHUNK);
      var o, s := Next(script, n), |Slice(f, offset, n)|;
      && Through(First(net)) && o.Moves? && o.n >= s
      && (s == n ==> NeverShort(Later(net), Rest(script), f, offset + n, size - n))
  }

  lemma SliceSizes(f: seq<bv8>, offset: nat, n: nat, size: nat)
    requires n <= size
    ensures |Slice(f, offset, size)| == if |Slice(f, offset, n)| < n then |Slice(f, offset, n)|
                                        else n + |Slice(f, offset + n, size - n)|
  {
  }

  lemma {:induction false} NeverShortIsFull(net: Net, script: Script, f: seq<bv8>, offset: nat, size: nat)
    ensures NeverShort(net, script, f, offset, size)
            <==> ReadLength(net, script, f, offset, size) == Some(|Slice(f, offset, size)|)
    decreases size
  {
    if size > 0 {
      var n := Min(size, CHUNK);
      SliceSizes(f, offset, n, size);
      if |Slice(f, offset, n)| == n {
        NeverShortIsFull(Later(net), Rest(script), f, offset + n, size - n);
      }
    }
  }

  lemma ReturnsAll(r: Option<seq<bv8>>, f: seq<bv8>, offset: nat, size: nat, k: Option<nat>)
    requires Returns(r, f, offset, k)
    ensures r == Some(Slice(f, offset, size)) <==> k == Some(|Slice(f, offset, size)|)
  {
    if k.Some? && k.value == |Slice(f, offset, size)| {
      SliceCut(f, offset, size, k.value);
    }
  }

  /** A read is complete if and only if all of it gets through and no call is interrupted, fails or comes back short. */
  lemma ReadIsComplete(scheme: Scheme, d: Drive, net: Net, offset: nat, size: nat)
    requires Sound(scheme) && Honest(d.gets) && HonestNet(net)
    ensures ReadLoop(scheme, d, net, offset, size).1 == Some(Slice(d.bytes, offset, size)) <==>
            NeverShort(net, d.gets, d.bytes, offset, size)
  {
    ReadReturnsExactly(scheme, d, net, offset, size);
    NeverShortIsFull(net, d.gets, d.bytes, offset, size);
    ReturnsAll(ReadLoop(scheme, d, net, offset, size).1, d.bytes, offset, size,
               ReadLength(net, d.gets, d.bytes, offset, size));
  }

  /** A read of two bytes that the kernel cuts short after one succeeds, with one byte. */
  method ShortRead(scheme: Scheme) returns (ok: bool, data: seq<bv8>)
    requires Sound(scheme)
    ensures ok && data == [7]
  {
    var disk := new Disk([7, 8], [], [Moves(1)]);
    var d := disk.Now();
    ok, data := ReadFile(scheme, disk, [], 0, 2);
    ReadReturnsExactly(scheme, d, [], 0, 2);
    assert Slice(d.bytes, 0, 1) == [7];
  }

  // ---------------------------------------------------------------- reading back undoes writing

  /** Every call can transfer a whole chunk. */
  ghost predicate Plentiful(script: Script)
  {
    forall i :: 0 <= i < |script| ==> script[i].Moves? && script[i].n >= CHUNK
  }

  lemma SuffixPlentiful(rest: Script, script: Script)
    requires IsSuffix(rest, script)
    ensures Plentiful(script) ==> Plentiful(rest)
    ensures Honest(script) ==> Honest(rest)
  {
  }

  lemma {:induction false} PlentifulNeverShort(net: Net, script: Script, f: seq<bv8>, offset: nat, size: nat)
    requires Plentiful(script) && ReliableNet(net)
    ensures NeverShort(net, script, f, offset, size)
    decreases size
  {
    if size > 0 {
      LaterReliable(net);
      PlentifulNeverShort(Later(net), Rest(script), f, offset + Min(size, CHUNK), size - Min(size, CHUNK));
    }
  }

  lemma SendSuffix(scheme: Scheme, d: Drive, way: Delivery, offset: int, chunk: seq<bv8>)
    ensures IsSuffix(Send(scheme, d, way, offset, chunk).0.gets, d.gets)
  {
    SuffixRefl(d.gets);
    if offset >= 0 && way.Arrives? {
      var body := Body(way, chunk);
      PreadEnds(PwriteRun(WriteAt, d.bytes, offset, body, 0, d.puts).file, offset, |body|, [], d.gets);
    }
  }

  lemma {:induction false} WriteWithSuffix(send: Sender, d: Drive, net: Net, offset: int, buffer: seq<bv8>)
    requires forall d: Drive, way, offset, chunk :: IsSuffix(send(d, way, offset, chunk).0.gets, d.gets)
    ensures IsSuffix(WriteWith(send, d, net, offset, buffer).0.gets, d.gets)
    decreases |buffer|
  {
    SuffixRefl(d.gets);
    if buffer != [] {
      var n := Min(|buffer|, CHUNK);
      var (e, accepted) := send(d, First(net), offset, buffer[..n]);
      assert IsSuffix(send(d, First(net), offset, buffer[..n]).0.gets, d.gets);
      if accepted {
        WriteWithSuffix(send, e, Later(net), offset + n, buffer[n..]);
        SuffixTrans(WriteWith(send, d, net, offset, buffer).0.gets, e.gets, d.gets);
      }
    }
  }

  /** A write uses up the outcomes of reads from the front. */
  lemma WriteSuffix(scheme: Scheme, d: Drive, net: Net, offset: int, buffer: seq<bv8>)
    ensures IsSuffix(WriteLoop(scheme, d, net, offset, buffer).0.gets, d.gets)
  {
    forall d: Drive, way, offset, chunk
      ensures IsSuffix(SendOf(scheme)(d, way, offset, chunk).0.gets, d.gets)
    {
      SendSuffix(scheme, d, way, offset, chunk);
    }
    WriteWithSuffix(SendOf(scheme), d, net, offset, buffer);
  }

  /**
    Reading back undoes writing: on an honest path a read of the range just written returns a prefix of the buffer, and
    the whole buffer exactly when all of it gets through and none of the calls left for it after the write is short.
  */
  lemma ReadUndoesWrite(scheme: Scheme, d: Drive, netW: Net, netR: Net, offset: nat, buffer: seq<bv8>)
    requires Sound(scheme) && Honest(d.puts) && Honest(d.gets) && HonestNet(netW) && HonestNet(netR)
    requires WriteLoop(scheme, d, netW, offset, buffer).1
    ensures var e := WriteLoop(scheme, d, netW, offset, buffer).0;
      var r := ReadLoop(scheme, e, netR, offset, |buffer|).1;
      && IsSuffix(e.gets, d.gets) && e.bytes == WriteAt(d.bytes, offset, buffer)
      && (r.Some? ==> r.value <= buffer)
      && (r == Some(buffer) <==> NeverShort(netR, e.gets, e.bytes, offset, |buffer|))
  {
    var e := WriteLoop(scheme, d, netW, offset, buffer).0;
    WriteSuffix(scheme, d, netW, offset, buffer);
    SuffixPlentiful(e.gets, d.gets);
    WriteRefinesOneWrite(scheme, d, netW, offset, buffer);
    SliceOfWrite(d.bytes, offset, buffer);
    ReadReturnsPrefix(scheme, e, netR, offset, |buffer|);
    ReadIsComplete(scheme, e, netR, offset, |buffer|);
  }

  lemma PlentifulIsReliable(script: Script)
    requires Plentiful(script)
    ensures Reliable(script) && Honest(script)
  {
  }

  /** A write and a read of the same range on a disk that serves whole chunks: the buffer comes back. */
  lemma PlentifulRoundTrip(scheme: Scheme, d: Drive, netW: Net, netR: Net, offset: nat, buffer: seq<bv8>)
    requires Sound(scheme) && Reliable(d.puts) && Plentiful(d.gets) && ReliableNet(netW) && ReliableNet(netR)
    ensures var (e, wrote) := WriteLoop(scheme, d, netW, offset, buffer);
      wrote && ReadLoop(scheme, e, netR, offset, |buffer|).1 == Some(buffer)
  {
    PlentifulIsReliable(d.gets);
    RestReliable(d.puts);
    WriteSucceedsExactly(scheme, d, netW, offset, buffer);
    HonestBodies(scheme, netW, offset, buffer);
    var e := WriteLoop(scheme, d, netW, offset, buffer).0;
    ReadUndoesWrite(scheme, d, netW, netR, offset, buffer);
    SuffixPlentiful(e.gets, d.gets);
    PlentifulNeverShort(netR, e.gets, e.bytes, offset, |buffer|);
  }

  /** Writing and then reading the same range. */
  method WriteThenRead(scheme: Scheme, disk: Disk, netW: Net, netR: Net, offset: nat, buffer: seq<bv8>)
    returns (wrote: bool, ok: bool, data: seq<bv8>)
    requires Sound(scheme)
    modifies disk
    ensures var (e, w) := WriteLoop(scheme, old(disk.Now()), netW, offset, buffer);
      && wrote == w && disk.bytes == e.bytes
      && (wrote && Honest(old(disk.puts)) && Honest(old(disk.gets)) && HonestNet(netW) && HonestNet(netR) ==>
            (ok && data == buffer <==> NeverShort(netR, e.gets, e.bytes, offset, |buffer|)))
    ensures Reliable(old(disk.puts)) && Plentiful(old(disk.gets)) && ReliableNet(netW) && ReliableNet(netR) ==>
              wrote && ok && data == buffer
  {
    ghost var d := disk.Now();
    var n;
    ok, data := false, [];
    wrote, n := WriteFile(scheme, disk, netW, offset, buffer);
    ghost var e := disk.Now();
    if wrote {
      ok, data := ReadFile(scheme, disk, netR, offset, |buffer|);
      ReadLeavesFile(scheme, e, netR, offset, |buffer|);
      if Honest(d.puts) && Honest(d.gets) && HonestNet(netW) && HonestNet(netR) {
        ReadUndoesWrite(scheme, d, netW, netR, offset, buffer);
      }
    }
    if Reliable(d.puts) && Plentiful(d.gets) && ReliableNet(netW) && ReliableNet(netR) {
      PlentifulRoundTrip(scheme, d, netW, netR, offset, buffer);
    }
  }

  lemma {:induction false} ReadWithLeavesFile(fetch: Fetcher, d: Drive, net: Net, offset: int, size: nat)
    requires forall d: Drive, way, offset, size :: fetch(d, way, offset, size).0.bytes == d.bytes
    ensures ReadWith(fetch, d, net, offset, size).0.bytes == d.bytes
    decreases size
  {
    if size > 0 {
      var n := Min(size, CHUNK);
      ReadWithLeavesFile(fetch, fetch(d, First(net), offset, n).0, Later(net), offset + n, size - n);
    }
  }

  lemma ReadLeavesFile(scheme: Scheme, d: Drive, net: Net, offset: int, size: nat)
    ensures ReadLoop(scheme, d, net, offset, size).0.bytes == d.bytes
  {
    ReadWithLeavesFile(FetchOf(scheme), d, net, offset, size);
  }
}

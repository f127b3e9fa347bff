/** connection_state of demo/service_provider/c/httpfs_server.c: the buffer in place, refining the model of Framing. */
module Connections {
  import opened CText
  import opened Framing

  class Connection {
    var buffer: array<char>
    var capacity: nat
    var received: nat
    var headerBytes: nat
    var contentLength: int
    /** The bytes that growing the buffer has copied so far. */
    ghost var copied: nat

    ghost function State(): Conn
      reads this, buffer
      requires received <= buffer.Length
    {
      Conn(buffer[..received], capacity, headerBytes, contentLength)
    }

    /** Holds until the connection is closed. */
    ghost predicate Sound()
      reads this, buffer
    {
      && buffer.Length == capacity && received < capacity && IsCapacity(capacity)
      && headerBytes <= received && contentLength <= LLONG_MAX
      && copied + INITIAL <= capacity
    }

    /** Holds between events. */
    ghost predicate Valid()
      reads this, buffer
    {
      Sound() && Sane(State())
    }

    constructor ()
      ensures Valid() && State() == START && fresh(buffer) && copied == 0
    {
      assert INITIAL == INITIAL * Pow2(0);
      buffer := new char[INITIAL];
      capacity, received, headerBytes, contentLength, copied := INITIAL, 0, 0, -1, 0;
      new;
      assert buffer[..0] == "";
    }

    /** ensure_connection_capacity: realloc to the next doubling, keeping the contents. */
    method EnsureCapacity(required: nat) returns (ok: bool)
      requires Sound()
      modifies this`buffer, this`capacity, this`copied
      ensures Sound() && (buffer == old(buffer) || fresh(buffer))
      ensures ok <==> required <= MAX
      ensures State() == old(State()).(capacity := Grow(old(capacity), required))
      ensures copied == old(copied) + if capacity == old(capacity) then 0 else old(capacity)
    {
      GrowIsCapacity(capacity, required);
      if required <= capacity { return true; }
      if required > MAX { return false; }
      var newCapacity := if capacity > 0 then capacity else INITIAL;
      while newCapacity < required
        invariant 0 < newCapacity <= MAX
        invariant Doubled(newCapacity, required) == Doubled(capacity, required)
        decreases MAX - newCapacity
      {
        if newCapacity >= MAX / 2 {
          newCapacity := MAX;
          break;
        }
        newCapacity := 2 * newCapacity;
      }
      var newBuffer := new char[newCapacity](i requires 0 <= i < newCapacity reads this, buffer =>
        if i < buffer.Length then buffer[i] else '\0');
      assert newBuffer[..received] == buffer[..received];
      copied := copied + capacity;
      buffer, capacity := newBuffer, newCapacity;
      ok := true;
    }

    /** The first half of connection_has_complete_request: look for the end of the header. */
    method ScanHeader() returns (found: bool, bad: bool)
      requires Valid() && headerBytes == 0
      modifies this`headerBytes, this`contentLength
      ensures Sound() && State() == Scan(old(State()))
      ensures found == (headerBytes != 0) && bad == (found && contentLength < 0)
    {
      var text := CString(buffer[..received]);
      var headerEnd := Find(text, BLANK_LINE, 0);
      if headerEnd < 0 { return false, false; }
      headerBytes := headerEnd + 4;
      contentLength := LengthIn(text, headerEnd);
      return true, contentLength < 0;
    }

    /** connection_has_complete_request: 1, 0, -1 or -2 as `Check` says. */
    method HasCompleteRequest() returns (state: int)
      requires Valid()
      modifies this`buffer, this`capacity, this`copied, this`headerBytes, this`contentLength, buffer
      ensures Sound() && (state != -1 ==> Valid()) && (buffer == old(buffer) || fresh(buffer))
      ensures state in {1, 0, -1, -2} && (State(), Reported(state)) == Check(old(State()))
    {
      ghost var before := State();
      buffer[received] := '\0';
      assert State() == before;
      if headerBytes == 0 {
        var found, bad := ScanHeader();
        if !found { return 0; }
        if bad { return -1; }
      }
      state := SettleSize();
    }

    /** The second half: is the request complete, and does the buffer have to grow for it? */
    method SettleSize() returns (state: int)
      requires Valid() && headerBytes != 0
      modifies this`buffer, this`capacity, this`copied
      ensures Valid() && (buffer == old(buffer) || fresh(buffer))
      ensures state in {1, 0, -2} && forall scanned :: (State(), Reported(state)) == Settle(old(State()), scanned)
    {
      var total := headerBytes + contentLength;
      assert total + 1 < 0x1_0000_0000_0000_0000;
      if total + 1 > MAX { return -2; }
      var ok := EnsureCapacity(total + 1);
      return if received >= total then 1 else 0;
    }

    /** The growth before a recv into a full buffer. */
    method Widen()
      requires Valid()
      modifies this`buffer, this`capacity, this`copied
      ensures Valid() && (buffer == old(buffer) || fresh(buffer)) && State() == Widened(old(State()))
    {
      if capacity - received <= 1 {
        var next := 2 * capacity;
        if next > MAX { next := MAX; }
        var ok := EnsureCapacity(next);
      }
    }

    /** recv of `d` into the free part of the buffer. */
    method Receive(d: string)
      requires Valid() && received + |d| < capacity
      modifies this`received, buffer
      ensures Valid() && State() == old(State()).(data := old(State()).data + d)
    {
      ghost var before := buffer[..received];
      forall i | 0 <= i < |d| {
        buffer[received + i] := d[i];
      }
      received := received + |d|;
      assert buffer[..received] == before + d;
    }

    /** A recv that delivered `d`, and the check after it. */
    method AcceptBytes(d: string) returns (progress: Progress)
      requires Valid() && received + |d| < capacity
      modifies this, buffer
      ensures Sound() && (progress == Continue ==> Valid()) && (buffer == old(buffer) || fresh(buffer))
      ensures (State(), progress) == Accept(old(State()), d)
    {
      Receive(d);
      var state := HasCompleteRequest();
      progress := if state < 0 then End(Refused(Reported(state))) else if state > 0 then End(Dispatched) else Continue;
    }

    method ReceiveBytes(waiting: string, n: nat) returns (progress: Progress, rest: string)
      requires Valid()
      modifies this, buffer
      ensures Sound() && (progress == Continue || progress == End(Waiting) ==> Valid())
      ensures buffer == old(buffer) || fresh(buffer)
      ensures (State(), rest, progress) == RoundBytes(old(State()), waiting, n)
    {
      var room := capacity - received - 1;
      ghost var before := State();
      assert room == Space(before);
      if room == 0 { return End(Closed), waiting; }
      var k := Delivered(n, |waiting|, room);
      if k == 0 { return End(Waiting), waiting; }
      progress := AcceptBytes(waiting[..k]);
      rest := waiting[k..];
      assert (State(), progress) == Accept(before, waiting[..k]);
    }

    /** One round of handle_client_event's loop. */
    method ReceiveOnce(waiting: string, r: Recv) returns (progress: Progress, rest: string)
      requires Valid()
      modifies this, buffer
      ensures Sound() && (progress == Continue || progress == End(Waiting) ==> Valid())
      ensures buffer == old(buffer) || fresh(buffer)
      ensures (State(), rest, progress) == Round(old(State()), waiting, r)
    {
      Widen();
      rest := waiting;
      match r
      case Again => progress := End(Waiting);
      case Interrupted => progress := Continue;
      case Eof => progress := End(Closed);
      case Failed => progress := End(Closed);
      case Bytes(n) => progress, rest := ReceiveBytes(waiting, n);
    }

    /** handle_client_event, over a script of recv results with the bytes waiting in the kernel. */
    method HandleClientEvent(hangup: bool, waiting: string, script: seq<Recv>) returns (result: Result, rest: string)
      requires Valid()
      modifies this, buffer
      ensures Sound() && (result == Waiting ==> Valid()) && (buffer == old(buffer) || fresh(buffer))
      ensures hangup ==> result == Closed && State() == old(State()) && rest == waiting
      ensures !hangup ==> (State(), rest, result) == Handle(old(State()), waiting, script)
    {
      rest := waiting;
      if hangup { return Closed, rest; }
      ghost var goal := Handle(State(), waiting, script);
      var i := 0;
      while true
        invariant i <= |script| && Valid() && (buffer == old(buffer) || fresh(buffer))
        invariant Handle(State(), rest, script[i..]) == goal
        decreases |script| - i
      {
        var progress;
        progress, rest := ReceiveOnce(rest, if i == |script| then Again else script[i]);
        if progress.End? { return progress.result, rest; }
        i := i + 1;
      }
    }
  }

  /** The meaning of connection_has_complete_request's result. */
  function Reported(state: int): Verdict
  {
    if state == 1 then Complete else if state == 0 then More else if state == -1 then Invalid else TooLarge
  }
}

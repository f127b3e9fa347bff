/**
  From a call of the client to its handler on the server: the request that src/http_client.c has written for it,
  received in any fragments, framed, parsed and dispatched by demo/service_provider/c/httpfs_server.c, and its arguments
  read back by the handler.
*/
module Arrivals {
  import opened Base
  import opened CText
  import opened Framing
  import opened RequestParser
  import opened RequestText
  import opened Query
  import opened SparseMd5
  import opened Requests
  import JsonBody

  // ---------------------------------------------------------------- header lines, in any order

  /** Line `k` is the first that mentions a length, and it announces `n`. */
  ghost predicate Announces(fields: seq<string>, k: nat, n: nat)
  {
    k < |fields| && fields[k] == LengthLine(n) && forall i :: 0 <= i < k ==> NoLength(fields[i])
  }

  /** Line `j` is the first that names the digest, and it carries this one. */
  ghost predicate Carries(fields: seq<string>, j: nat, digest: string)
  {
    j < |fields| && fields[j] == DigestLine(digest) && forall i :: 0 <= i < j ==> !Names(fields[i], MD5_HEADER)
  }

  /** Header lines that say nothing about the length or the digest. */
  ghost predicate Neutral(ls: seq<string>)
  {
    forall i :: 0 <= i < |ls| ==> IsLine(ls[i]) && NoLength(ls[i]) && !Names(ls[i], MD5_HEADER)
  }

  /** The client's two lines among neutral ones, in either order: each is the first of its kind. */
  lemma WriteLinesServe(before: seq<string>, between: seq<string>, after: seq<string>, digest: string, n: nat,
                        digestFirst: bool)
    requires Neutral(before) && Neutral(between) && AllLines(after) && IsValidMd5Hex(digest)
    ensures var x := if digestFirst then DigestLine(digest) else LengthLine(n);
      var y := if digestFirst then LengthLine(n) else DigestLine(digest);
      var fields, i, j := before + [x] + between + [y] + after, |before|, |before| + 1 + |between|;
      && AllLines(fields)
      && Carries(fields, if digestFirst then i else j, digest)
      && Announces(fields, if digestFirst then j else i, n)
  {
    DigestLineIsPlain(digest);
    LengthLineIsLine(n);
  }

  lemma {:induction false} FirstOfIs(ls: seq<string>, j: nat, f: string -> Option<Option<string>>)
    requires j < |ls| && f(ls[j]).Some? && forall i :: 0 <= i < j ==> f(ls[i]).None?
    ensures FirstOf(ls, f) == f(ls[j]).value
    decreases j
  {
    if j > 0 {
      FirstOfIs(ls[1..], j - 1, f);
    }
  }

  lemma DigestFound(fields: seq<string>, j: nat, digest: string)
    requires Carries(fields, j, digest) && IsValidMd5Hex(digest)
    ensures FirstOf(fields, DIGEST) == Some(digest)
  {
    DigestLineRead(digest, fields[j]);
    FirstOfIs(fields, j, DIGEST);
  }

  lemma PostLength(l: string, fields: seq<string>, k: nat, n: nat)
    requires IsLine(l) && AllLine(l) && AllLines(fields) && Announces(fields, k, n) && n <= LLONG_MAX
    ensures Declared(Head([l] + fields)) == n
  {
    var ls := [l] + fields;
    ColonFreeHasNone(l);
    forall i | 0 <= i <= k
      ensures NoLength(ls[i])
    {
      assert i > 0 ==> ls[i] == fields[i - 1];
    }
    AnnouncesLength(ls, k + 1, n);
  }

  lemma GetLength(l: string, fields: seq<string>)
    requires IsLine(l) && AllLine(l) && AllLines(fields) && forall i :: 0 <= i < |fields| ==> NoLength(fields[i])
    ensures Declared(Head([l] + fields)) == 0
  {
    var ls := [l] + fields;
    ColonFreeHasNone(l);
    forall i | 0 <= i < |ls|
      ensures IsLine(ls[i]) && NoLength(ls[i])
    {
      assert i > 0 ==> ls[i] == fields[i - 1];
    }
    AnnouncesNone(ls);
  }

  // ---------------------------------------------------------------- requests with and without a body

  /** The bytes of one request reach a fresh connection, in any fragments. */
  ghost predicate Sent(h: string, b: string, c: Conn, events: seq<Event>)
  {
    && |h| + |b| + 1 <= MAX && Arrived(events) == h + b && c == START
    && forall i :: 0 <= i < |events| ==> Quiet(events[i].script)
  }

  /** Once nothing waits in the kernel, the server has dispatched this. */
  ghost predicate Reaches(c: Conn, events: seq<Event>, p: Parsed)
    requires c == START
  {
    var (d, rest, result) := Run(c, "", events);
    (result == Dispatched && Process(d.data) == p) || (result == Waiting && rest != "")
  }

  /** A POST request: its length line may stand anywhere among the others. */
  lemma PostArrives(path: string, q: string, fields: seq<string>, k: nat, b: string, c: Conn, events: seq<Event>)
    requires IsTarget("POST", path) && AllQuery(q) && |q| < ENDPOINT_SIZE && AllLines(fields)
             && Announces(fields, k, |b|)
    requires Sent(Head([RequestLine("POST", path, q)] + fields), b, c, events)
    ensures Reaches(c, events, Dispatches("POST", path, q, fields, b))
  {
    RequestLineChars("POST", path, q);
    PostLength(RequestLine("POST", path, q), fields, k, |b|);
    TargetMeaning("POST", path, q, fields, b);
    EveryFragmentationMeansTheSame(Head([RequestLine("POST", path, q)] + fields), b, c, events);
  }

  /**
    A header whose first length line announces `n` decides over any stream that begins with it, however fragmented: once
    the header is received the request is refused if it cannot fit into 8 MiB, and otherwise it is dispatched once all
    of it is received.
  */
  lemma LengthLineDecides(l: string, fields: seq<string>, k: nat, n: nat, s: string, c: Conn, events: seq<Event>)
    requires IsLine(l) && AllLine(l) && AllLines(fields) && Announces(fields, k, n) && 0 < n <= LLONG_MAX
    requires Head([l] + fields) <= s && |Head([l] + fields)| < 8388608 && Arrived(events) == s && c == START
    requires forall i :: 0 <= i < |events| ==> Quiet(events[i].script)
    ensures var size := |Head([l] + fields)|;
      var fits := size + n + 1 <= 8388608;
      var (d, rest, result) := Run(c, "", events);
      if |d.data| < (if fits then size + n else size) then result == Waiting && d.data + rest == s
      else result == if fits then Dispatched else Refused(TooLarge)
  {
    var h := Head([l] + fields);
    AllTheLines(l, fields);
    HeadIsHeader([l] + fields);
    PostLength(l, fields, k, n);
    NonZeroIsDefinite(h);
    DefiniteIsAnnounced(h, s);
    EveryStream(h, s, n, c, events);
  }

  lemma AllTheLines(l: string, fields: seq<string>)
    requires IsLine(l) && AllLines(fields)
    ensures AllLines([l] + fields)
  {
  }

  /** A GET request: no line mentions a length. */
  lemma GetArrives(path: string, q: string, fields: seq<string>, c: Conn, events: seq<Event>)
    requires IsTarget("GET", path) && AllQuery(q) && |q| < ENDPOINT_SIZE && AllLines(fields)
    requires forall i :: 0 <= i < |fields| ==> NoLength(fields[i])
    requires Sent(Head([RequestLine("GET", path, q)] + fields), "", c, events)
    ensures Reaches(c, events, Dispatches("GET", path, q, fields, ""))
  {
    RequestLineChars("GET", path, q);
    GetLength(RequestLine("GET", path, q), fields);
    TargetMeaning("GET", path, q, fields, "");
    EveryFragmentationMeansTheSame(Head([RequestLine("GET", path, q)] + fields), "", c, events);
  }

  lemma Targets()
    ensures IsTarget("POST", "/v1/write") && IsTarget("GET", "/v1/read")
    ensures IsTarget("GET", "/v1/meta") && IsTarget("GET", "/v1/list")
  {
  }

  /**
    A write request with the client's own header lines, however the bytes are fragmented: the server dispatches it once,
    to /v1/write, with the path and offset that the client meant, the digest it computed, and the exact body.
  */
  lemma WriteRequestArrives(path: string, offset: int, fields: seq<string>, digest: string, j: nat, k: nat, b: string,
                            c: Conn, events: seq<Event>)
    requires IsBytes(path) && IsLong(offset) && WriteEndpoint(path, offset).Some?
    requires AllLines(fields) && IsValidMd5Hex(digest) && Carries(fields, j, digest) && Announces(fields, k, |b|)
    requires Sent(Head([RequestLine("POST", "/v1/write", WriteQuery(path, offset))] + fields), b, c, events)
    ensures Reaches(c, events, Request(Line("POST", "/v1/write", WriteQuery(path, offset)), digest, b))
    ensures QueryValue(WriteQuery(path, offset), "path", PATH_SIZE) == Some(path)
    ensures QueryValue(WriteQuery(path, offset), "offset", NUMBER_SIZE) == Some(Decimal(offset))
  {
    Targets();
    WriteQueryReceived(path, offset);
    WriteQueryChars(path, offset);
    DigestFound(fields, j, digest);
    PostArrives("/v1/write", WriteQuery(path, offset), fields, k, b, c, events);
  }

  /** The same for a read request: no body, and the path, offset and size that the client meant. */
  lemma ReadRequestArrives(path: string, offset: int, size: nat, fields: seq<string>, c: Conn, events: seq<Event>)
    requires IsBytes(path) && IsLong(offset) && size < 0x1_0000_0000_0000_0000 && ReadEndpoint(path, offset, size).Some?
    requires AllLines(fields) && forall i :: 0 <= i < |fields| ==> NoLength(fields[i])
    requires Sent(Head([RequestLine("GET", "/v1/read", ReadQuery(path, offset, size))] + fields), "", c, events)
    ensures Reaches(c, events, Dispatches("GET", "/v1/read", ReadQuery(path, offset, size), fields, ""))
    ensures QueryValue(ReadQuery(path, offset, size), "path", PATH_SIZE) == Some(path)
    ensures QueryValue(ReadQuery(path, offset, size), "offset", NUMBER_SIZE) == Some(Decimal(offset))
    ensures QueryValue(ReadQuery(path, offset, size), "size", NUMBER_SIZE) == Some(Decimal(size))
  {
    Targets();
    ReadQueryReceived(path, offset, size);
    ReadQueryChars(path, offset, size);
    GetArrives("/v1/read", ReadQuery(path, offset, size), fields, c, events);
  }

  /** And for meta and list. */
  lemma SimpleRequestArrives(target: string, path: string, fields: seq<string>, c: Conn, events: seq<Event>)
    requires target == "/v1/meta" || target == "/v1/list"
    requires IsBytes(path) && SimpleEndpoint(target, path).Some?
    requires AllLines(fields) && forall i :: 0 <= i < |fields| ==> NoLength(fields[i])
    requires Sent(Head([RequestLine("GET", target, SimpleQuery(path))] + fields), "", c, events)
    ensures Reaches(c, events, Dispatches("GET", target, SimpleQuery(path), fields, ""))
    ensures QueryValue(SimpleQuery(path), "path", PATH_SIZE) == Some(path)
  {
    Targets();
    SimpleQueryReceived(target, path);
    SimpleQueryChars(path);
    GetArrives(target, SimpleQuery(path), fields, c, events);
  }

  // ---------------------------------------------------------------- calls with a JSON body

  datatype Call =
    | CreateFile(path: string, mode: int)
    | CreateDir(path: string, mode: int)
    | RemoveFile(path: string)
    | RemoveDir(path: string)
    | Rename(oldPath: string, newPath: string)
    | Truncate(path: string, size: int)
    | Utimens(path: string, times: Times)

  /** The handlers of these calls. */
  datatype Handler = HandleCreateFile | HandleCreateDir | HandleRemoveFile | HandleRemoveDir | HandleRename
                   | HandleTruncate | HandleUtimens

  /** The endpoint that the client names. */
  function Target(call: Call): string
  {
    match call
    case CreateFile(_, _) => "/v1/create-file"
    case CreateDir(_, _) => "/v1/create-dir"
    case RemoveFile(_) => "/v1/remove-file"
    case RemoveDir(_) => "/v1/remove-dir"
    case Rename(_, _) => "/v1/rename"
    case Truncate(_, _) => "/v1/truncate"
    case Utimens(_, _) => "/v1/utimens"
  }

  /** dispatch_request, for these endpoints */
  function HandlerOf(line: Line): Option<Handler>
  {
    if line.method_ != "POST" then None
    else if line.path == "/v1/create-file" then Some(HandleCreateFile)
    else if line.path == "/v1/create-dir" then Some(HandleCreateDir)
    else if line.path == "/v1/remove-file" then Some(HandleRemoveFile)
    else if line.path == "/v1/remove-dir" then Some(HandleRemoveDir)
    else if line.path == "/v1/rename" then Some(HandleRename)
    else if line.path == "/v1/truncate" then Some(HandleTruncate)
    else if line.path == "/v1/utimens" then Some(HandleUtimens)
    else None
  }

  /** The body that the client prints for the call. */
  function BodyOf(call: Call): string
  {
    match call
    case CreateFile(path, mode) => CreateBody(path, mode)
    case CreateDir(path, mode) => CreateBody(path, mode)
    case RemoveFile(path) => RemoveBody(path)
    case RemoveDir(path) => RemoveBody(path)
    case Rename(oldPath, newPath) => RenameBody(oldPath, newPath)
    case Truncate(path, size) => TruncateBody(path, size)
    case Utimens(path, times) => UtimensBody(path, times)
  }

  /** Its numbers are those of C. */
  predicate HasLongs(call: Call)
  {
    match call
    case CreateFile(_, mode) => IsLong(mode)
    case CreateDir(_, mode) => IsLong(mode)
    case Truncate(_, size) => IsLong(size)
    case Utimens(_, t) => IsLong(t.atimeSec) && IsLong(t.atimeNsec) && IsLong(t.mtimeSec) && IsLong(t.mtimeNsec)
    case _ => true
  }

  /** What can be read from a body: the paths and the numbers under its keys. */
  datatype Reading = Reading(path: string -> Option<string>, number: string -> Option<int>)

  /** json_get_string and json_get_long on the body as a C string */
  function ReadingOf(body: string): Reading
  {
    Reading(key => JsonBody.GetString(body, key, PATH_SIZE), key => JsonBody.GetLong(body, key))
  }

  function TimesIn(r: Reading): Option<Times>
  {
    var a, b, c, d := r.number("atime_sec"), r.number("atime_nsec"), r.number("mtime_sec"), r.number("mtime_nsec");
    if a.None? || b.None? || c.None? || d.None? then None else Some(Times(a.value, b.value, c.value, d.value))
  }

  /** A path and something else, if neither is missing. */
  function Both<T>(path: Option<string>, other: Option<T>): Option<(string, T)>
  {
    if path.None? || other.None? then None else Some((path.value, other.value))
  }

  /** What a handler makes of a body: the call it performs, or an error. */
  function Understood(handler: Handler, r: Reading): Option<Call>
  {
    match handler
    case HandleCreateFile =>
      var a := Both(r.path("path"), r.number("mode"));
      if a.None? then None else Some(CreateFile(a.value.0, a.value.1))
    case HandleCreateDir =>
      var a := Both(r.path("path"), r.number("mode"));
      if a.None? then None else Some(CreateDir(a.value.0, a.value.1))
    case HandleRemoveFile =>
      if r.path("path").None? then None else Some(RemoveFile(r.path("path").value))
    case HandleRemoveDir =>
      if r.path("path").None? then None else Some(RemoveDir(r.path("path").value))
    case HandleRename =>
      var a := Both(r.path("old_path"), r.path("new_path"));
      if a.None? then None else Some(Rename(a.value.0, a.value.1))
    case HandleTruncate =>
      var a := Both(r.path("path"), r.number("size"));
      if a.None? then None else Some(Truncate(a.value.0, a.value.1))
    case HandleUtimens =>
      var a := Both(r.path("path"), TimesIn(r));
      if a.None? then None else Some(Utimens(a.value.0, a.value.1))
  }

  /** A path that a handler can read back. */
  predicate PathArrives(path: string) { JsonBody.Recovered(path, PATH_SIZE).Some? }

  /** Every path of the call can be read back. */
  predicate PathsArrive(call: Call)
  {
    if call.Rename? then PathArrives(call.oldPath) && PathArrives(call.newPath) else PathArrives(call.path)
  }

  /** The call if its paths arrive. */
  function Meant(call: Call): Option<Call> { if PathsArrive(call) then Some(call) else None }

  lemma HandlerFound(call: Call)
    ensures HandlerOf(Line("POST", Target(call), "")) == Some(HandlerFor(call))
  {
  }

  function HandlerFor(call: Call): Handler
  {
    match call
    case CreateFile(_, _) => HandleCreateFile
    case CreateDir(_, _) => HandleCreateDir
    case RemoveFile(_) => HandleRemoveFile
    case RemoveDir(_) => HandleRemoveDir
    case Rename(_, _) => HandleRename
    case Truncate(_, _) => HandleTruncate
    case Utimens(_, _) => HandleUtimens
  }

  /** A path is read under a key, or rejected. */
  ghost predicate HasPath(r: Reading, key: string, path: string)
  {
    r.path(key) == JsonBody.Recovered(path, PATH_SIZE)
  }

  /** What the handler looks for is there. */
  ghost predicate HasArguments(r: Reading, call: Call)
  {
    match call
    case CreateFile(path, mode) => HasPath(r, "path", path) && r.number("mode") == Some(mode)
    case CreateDir(path, mode) => HasPath(r, "path", path) && r.number("mode") == Some(mode)
    case RemoveFile(path) => HasPath(r, "path", path)
    case RemoveDir(path) => HasPath(r, "path", path)
    case Rename(oldPath, newPath) => HasPath(r, "old_path", oldPath) && HasPath(r, "new_path", newPath)
    case Truncate(path, size) => HasPath(r, "path", path) && r.number("size") == Some(size)
    case Utimens(path, times) => HasPath(r, "path", path) && TimesIn(r) == Some(times)
  }

  lemma BodyHasArguments(call: Call)
    requires HasLongs(call)
    ensures HasArguments(ReadingOf(BodyOf(call)), call)
  {
    match call
    case CreateFile(path, mode) => CreateRecovered(path, mode);
    case CreateDir(path, mode) => CreateRecovered(path, mode);
    case RemoveFile(path) => RemoveRecovered(path);
    case RemoveDir(path) => RemoveRecovered(path);
    case Rename(oldPath, newPath) => RenameRecovered(oldPath, newPath);
    case Truncate(path, size) => TruncateRecovered(path, size);
    case Utimens(path, times) => UtimensRecovered(path, times);
  }

  lemma ArgumentsUnderstood(r: Reading, call: Call)
    requires HasArguments(r, call)
    ensures Understood(HandlerFor(call), r) == Meant(call)
  {
  }

  /** The handler reads the call that was made, or refuses it, whatever the paths contain. */
  lemma CallUnderstood(call: Call)
    requires HasLongs(call)
    ensures Understood(HandlerFor(call), ReadingOf(BodyOf(call))) == Meant(call)
  {
    BodyHasArguments(call);
    ArgumentsUnderstood(ReadingOf(BodyOf(call)), call);
  }

  // ---------------------------------------------------------------- the body as a C string

  predicate NulFree(s: string) { forall i :: 0 <= i < |s| ==> s[i] != '\0' }

  lemma {:induction false} FlatIsNulFree(f: char -> string, s: string)
    requires forall c :: NulFree(f(c))
    ensures NulFree(Flat(f, s))
  {
    if s != "" {
      FlatIsNulFree(f, s[..|s| - 1]);
      assert NulFree(f(s[|s| - 1]));
    }
  }

  lemma EscapedIsNulFree(s: string)
    ensures NulFree(JsonBody.Escape(s))
  {
    FlatIsNulFree(JsonBody.EscapeChar, s);
  }

  lemma DecimalIsNulFree(n: int)
    ensures NulFree(Decimal(n))
  {
    DecimalIsQuery(n);
    forall i | 0 <= i < |Decimal(n)|
      ensures Decimal(n)[i] != '\0'
    {
      assert QueryChar(Decimal(n)[i]);
    }
  }

  lemma ThreeNulFree(a: string, b: string, c: string)
    requires NulFree(a) && NulFree(b) && NulFree(c)
    ensures NulFree(a + b + c)
  {
  }

  lemma FiveNulFree(a: string, b: string, c: string, d: string, e: string)
    requires NulFree(a) && NulFree(b) && NulFree(c) && NulFree(d) && NulFree(e)
    ensures NulFree(a + b + c + d + e)
  {
    ThreeNulFree(a, b, c);
    ThreeNulFree(a + b + c, d, e);
  }

  lemma BodyIsNulFree(call: Call)
    ensures NulFree(BodyOf(call))
  {
    match call
    case CreateFile(path, mode) => NumberBodyIsNulFree(path, "\",\"mode\":", mode);
    case CreateDir(path, mode) => NumberBodyIsNulFree(path, "\",\"mode\":", mode);
    case Truncate(path, size) => NumberBodyIsNulFree(path, "\",\"size\":", size);
    case RemoveFile(path) => PathBodyIsNulFree(path);
    case RemoveDir(path) => PathBodyIsNulFree(path);
    case Rename(a, b) => PathsBodyIsNulFree(a, b);
    case Utimens(path, t) => TimesBodyIsNulFree(path, t);
  }

  lemma PathBodyIsNulFree(path: string)
    ensures NulFree(RemoveBody(path))
  {
    EscapedIsNulFree(path);
    ThreeNulFree("{\"path\":\"", JsonBody.Escape(path), "\"}");
  }

  lemma PathsBodyIsNulFree(a: string, b: string)
    ensures NulFree(RenameBody(a, b))
  {
    EscapedIsNulFree(a);
    EscapedIsNulFree(b);
    FiveNulFree("{\"old_path\":\"", JsonBody.Escape(a), "\",\"new_path\":\"", JsonBody.Escape(b), "\"}");
  }

  lemma NumberBodyIsNulFree(path: string, middle: string, n: int)
    requires NulFree(middle)
    ensures NulFree("{\"path\":\"" + JsonBody.Escape(path) + middle + Decimal(n) + "}")
  {
    EscapedIsNulFree(path);
    DecimalIsNulFree(n);
    FiveNulFree("{\"path\":\"", JsonBody.Escape(path), middle, Decimal(n), "}");
  }

  lemma TimesBodyIsNulFree(path: string, t: Times)
    ensures NulFree(UtimensBody(path, t))
  {
    EscapedIsNulFree(path);
    DecimalIsNulFree(t.atimeSec);
    DecimalIsNulFree(t.atimeNsec);
    DecimalIsNulFree(t.mtimeSec);
    DecimalIsNulFree(t.mtimeNsec);
    var first := "{\"path\":\"" + JsonBody.Escape(path) + "\"";
    ThreeNulFree("{\"path\":\"", JsonBody.Escape(path), "\"");
    var second := first + ",\"atime_sec\":" + Decimal(t.atimeSec) + ",\"atime_nsec\":" + Decimal(t.atimeNsec);
    FiveNulFree(first, ",\"atime_sec\":", Decimal(t.atimeSec), ",\"atime_nsec\":", Decimal(t.atimeNsec));
    var third := second + ",\"mtime_sec\":" + Decimal(t.mtimeSec) + ",\"mtime_nsec\":" + Decimal(t.mtimeNsec);
    FiveNulFree(second, ",\"mtime_sec\":", Decimal(t.mtimeSec), ",\"mtime_nsec\":", Decimal(t.mtimeNsec));
    ThreeNulFree(third, "}", "");
    assert third + "}" + "" == third + "}";
  }

  lemma NulFreeIsCString(s: string)
    requires NulFree(s)
    ensures CString(s) == s
  {
    NulFreePrefix(s, s);
  }

  // ---------------------------------------------------------------- from the call to the handler

  /** What the server performs for the request it has dispatched. */
  function Performed(p: Parsed): Option<Call>
  {
    if !p.Request? || HandlerOf(p.line).None? then None
    else Understood(HandlerOf(p.line).value, ReadingOf(CString(p.body)))
  }

  lemma CallTarget(call: Call)
    ensures IsTarget("POST", Target(call))
  {
  }

  /**
    A call of the client, with any header lines around its length and in any fragments: the server dispatches one
    request, and performs exactly that call or, if a path cannot be read back, none.
  */
  lemma CallArrives(call: Call, fields: seq<string>, k: nat, c: Conn, events: seq<Event>)
    requires HasLongs(call) && AllLines(fields) && Announces(fields, k, |BodyOf(call)|)
    requires Sent(Head([RequestLine("POST", Target(call), "")] + fields), BodyOf(call), c, events)
    ensures var p := Dispatches("POST", Target(call), "", fields, BodyOf(call));
      Reaches(c, events, p) && Performed(p) == Meant(call)
  {
    CallTarget(call);
    PostArrives(Target(call), "", fields, k, BodyOf(call), c, events);
    HandlerFound(call);
    CallUnderstood(call);
    BodyIsNulFree(call);
    NulFreeIsCString(BodyOf(call));
  }
}

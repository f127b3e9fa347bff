/**
  The second parser of demo/service_provider/c/httpfs_server.c: process_request_buffer, parse_request_line and
  extract_header_value, run on the buffer of a complete request, and why it agrees with the incremental check.
*/
module RequestParser {
  import opened Base
  import opened CText
  import opened Framing

  const LINE_BREAK: string := "\r\n"

  // ---------------------------------------------------------------- the request line

  datatype Line = Line(method_: string, path: string, query: string)

  predicate NotSpace(c: char) { !IsSpace(c) }

  predicate Solid(w: string) { forall i :: 0 <= i < |w| ==> NotSpace(w[i]) }

  /** %s with a width: leading white space is skipped. Gives the word and where it ends. */
  function Word(t: string, i: nat, width: nat): (r: (string, nat))
    requires i <= |t|
    ensures r.1 <= |t| && |r.0| <= width
  {
    var j := i + Span(t, i, IsSpace);
    var n := Min(width, Span(t, j, NotSpace));
    (t[j..j + n], j + n)
  }

  /** The URI up to its first question mark, and what follows it. */
  function SplitUri(m: string, uri: string): Line
  {
    var q := Next(uri, '?', 0);
    Line(m, uri[..q], if q < |uri| then uri[q + 1..] else "")
  }

  /** parse_request_line: sscanf with "%7s %2047s" */
  function ParseLine(line: string): Option<Line>
  {
    var (m, i) := Word(line, 0, 7);
    if m == "" then None
    else
      var (uri, _) := Word(line, i, 2047);
      if uri == "" then None else Some(SplitUri(m, uri))
  }

  lemma {:induction false} SolidSpan(t: string, j: nat, w: string)
    requires Solid(w) && At(t, w, j) && (j + |w| < |t| ==> IsSpace(t[j + |w|]))
    ensures Span(t, j, NotSpace) == |w|
  {
    forall k | j <= k < j + |w|
      ensures NotSpace(t[k])
    {
      assert t[k] == t[j..j + |w|][k - j] == w[k - j];
    }
    SpanIs(t, j, NotSpace, |w|);
  }

  /** A word that stands after `skipped` characters of white space and before white space is read as it is. */
  lemma WordIs(t: string, i: nat, skipped: nat, w: string, width: nat)
    requires w != "" && Solid(w) && |w| <= width && i + skipped <= |t| && At(t, w, i + skipped)
    requires forall k :: i <= k < i + skipped ==> IsSpace(t[k])
    requires i + skipped + |w| < |t| ==> IsSpace(t[i + skipped + |w|])
    ensures Word(t, i, width) == (w, i + skipped + |w|)
  {
    var j := i + skipped;
    assert t[j] == t[j..j + |w|][0] == w[0];
    SpanIs(t, i, IsSpace, skipped);
    SolidSpan(t, j, w);
  }

  lemma UriSplits(m: string, path: string, query: string)
    requires forall i :: 0 <= i < |path| ==> path[i] != '?'
    ensures SplitUri(m, path + "?" + query) == Line(m, path, query)
    ensures SplitUri(m, path) == Line(m, path, "")
  {
    var uri := path + "?" + query;
    assert uri[|path|] == '?' && forall i :: 0 <= i < |path| ==> uri[i] == path[i];
    assert uri[..|path|] == path && uri[|path| + 1..] == query;
    NextIs(uri, '?', 0, |path|);
    NextIs(path, '?', 0, |path|);
  }

  /** Two words that stand in a text, a space after each. */
  ghost predicate WordsAt(t: string, m: string, uri: string)
  {
    var n := |m|;
    n + 1 + |uri| < |t| && At(t, m, 0) && t[n] == ' ' && At(t, uri, n + 1) && t[n + 1 + |uri|] == ' '
  }

  lemma WordsStand(m: string, uri: string, version: string, t: string)
    requires t == m + " " + uri + " " + version
    ensures WordsAt(t, m, uri)
  {
    var n := |m|;
    assert t[0..n] == m;
    assert t[n + 1..n + 1 + |uri|] == uri;
  }

  lemma WordsRead(t: string, m: string, uri: string)
    requires m != "" && |m| <= 7 && Solid(m) && uri != "" && |uri| <= 2047 && Solid(uri) && WordsAt(t, m, uri)
    ensures Word(t, 0, 7) == (m, |m|) && Word(t, |m|, 2047) == (uri, |m| + 1 + |uri|)
  {
    WordIs(t, 0, 0, m, 7);
    WordIs(t, |m|, 1, uri, 2047);
  }

  lemma TwoWords(m: string, uri: string, version: string, t: string)
    requires m != "" && |m| <= 7 && Solid(m) && uri != "" && |uri| <= 2047 && Solid(uri)
    requires t == m + " " + uri + " " + version
    ensures ParseLine(t) == Some(SplitUri(m, uri))
  {
    WordsStand(m, uri, version, t);
    WordsRead(t, m, uri);
  }

  /** The URI with a path and a query, if there is one. */
  function Uri(path: string, query: string): string { if query == "" then path else path + "?" + query }

  /** A client's request line gives back its method, path and query. */
  lemma LineRoundTrip(m: string, path: string, query: string, version: string)
    requires m != "" && |m| <= 7 && Solid(m) && path != "" && Solid(path) && Solid(query)
             && |path| + 1 + |query| <= 2047
    requires forall i :: 0 <= i < |path| ==> path[i] != '?'
    ensures ParseLine(m + " " + Uri(path, query) + " " + version) == Some(Line(m, path, query))
  {
    var uri := Uri(path, query);
    UriIsSolid(path, query);
    TwoWords(m, uri, version, m + " " + uri + " " + version);
    UriSplits(m, path, query);
  }

  lemma UriIsSolid(path: string, query: string)
    requires path != "" && Solid(path) && Solid(query)
    ensures Solid(Uri(path, query)) && 0 < |Uri(path, query)| <= |path| + 1 + |query|
  {
  }

  predicate AllSpace(t: string, i: nat, j: nat)
    requires i <= j <= |t|
  {
    forall k :: i <= k < j ==> IsSpace(t[k])
  }

  /** A line is refused exactly if it is white space around at most seven characters. */
  lemma RefusedLine(line: string, a: nat, b: nat)
    requires a <= b <= |line| && AllSpace(line, 0, a) && Solid(line[a..b])
    requires b < |line| ==> IsSpace(line[b])
    requires a == b ==> a == |line|
    ensures ParseLine(line).None? <==> b <= a + 7 && AllSpace(line, b, |line|)
  {
    var n := b - a;
    assert forall k :: a <= k < b ==> line[k] == line[a..b][k - a];
    SpanIs(line, 0, IsSpace, a);
    SpanIs(line, a, NotSpace, n);
    if 0 < n <= 7 {
      var m := Span(line, b, IsSpace);
      SpanExists(line, b);
      if b + m < |line| {
        assert NotSpace(line[b + m]);
      }
    }
  }

  /** A word that goes on to `end` is cut at the width. */
  lemma WordCut(t: string, i: nat, end: nat, width: nat)
    requires i < end <= |t| && (forall k :: i <= k < end ==> NotSpace(t[k])) && (end < |t| ==> IsSpace(t[end]))
    ensures var n := Min(width, end - i); Word(t, i, width) == (t[i..i + n], i + n)
  {
    SpanIs(t, i, IsSpace, 0);
    SpanIs(t, i, NotSpace, end - i);
  }

  /** Words are cut where their buffers end: what is left of a long method is read as the URI. */
  lemma LongWords(m: string, rest: string)
    requires Solid(m) && 7 < |m| <= 7 + 2047 && (rest == "" || IsSpace(rest[0]))
    ensures ParseLine(m + rest) == Some(SplitUri(m[..7], m[7..]))
  {
    var t := m + rest;
    assert forall k :: 0 <= k < |m| ==> t[k] == m[k];
    WordCut(t, 0, |m|, 7);
    WordCut(t, 7, |m|, 2047);
    assert t[0..7] == m[..7] && t[7..|m|] == m[7..];
  }

  // ---------------------------------------------------------------- header fields

  function Lower(c: char): char
  {
    if 'A' <= c <= 'Z' then (c as int + 32) as char else c
  }

  /** strncasecmp says equal. */
  predicate SameFold(a: string, b: string)
  {
    |a| == |b| && forall i :: 0 <= i < |a| ==> Lower(a[i]) == Lower(b[i])
  }

  /** One is a capital letter and the other the same small letter. */
  predicate OtherCase(x: char, y: char) { 'A' <= x <= 'Z' && y as int == x as int + 32 }

  /** Header names are the same exactly if they differ at most in the case of letters. */
  lemma FoldsExactly(a: string, b: string)
    ensures SameFold(a, b) <==>
            && |a| == |b|
            && forall i :: 0 <= i < |a| ==> a[i] == b[i] || OtherCase(a[i], b[i]) || OtherCase(b[i], a[i])
  {
    if |a| == |b| {
      forall i | 0 <= i < |a|
        ensures Lower(a[i]) == Lower(b[i]) <==> a[i] == b[i] || OtherCase(a[i], b[i]) || OtherCase(b[i], a[i])
      {
      }
    }
  }

  predicate IsBlank(c: char) { c == ' ' || c == '\t' }

  /** A header line with this name. */
  predicate Names(line: string, name: string)
  {
    |line| > |name| && SameFold(line[..|name|], name) && line[|name|] == ':'
  }

  /** What follows the colon, without leading blanks. */
  function FieldValue(line: string, name: string): string
    requires |line| > |name|
  {
    line[|name| + 1 + Span(line, |name| + 1, IsBlank)..]
  }

  /** What one header line yields: nothing, or the answer (which is nothing if the value does not fit). */
  function Field(name: string, size: nat): string -> Option<Option<string>>
  {
    (line: string) =>
      if !Names(line, name) then None
      else if |FieldValue(line, name)| + 1 > size then Some(None)
      else Some(Some(FieldValue(line, name)))
  }

  /**
    A line with the name in any case, a colon, blanks and a value gives exactly the value, or fails if the buffer does
    not hold it.
  */
  lemma FieldRead(written: string, name: string, blanks: string, value: string, size: nat)
    requires SameFold(written, name) && (forall i :: 0 <= i < |blanks| ==> blanks[i] == ' ' || blanks[i] == '\t')
    requires value == "" || (value[0] != ' ' && value[0] != '\t')
    ensures Field(name, size)(written + ":" + blanks + value)
            == Some(if |value| < size then Some(value) else None)
  {
    var n := |name| + 1;
    var line := written + ":" + blanks + value;
    assert line[..|name|] == written && line[|name|] == ':';
    assert forall i :: n <= i < n + |blanks| ==> line[i] == blanks[i - n];
    assert value != "" ==> line[n + |blanks|] == value[0];
    SpanIs(line, n, IsBlank, |blanks|);
    assert line[n + |blanks|..] == value;
  }

  /** And no other line answers: it begins with the name in some case, and a colon comes right after. */
  lemma FieldOnly(line: string, name: string, size: nat)
    requires Field(name, size)(line).Some?
    ensures exists written, rest {:trigger written + ":" + rest} ::
              line == written + ":" + rest && SameFold(written, name)
  {
    var written, rest := line[..|name|], line[|name| + 1..];
    assert line == written + ":" + rest;
  }

  /** The first answer that a line gives, from `cursor` in a text whose header ends at `end`. */
  function FirstAnswer(t: string, cursor: nat, end: nat, f: string -> Option<Option<string>>): Option<string>
    requires end + 4 <= |t|
    decreases |t| - cursor
  {
    if cursor >= end then None
    else
      var lineEnd := Find(t, LINE_BREAK, cursor);
      if lineEnd < 0 || lineEnd > end then None
      else if f(t[cursor..lineEnd]).Some? then f(t[cursor..lineEnd]).value
      else FirstAnswer(t, lineEnd + 2, end, f)
  }

  /** extract_header_value, into a buffer of `size` bytes */
  function Extract(t: string, cursor: nat, end: nat, name: string, size: nat): Option<string>
    requires end + 4 <= |t|
  {
    FirstAnswer(t, cursor, end, Field(name, size))
  }

  /** extract_header_value as the loop it is, in a buffer of its own. */
  method ExtractInto(t: string, start: nat, end: nat, name: string, output: array<char>)
    returns (ok: bool, ghost out: string)
    requires end + 4 <= |t| && output.Length > 0
    modifies output
    ensures ok <==> Extract(t, start, end, name, output.Length).Some?
    ensures ok ==> Some(out) == Extract(t, start, end, name, output.Length) && |out| < output.Length
    ensures ok ==> output[..|out| + 1] == out + ['\0']
    ensures !ok ==> output[0] == '\0'
  {
    out := "";
    output[0] := '\0';
    var cursor := start;
    while cursor < end
      invariant output[0] == '\0'
      invariant Extract(t, cursor, end, name, output.Length) == Extract(t, start, end, name, output.Length)
      decreases |t| - cursor
    {
      var lineEnd := Find(t, LINE_BREAK, cursor);
      if lineEnd < 0 || lineEnd > end { break; }
      var line := t[cursor..lineEnd];
      if Names(line, name) {
        var value := FieldValue(line, name);
        if |value| + 1 > output.Length { return false, out; }
        forall i | 0 <= i < |value| {
          output[i] := value[i];
        }
        output[|value|] := '\0';
        out := value;
        return true, out;
      }
      cursor := lineEnd + 2;
    }
    ok := false;
  }

  // ---------------------------------------------------------------- process_request_buffer

  const MD5_HEADER: string := "X-HTTPFS-Content-MD5"

  datatype Parsed =
    | NoHeader
    | BadLine
    | Truncated
    | Request(line: Line, digest: string, body: string)

  /** The answer of the first header line that has one, or nothing. */
  function DigestIn(t: string, start: nat, end: nat, f: string -> Option<Option<string>>): string
    requires end + 4 <= |t|
  {
    var v := FirstAnswer(t, start, end, f);
    if v.Some? then v.value else ""
  }

  /** char content_md5[33] */
  const DIGEST: string -> Option<Option<string>> := Field(MD5_HEADER, 33)

  /** The Content-Length as this parser finds it: the first one after the request line, wherever that is. */
  function LengthAfter(t: string, start: nat): int
    requires start <= |t|
  {
    var p := Find(t, CONTENT_LENGTH, start);
    if p < 0 then 0 else Strtoll(t[p + |CONTENT_LENGTH|..]).0
  }

  /** process_request_buffer, up to the dispatch */
  function Process(data: string): Parsed { ProcessText(CString(data), data, ParseLine, DIGEST) }

  /** The same on the received bytes as a C string and as they are, for any way to read request and header lines. */
  function ProcessText(t: string, data: string, parse: string -> Option<Line>,
                       f: string -> Option<Option<string>>): Parsed
    requires t <= data
  {
    var end := Find(t, BLANK_LINE, 0);
    var lineEnd := Find(t, LINE_BREAK, 0);
    if end < 0 then NoHeader
    else if lineEnd < 0 then BadLine
    else Assemble(parse(t[..lineEnd]), LengthAfter(t, lineEnd + 2), DigestIn(t, lineEnd + 2, end, f), data[end + 4..])
  }

  function Assemble(line: Option<Line>, length: int, digest: string, body: string): Parsed
  {
    if line.None? then BadLine
    else if |body| < length then Truncated
    else Request(line.value, digest, body)
  }

  /** Without a blank line there is no request. */
  lemma WithoutHeader(data: string)
    requires forall j: nat :: !At(CString(data), BLANK_LINE, j)
    ensures Process(data) == NoHeader
  {
    assert Find(CString(data), BLANK_LINE, 0) < 0;
  }

  /** Where the request line of a header ends. */
  function LineEnd(h: string): int { Find(h, LINE_BREAK, 0) }

  /** The request line does not mention a Content-Length. */
  ghost predicate PlainLine(h: string)
  {
    forall j: nat :: j < LineEnd(h) ==> !At(h, CONTENT_LENGTH, j)
  }

  lemma BlankLineBreaks(t: string, i: nat)
    requires At(t, BLANK_LINE, i)
    ensures At(t, LINE_BREAK, i) && At(t, LINE_BREAK, i + 2)
  {
    assert BLANK_LINE == LINE_BREAK + LINE_BREAK;
    AtSplits(t, LINE_BREAK, LINE_BREAK, i);
  }

  /** A header has a request line, and it is the same whatever follows the header. */
  lemma SameLine(h: string, t: string)
    requires IsHeader(h) && h <= t
    ensures 0 <= LineEnd(h) <= |h| - 4 && Find(t, LINE_BREAK, 0) == LineEnd(h) && t[..LineEnd(h)] == h[..LineEnd(h)]
  {
    BlankLineBreaks(h, |h| - 4);
    FoundBy(h, LINE_BREAK, 0, |h| - 4);
    SameFound(h, t, LINE_BREAK, 0);
    PrefixChar(t, h, 0, LineEnd(h));
  }

  lemma NoMatchAtBreak(t: string, p: nat, j: nat)
    requires At(t, LINE_BREAK, p) && p <= j < p + 2
    ensures !At(t, CONTENT_LENGTH, j)
  {
    assert t[p] == t[p..p + 2][0] && t[p + 1] == t[p..p + 2][1];
    if At(t, CONTENT_LENGTH, j) {
      AtHead(t, CONTENT_LENGTH, j);
    }
  }

  /** Looking for the Content-Length after a plain request line finds what looking from the start finds. */
  lemma SameStart(h: string, t: string)
    requires IsHeader(h) && h <= t && PlainLine(h)
    ensures 0 <= LineEnd(h) && LineEnd(h) + 2 <= |t|
            && Find(t, CONTENT_LENGTH, LineEnd(h) + 2) == Find(t, CONTENT_LENGTH, 0)
  {
    SameLine(h, t);
    var p := LineEnd(h);
    forall j: nat | j < p + 2
      ensures !At(t, CONTENT_LENGTH, j)
    {
      if j < p {
        if At(t, CONTENT_LENGTH, j) { NoStraddle(h, t, j); }
      } else {
        NoMatchAtBreak(t, p, j);
      }
    }
    FindSkips(t, CONTENT_LENGTH, 0, p + 2);
  }

  /** Without a Content-Length in the header there is no body, so none is found in it either. */
  lemma NoLengthInBody(h: string, b: string, t: string)
    requires IsHeader(h) && |b| == Declared(h) && h <= t <= h + b
    ensures Find(t, CONTENT_LENGTH, 0) < |h| - 4
  {
    SameFind(h, t);
  }

  lemma LengthsMeet(t: string, start: nat, end: nat)
    requires start <= |t| && Find(t, CONTENT_LENGTH, start) == Find(t, CONTENT_LENGTH, 0) < end
    ensures LengthAfter(t, start) == LengthIn(t, end)
  {
  }

  /** The second parser reads the same Content-Length as the first. */
  lemma SecondLengthAgrees(h: string, b: string, t: string)
    requires OneRequest(h, b) && PlainLine(h) && h <= t <= h + b
    ensures 0 <= LineEnd(h) && LineEnd(h) + 2 <= |t| && LengthAfter(t, LineEnd(h) + 2) == |b|
  {
    SameStart(h, t);
    NoLengthInBody(h, b, t);
    LengthsMeet(t, LineEnd(h) + 2, |h| - 4);
    SameLength(h, b, t);
  }

  // ---------------------------------------------------------------- header fields do not depend on the body

  lemma {:induction false} SameAnswer(h: string, t: string, end: nat, cursor: nat, f: string -> Option<Option<string>>)
    requires h <= t && end + 4 == |h| && At(h, LINE_BREAK, end)
    ensures FirstAnswer(t, cursor, end, f) == FirstAnswer(h, cursor, end, f)
    decreases |h| - cursor
  {
    if cursor < end {
      NextBreak(h, t, end, cursor);
      var p := Find(h, LINE_BREAK, cursor);
      SameAnswer(h, t, end, p + 2, f);
      SameStep(h, t, end, cursor, p, f);
    }
  }

  lemma SameStep(h: string, t: string, end: nat, cursor: nat, p: nat, f: string -> Option<Option<string>>)
    requires cursor < end && end + 4 <= |h| <= |t| && SameBreak(h, t, end, cursor) && p == Find(h, LINE_BREAK, cursor)
    requires FirstAnswer(t, p + 2, end, f) == FirstAnswer(h, p + 2, end, f)
    ensures FirstAnswer(t, cursor, end, f) == FirstAnswer(h, cursor, end, f)
  {
    var line := h[cursor..p];
    AnswerStep(h, cursor, end, f, p, line);
    AnswerStep(t, cursor, end, f, p, line);
  }

  ghost predicate SameBreak(h: string, t: string, end: nat, cursor: nat)
    requires cursor < end && end + 4 <= |h| <= |t|
  {
    var p := Find(h, LINE_BREAK, cursor);
    cursor <= p <= end && Find(t, LINE_BREAK, cursor) == p && t[cursor..p] == h[cursor..p]
  }

  lemma AnswerStep(t: string, cursor: nat, end: nat, f: string -> Option<Option<string>>, p: nat, line: string)
    requires cursor < end && end + 4 <= |t| && Find(t, LINE_BREAK, cursor) == p && cursor <= p <= end
             && line == t[cursor..p]
    ensures FirstAnswer(t, cursor, end, f) == if f(line).Some? then f(line).value else FirstAnswer(t, p + 2, end, f)
  {
  }

  lemma NextBreak(h: string, t: string, end: nat, cursor: nat)
    requires h <= t && end + 4 == |h| && At(h, LINE_BREAK, end) && cursor < end
    ensures SameBreak(h, t, end, cursor)
  {
    FoundBy(h, LINE_BREAK, cursor, end);
    SameFound(h, t, LINE_BREAK, cursor);
    PrefixChar(t, h, cursor, Find(h, LINE_BREAK, cursor) - cursor);
  }

  /** What a request is: its line and digest come from the header alone, its body is the whole body. */
  function Meaning(h: string, b: string, parse: string -> Option<Line>, f: string -> Option<Option<string>>): Parsed
    requires |h| >= 4
  {
    var p := LineEnd(h);
    if p < 0 || parse(h[..p]).None? then BadLine
    else Request(parse(h[..p]).value, DigestIn(h, p + 2, |h| - 4, f), b)
  }

  /**
    Exactly what the second parser makes of a complete request: it takes the body for truncated if and only if the first
    Content-Length after the request line, in the header or in the body, announces more than there is.  Otherwise line
    and digest are those of the header alone, and the body is exactly the one that was sent.
  */
  lemma ParsedExactly(h: string, b: string)
    requires OneRequest(h, b)
    ensures 0 <= LineEnd(h) && LineEnd(h) + 2 <= |CString(h + b)|
    ensures Process(h + b) ==
            if ParseLine(h[..LineEnd(h)]).Some? && LengthAfter(CString(h + b), LineEnd(h) + 2) > |b| then Truncated
            else Meaning(h, b, ParseLine, DIGEST)
  {
    NulFreePrefix(h, h + b);
    var t := CString(h + b);
    TextAlike(h, t, DIGEST);
    ReadsAlike(h, b, t, ParseLine, DIGEST);
  }

  /** What the second parser reads from a text that holds the header is what it reads from the header alone. */
  ghost predicate Alike(h: string, t: string, f: string -> Option<Option<string>>)
    requires |h| >= 4 && h <= t
  {
    && 0 <= LineEnd(h) <= |h| - 4
    && Find(t, BLANK_LINE, 0) == |h| - 4 && Find(t, LINE_BREAK, 0) == LineEnd(h) && t[..LineEnd(h)] == h[..LineEnd(h)]
    && DigestIn(t, LineEnd(h) + 2, |h| - 4, f) == DigestIn(h, LineEnd(h) + 2, |h| - 4, f)
  }

  lemma TextAlike(h: string, t: string, f: string -> Option<Option<string>>)
    requires IsHeader(h) && h <= t
    ensures Alike(h, t, f)
  {
    EndFound(h, t);
    SameLine(h, t);
    BlankLineBreaks(h, |h| - 4);
    SameAnswer(h, t, |h| - 4, LineEnd(h) + 2, f);
  }

  lemma ReadsAlike(h: string, b: string, t: string, parse: string -> Option<Line>, f: string -> Option<Option<string>>)
    requires |h| >= 4 && h <= t <= h + b && Alike(h, t, f)
    ensures ProcessText(t, h + b, parse, f) ==
            if parse(h[..LineEnd(h)]).Some? && LengthAfter(t, LineEnd(h) + 2) > |b| then Truncated
            else Meaning(h, b, parse, f)
  {
    assert (h + b)[|h|..] == b;
    var p := LineEnd(h);
    ProcessTextIs(t, h + b, parse, f, |h| - 4, p, h[..p], LengthAfter(t, p + 2), DigestIn(h, p + 2, |h| - 4, f), b);
  }

  lemma ProcessTextIs(t: string, data: string, parse: string -> Option<Line>, f: string -> Option<Option<string>>,
                      end: nat, p: nat, line: string, length: int, digest: string, body: string)
    requires t <= data && Find(t, BLANK_LINE, 0) == end && Find(t, LINE_BREAK, 0) == p && t[..p] == line
    requires body == data[end + 4..] && LengthAfter(t, p + 2) == length && DigestIn(t, p + 2, end, f) == digest
    ensures ProcessText(t, data, parse, f) == Assemble(parse(line), length, digest, body)
  {
  }

  /**
    The two parsers agree: on a complete request whose request line mentions no Content-Length the second finds the same
    header end and the same Content-Length, so it never takes the body for truncated.
  */
  lemma ParsersAgree(h: string, b: string)
    requires OneRequest(h, b) && PlainLine(h)
    ensures Process(h + b) == Meaning(h, b, ParseLine, DIGEST)
  {
    NulFreePrefix(h, h + b);
    SecondLengthAgrees(h, b, CString(h + b));
    ParsedExactly(h, b);
  }

  /**
    From the first byte to the dispatch: every fragmentation of a request to a fresh connection has the same meaning.
  */
  lemma EveryFragmentationMeansTheSame(h: string, b: string, c: Conn, events: seq<Event>)
    requires OneRequest(h, b) && PlainLine(h) && Arrived(events) == h + b && c == START
    requires forall i :: 0 <= i < |events| ==> Quiet(events[i].script)
    ensures var (d, rest, result) := Run(c, "", events);
      (result == Dispatched && Process(d.data) == Meaning(h, b, ParseLine, DIGEST)) || (result == Waiting && rest != "")
  {
    FramingIgnoresFragmentation(h, b, c, events);
    ParsersAgree(h, b);
  }
}

/**
  Requests written out as a client writes them, line by line, and what demo/service_provider/c/httpfs_server.c makes
  of them: the header fields it finds are those of the first line with the name, and the request line and query come
  back as they were sent.
*/
module RequestText {
  import opened Base
  import opened CText
  import opened Framing
  import opened RequestParser
  import opened Query
  import opened SparseMd5

  predicate IsLine(l: string) { l != "" && forall i :: 0 <= i < |l| ==> l[i] != '\n' && l[i] != '\0' }

  predicate AllLines(ls: seq<string>) { forall i :: 0 <= i < |ls| ==> IsLine(ls[i]) }

  /** The header made of these lines: each ended by a line break, and a blank line. */
  function Head(ls: seq<string>): (h: string)
    ensures |h| >= 2 && (ls != [] ==> |h| >= 4)
  {
    if ls == [] then LINE_BREAK else ls[0] + LINE_BREAK + Head(ls[1..])
  }

  lemma BlankChars(t: string, j: nat)
    requires At(t, BLANK_LINE, j)
    ensures j + 4 <= |t| && t[j] == '\r' && t[j + 1] == '\n' && t[j + 2] == '\r' && t[j + 3] == '\n'
  {
    var u := t[j..j + 4];
    assert t[j] == u[0] && t[j + 1] == u[1] && t[j + 2] == u[2] && t[j + 3] == u[3];
  }

  lemma BreakChars(t: string, j: nat)
    requires At(t, LINE_BREAK, j)
    ensures j + 2 <= |t| && t[j] == '\r' && t[j + 1] == '\n'
  {
    var u := t[j..j + 2];
    assert t[j] == u[0] && t[j + 1] == u[1];
  }

  /** The first line, its break and what comes next, seen in the text. */
  lemma FirstLine(l: string, rest: string, t: string)
    requires t == l + LINE_BREAK + rest && IsLine(l)
    ensures |t| == |l| + 2 + |rest| && t[|l|] == '\r' && t[|l| + 1] == '\n' && t[..|l|] == l && t[|l| + 2..] == rest
    ensures forall k :: 0 <= k < |l| ==> t[k] != '\n' && t[k] != '\0'
    ensures Find(t, LINE_BREAK, 0) == |l|
  {
    var n := |l|;
    assert forall k :: 0 <= k < n ==> t[k] == l[k];
    assert t[n..n + 2] == LINE_BREAK;
    forall j: nat | j < n
      ensures !At(t, LINE_BREAK, j)
    {
      if At(t, LINE_BREAK, j) {
        BreakChars(t, j);
      }
    }
    FirstMatchIsFound(t, LINE_BREAK, 0, n);
  }

  /** What starts a header is not a line break, unless there are no lines. */
  lemma HeadStart(ls: seq<string>)
    requires AllLines(ls)
    ensures |Head(ls)| >= 2 && (Head(ls)[1] == '\n' ==> ls == [])
  {
    if ls != [] {
      FirstLine(ls[0], Head(ls[1..]), Head(ls));
    }
  }

  lemma NoBlankInLine(l: string, rest: string, t: string, j: nat)
    requires t == l + LINE_BREAK + rest && IsLine(l) && |rest| >= 2
    requires j < |l| || (j < |l| + 2 && rest[1] != '\n')
    ensures !At(t, BLANK_LINE, j)
  {
    FirstLine(l, rest, t);
    assert t[|l| + 3] == t[|l| + 2..][1];
    if At(t, BLANK_LINE, j) {
      BlankChars(t, j);
    }
  }

  lemma {:induction false} NoEarlyBlank(ls: seq<string>, j: nat)
    requires AllLines(ls) && ls != [] && j < |Head(ls)| - 4
    ensures !At(Head(ls), BLANK_LINE, j)
    decreases |ls|
  {
    var l, rest, t := ls[0], Head(ls[1..]), Head(ls);
    var n := |l| + 2;
    HeadStart(ls[1..]);
    if j < n {
      NoBlankInLine(l, rest, t, j);
    } else {
      FirstLine(l, rest, t);
      AtShift(t, BLANK_LINE, n, j - n);
      NoEarlyBlank(ls[1..], j - n);
    }
  }

  lemma {:induction false} HeadHasNoNul(ls: seq<string>)
    requires AllLines(ls)
    ensures forall k :: 0 <= k < |Head(ls)| ==> Head(ls)[k] != '\0'
    decreases |ls|
  {
    if ls != [] {
      var t, rest, n := Head(ls), Head(ls[1..]), |ls[0]| + 2;
      HeadHasNoNul(ls[1..]);
      FirstLine(ls[0], rest, t);
      forall k | 0 <= k < |t|
        ensures t[k] != '\0'
      {
        if k >= n { assert t[k] == t[n..][k - n]; }
      }
    }
  }

  lemma EndsAlike(t: string, rest: string, n: nat, pat: string)
    requires n <= |t| && t[n..] == rest && |pat| <= |rest| && At(rest, pat, |rest| - |pat|)
    ensures At(t, pat, |t| - |pat|)
  {
    assert t[|t| - |pat|..|t|] == rest[|rest| - |pat|..|rest|];
  }

  lemma {:induction false} HeadEnds(ls: seq<string>)
    requires AllLines(ls) && ls != []
    ensures At(Head(ls), BLANK_LINE, |Head(ls)| - 4)
    decreases |ls|
  {
    var t, rest, n := Head(ls), Head(ls[1..]), |ls[0]|;
    FirstLine(ls[0], rest, t);
    if |ls| > 1 {
      HeadEnds(ls[1..]);
      EndsAlike(t, rest, n + 2, BLANK_LINE);
    } else {
      assert t[n..] == LINE_BREAK + LINE_BREAK;
    }
  }

  /** Lines make a header. */
  lemma HeadIsHeader(ls: seq<string>)
    requires AllLines(ls) && ls != []
    ensures IsHeader(Head(ls))
  {
    HeadHasNoNul(ls);
    HeadEnds(ls);
    forall j: nat | j < |Head(ls)| - 4
      ensures !At(Head(ls), BLANK_LINE, j)
    {
      NoEarlyBlank(ls, j);
    }
  }

  // ---------------------------------------------------------------- header fields

  /** The answer of the first line that has one. */
  function FirstOf(ls: seq<string>, f: string -> Option<Option<string>>): Option<string>
  {
    if ls == [] then None
    else if f(ls[0]).Some? then f(ls[0]).value
    else FirstOf(ls[1..], f)
  }

  lemma FindLater(t: string, pat: string, n: nat, p: nat)
    requires n <= |t| && Find(t[n..], pat, 0) == p
    ensures Find(t, pat, n) == n + p
  {
    AtShift(t, pat, n, p);
    forall j: nat | n <= j < n + p
      ensures !At(t, pat, j)
    {
      FindIsFirst(t[n..], pat, 0, j - n);
      AtShift(t, pat, n, j - n);
    }
    FirstMatchIsFound(t, pat, n, n + p);
  }

  /** The first answer from a place on, as a function of the place. */
  type Answers = nat -> Option<string>

  predicate Place(t: string, cursor: nat) { cursor <= |t| }

  ghost predicate AreAnswers(answer: Answers, t: string, end: nat, f: string -> Option<Option<string>>)
  {
    && end + 4 == |t|
    && forall cursor: nat {:trigger Place(t, cursor)} ::
         Place(t, cursor) ==> answer(cursor) == FirstAnswer(t, cursor, end, f)
  }

  /** extract_header_value finds the first line with the name. */
  lemma AnswerIsFirst(t: string, cursor: nat, ls: seq<string>, f: string -> Option<Option<string>>)
    requires AllLines(ls) && cursor <= |t| && |t| >= 4 && t[cursor..] == Head(ls)
    ensures FirstAnswer(t, cursor, |t| - 4, f) == FirstOf(ls, f)
  {
    AnswersAreFirst((at: nat) => FirstAnswer(t, at, |t| - 4, f), t, cursor, |t| - 4, ls, f);
    assert Place(t, cursor);
  }

  lemma {:induction false} AnswersAreFirst(answer: Answers, t: string, cursor: nat, end: nat, ls: seq<string>,
                                           f: string -> Option<Option<string>>)
    requires AreAnswers(answer, t, end, f) && AllLines(ls) && cursor <= |t| && t[cursor..] == Head(ls)
    ensures answer(cursor) == FirstOf(ls, f)
    decreases |ls|
  {
    if ls == [] {
      assert |t[cursor..]| == 2;
      NoAnswer(answer, t, cursor, end, f);
    } else {
      LineAt(t, cursor, ls[0], Head(ls[1..]), t[cursor..]);
      LineAnswer(answer, t, cursor, end, ls[0], f);
      AnswersAreFirst(answer, t, cursor + |ls[0]| + 2, end, ls[1..], f);
    }
  }

  lemma NoAnswer(answer: Answers, t: string, cursor: nat, end: nat, f: string -> Option<Option<string>>)
    requires AreAnswers(answer, t, end, f) && cursor + 2 == |t|
    ensures answer(cursor) == None
  {
    assert Place(t, cursor);
  }

  /** The answer from a line on: its own, or that of what follows. */
  lemma LineAnswer(answer: Answers, t: string, cursor: nat, end: nat, l: string, f: string -> Option<Option<string>>)
    requires AreAnswers(answer, t, end, f) && cursor + |l| + 4 <= |t| && l != ""
    requires Find(t, LINE_BREAK, cursor) == cursor + |l| && t[cursor..cursor + |l|] == l
    ensures answer(cursor) == if f(l).Some? then f(l).value else answer(cursor + |l| + 2)
  {
    assert Place(t, cursor) && Place(t, cursor + |l| + 2);
    AnswerStep(t, cursor, end, f, cursor + |l|, l);
  }

  lemma LineAt(t: string, cursor: nat, l: string, rest: string, u: string)
    requires cursor <= |t| && u == t[cursor..] && u == l + LINE_BREAK + rest && IsLine(l)
    ensures Find(t, LINE_BREAK, cursor) == cursor + |l|
    ensures |t| == cursor + |l| + 2 + |rest| && t[cursor..cursor + |l|] == l && t[cursor + |l| + 2..] == rest
  {
    FirstLine(l, rest, u);
    FindLater(t, LINE_BREAK, cursor, |l|);
    Sliced(t, cursor, |l|, |t| - cursor);
    Sliced(t, cursor, |l| + 2, |t| - cursor);
  }

  lemma Sliced(t: string, a: nat, b: nat, n: nat)
    requires a + b <= |t| && n == |t| - a
    ensures t[a..][..b] == t[a..a + b] && t[a..][b..] == t[a + b..]
  {
  }

  // ---------------------------------------------------------------- whole requests

  lemma NoColon(l: string, t: string)
    requires l <= t && forall i :: 0 <= i < |l| ==> l[i] != ':'
    ensures forall j: nat :: j + 15 <= |l| ==> !At(t, CONTENT_LENGTH, j)
  {
    forall j: nat | j + 15 <= |l|
      ensures !At(t, CONTENT_LENGTH, j)
    {
      assert t[j + 14] == l[j + 14];
      assert t[j + 14] == t[j..j + 15][14];
      assert CONTENT_LENGTH[14] == ':';
    }
  }

  /** A request line without a colon does not mention a Content-Length. */
  lemma ColonFreeIsPlain(ls: seq<string>)
    requires AllLines(ls) && ls != [] && forall i :: 0 <= i < |ls[0]| ==> ls[0][i] != ':'
    ensures PlainLine(Head(ls)) && LineEnd(Head(ls)) == |ls[0]|
  {
    var h, n := Head(ls), |ls[0]|;
    FirstLine(ls[0], Head(ls[1..]), h);
    NoColon(ls[0], h);
    forall j: nat | j < n
      ensures !At(h, CONTENT_LENGTH, j)
    {
      if j + 15 > n && At(h, CONTENT_LENGTH, j) {
        PatternHasNoCr(h, j, n);
      }
    }
  }

  /** What a request made of lines means: its request line, the first digest header, its body. */
  lemma LinesMeaning(ls: seq<string>, b: string)
    requires AllLines(ls) && ls != [] && LineEnd(Head(ls)) == |ls[0]|
    ensures Meaning(Head(ls), b, ParseLine, DIGEST) ==
            if ParseLine(ls[0]).None? then BadLine
            else Request(ParseLine(ls[0]).value,
                         if FirstOf(ls[1..], DIGEST).Some? then FirstOf(ls[1..], DIGEST).value else "", b)
  {
    var h, n := Head(ls), |ls[0]|;
    FirstLine(ls[0], Head(ls[1..]), h);
    AnswerIsFirst(h, n + 2, ls[1..], DIGEST);
    MeaningIs(h, b, ParseLine, DIGEST, ls[0], FirstOf(ls[1..], DIGEST));
  }

  lemma MeaningIs(h: string, b: string, parse: string -> Option<Line>, f: string -> Option<Option<string>>,
                  line: string, answer: Option<string>)
    requires |h| >= 4 && LineEnd(h) >= 0 && h[..LineEnd(h)] == line
             && FirstAnswer(h, LineEnd(h) + 2, |h| - 4, f) == answer
    ensures Meaning(h, b, parse, f) ==
            if parse(line).None? then BadLine
            else Request(parse(line).value, if answer.Some? then answer.value else "", b)
  {
  }

  // ---------------------------------------------------------------- a client's request line

  /** The characters of a query. */
  predicate QueryChar(c: char) { Unreserved(c) || c == '%' || c == '=' || c == '&' }

  predicate AllQuery(s: string) { forall i :: 0 <= i < |s| ==> QueryChar(s[i]) }

  lemma {:induction false} FlatIsQuery(f: char -> string, s: string)
    requires forall c :: AllQuery(f(c))
    ensures AllQuery(Flat(f, s))
  {
    if s != "" {
      FlatIsQuery(f, s[..|s| - 1]);
      assert AllQuery(f(s[|s| - 1]));
    }
  }

  lemma EncodedIsQuery(s: string)
    ensures AllQuery(Encode(s))
  {
    FlatIsQuery(EncodeChar, s);
  }

  lemma DecimalIsQuery(n: int)
    ensures AllQuery(Decimal(n))
  {
    DecimalStays(n);
    EncodedIsQuery(Decimal(n));
  }

  lemma QueryAppend(a: string, b: string)
    requires AllQuery(a) && AllQuery(b)
    ensures AllQuery(a + b)
  {
  }

  lemma WriteQueryChars(path: string, offset: int)
    ensures AllQuery(WriteQuery(path, offset))
  {
    EncodedIsQuery(path);
    DecimalIsQuery(offset);
    assert AllQuery("path=") && AllQuery("&offset=");
    QueryAppend("path=", Encode(path));
    QueryAppend("path=" + Encode(path), "&offset=");
    QueryAppend("path=" + Encode(path) + "&offset=", Decimal(offset));
  }

  lemma ReadQueryChars(path: string, offset: int, size: nat)
    ensures AllQuery(ReadQuery(path, offset, size))
  {
    WriteQueryChars(path, offset);
    DecimalIsQuery(size);
    assert AllQuery("&size=");
    QueryAppend(WriteQuery(path, offset), "&size=");
    QueryAppend(WriteQuery(path, offset) + "&size=", Decimal(size));
  }

  lemma SimpleQueryChars(path: string)
    ensures AllQuery(SimpleQuery(path))
  {
    EncodedIsQuery(path);
    assert AllQuery("path=");
    QueryAppend("path=", Encode(path));
  }

  predicate TargetChar(c: char) { NotSpace(c) && c != '?' && c != ':' && c != '\0' }

  predicate AllTarget(w: string) { forall i :: 0 <= i < |w| ==> TargetChar(w[i]) }

  /** A method and an endpoint such as the protocol has. */
  predicate IsTarget(m: string, path: string)
  {
    0 < |m| <= 7 && AllTarget(m) && 0 < |path| < 64 && AllTarget(path)
  }

  /** The first line that the HTTP library writes for a request. */
  function RequestLine(m: string, path: string, query: string): string
  {
    m + " " + Uri(path, query) + " " + "HTTP/1.1"
  }

  lemma QueryIsSolid(q: string)
    requires AllQuery(q)
    ensures Solid(q)
  {
    forall i | 0 <= i < |q|
      ensures NotSpace(q[i])
    {
      assert QueryChar(q[i]);
    }
  }

  /** The server reads a client's request line as it was meant. */
  lemma RequestLineParsed(m: string, path: string, q: string)
    requires IsTarget(m, path) && AllQuery(q) && |q| < ENDPOINT_SIZE
    ensures ParseLine(RequestLine(m, path, q)) == Some(Line(m, path, q))
  {
    QueryIsSolid(q);
    TargetIsSolid(m);
    TargetIsSolid(path);
    LineRoundTrip(m, path, q, "HTTP/1.1");
  }

  lemma TargetIsSolid(w: string)
    requires AllTarget(w)
    ensures Solid(w) && AllLine(w) && forall i :: 0 <= i < |w| ==> w[i] != '?'
  {
    forall i | 0 <= i < |w|
      ensures NotSpace(w[i]) && LineChar(w[i]) && w[i] != '?'
    {
      assert TargetChar(w[i]);
    }
  }

  predicate LineChar(c: char) { c != ':' && c != '\n' && c != '\0' }

  predicate AllLine(s: string) { forall i :: 0 <= i < |s| ==> LineChar(s[i]) }

  lemma QueryIsLine(q: string)
    requires AllQuery(q)
    ensures AllLine(q)
  {
    forall i | 0 <= i < |q|
      ensures LineChar(q[i])
    {
      assert QueryChar(q[i]);
    }
  }

  lemma RequestLineChars(m: string, path: string, q: string)
    requires IsTarget(m, path) && AllQuery(q)
    ensures AllLine(RequestLine(m, path, q)) && IsLine(RequestLine(m, path, q))
  {
    QueryIsLine(q);
    TargetIsSolid(m);
    TargetIsSolid(path);
    UriIsLine(path, q);
    ThreeParts(m, Uri(path, q), "HTTP/1.1");
    LineIsLine(RequestLine(m, path, q));
  }

  lemma LineIsLine(l: string)
    requires AllLine(l) && l != ""
    ensures IsLine(l)
  {
    assert forall i :: 0 <= i < |l| ==> LineChar(l[i]);
  }

  lemma UriIsLine(path: string, q: string)
    requires AllLine(path) && AllLine(q)
    ensures AllLine(Uri(path, q))
  {
  }

  lemma ThreeParts(a: string, b: string, c: string)
    requires AllLine(a) && AllLine(b) && AllLine(c)
    ensures AllLine(a + " " + b + " " + c)
  {
  }

  /** What the server is to dispatch. */
  function Dispatches(m: string, path: string, q: string, fields: seq<string>, b: string): Parsed
  {
    var answer := FirstOf(fields, DIGEST);
    Request(Line(m, path, q), if answer.Some? then answer.value else "", b)
  }

  lemma TargetMeaning(m: string, path: string, q: string, fields: seq<string>, b: string)
    requires IsTarget(m, path) && AllQuery(q) && |q| < ENDPOINT_SIZE && AllLines(fields)
    ensures var h := Head([RequestLine(m, path, q)] + fields);
      IsHeader(h) && PlainLine(h) && Meaning(h, b, ParseLine, DIGEST) == Dispatches(m, path, q, fields, b)
  {
    var l := RequestLine(m, path, q);
    var ls := [l] + fields;
    RequestLineChars(m, path, q);
    assert ls[0] == l && ls[1..] == fields;
    assert AllLines(ls);
    HeadIsHeader(ls);
    assert forall i :: 0 <= i < |l| ==> LineChar(l[i]);
    ColonFreeIsPlain(ls);
    LinesMeaning(ls, b);
    RequestLineParsed(m, path, q);
  }

  // ---------------------------------------------------------------- the length that header lines announce

  /** No Content-Length is mentioned. */
  ghost predicate NoLength(l: string) { forall j: nat :: !At(l, CONTENT_LENGTH, j) }

  lemma PatternEnds(t: string, j: nat)
    requires At(t, CONTENT_LENGTH, j)
    ensures j + 15 <= |t| && t[j] == 'C' && t[j + 14] == ':'
  {
    assert t[j] == t[j..j + 15][0] && t[j + 14] == t[j..j + 15][14];
  }

  lemma ColonFreeHasNone(l: string)
    requires AllLine(l)
    ensures NoLength(l)
  {
    forall j: nat
      ensures !At(l, CONTENT_LENGTH, j)
    {
      if At(l, CONTENT_LENGTH, j) {
        PatternEnds(l, j);
      }
    }
  }

  /** Neither in a line without one nor across its end. */
  lemma NoneInFirst(l: string, rest: string, t: string, j: nat)
    requires t == l + LINE_BREAK + rest && IsLine(l) && NoLength(l) && j < |l| + 2
    ensures !At(t, CONTENT_LENGTH, j)
  {
    FirstLine(l, rest, t);
    assert l <= t;
    if j + 15 <= |l| {
      AtPrefix(t, l, CONTENT_LENGTH, j);
    } else if At(t, CONTENT_LENGTH, j) {
      AtHead(t, CONTENT_LENGTH, j);
      if j <= |l| {
        PatternHasNoCr(t, j, |l|);
      }
    }
  }

  /** Where line `k` starts. */
  function Offset(ls: seq<string>, k: nat): nat
    requires k <= |ls|
  {
    if k == 0 then 0 else |ls[0]| + 2 + Offset(ls[1..], k - 1)
  }

  lemma FindAfter(t: string, pat: string, n: nat)
    requires n <= |t|
    ensures Find(t, pat, n) == if Find(t[n..], pat, 0) < 0 then -1 else n + Find(t[n..], pat, 0)
  {
    var p := Find(t[n..], pat, 0);
    if p >= 0 {
      FindLater(t, pat, n, p);
    } else if Find(t, pat, n) >= 0 {
      var i := Find(t, pat, n) - n;
      AtShift(t, pat, n, i);
      FoundBy(t[n..], pat, 0, i);
    }
  }

  lemma SkipFirst(l: string, rest: string, t: string)
    requires t == l + LINE_BREAK + rest && IsLine(l) && NoLength(l)
    ensures var q := Find(rest, CONTENT_LENGTH, 0); Find(t, CONTENT_LENGTH, 0) == if q < 0 then -1 else |l| + 2 + q
  {
    FirstLine(l, rest, t);
    forall j: nat | j < |l| + 2
      ensures !At(t, CONTENT_LENGTH, j)
    {
      NoneInFirst(l, rest, t, j);
    }
    FindSkips(t, CONTENT_LENGTH, 0, |l| + 2);
    FindAfter(t, CONTENT_LENGTH, |l| + 2);
  }

  /** The first Content-Length is that of the first line that has one at its start, after lines that have none. */
  lemma {:induction false} LengthLineFound(ls: seq<string>, k: nat)
    requires AllLines(ls) && k < |ls| && (forall i :: 0 <= i < k ==> NoLength(ls[i])) && At(ls[k], CONTENT_LENGTH, 0)
    ensures Find(Head(ls), CONTENT_LENGTH, 0) == Offset(ls, k)
    decreases k
  {
    var l, rest, t := ls[0], Head(ls[1..]), Head(ls);
    FirstLine(l, rest, t);
    if k == 0 {
      assert l <= t;
      AtPrefix(t, l, CONTENT_LENGTH, 0);
    } else {
      assert NoLength(ls[0]);
      LengthLineFound(ls[1..], k - 1);
      SkipFirst(l, rest, t);
    }
  }

  /** Without any line that mentions one there is none. */
  lemma {:induction false} NoLengthFound(ls: seq<string>)
    requires AllLines(ls) && forall i :: 0 <= i < |ls| ==> NoLength(ls[i])
    ensures Find(Head(ls), CONTENT_LENGTH, 0) == -1
    decreases |ls|
  {
    if ls == [] {
      assert |Head(ls)| == 2;
    } else {
      assert NoLength(ls[0]);
      NoLengthFound(ls[1..]);
      SkipFirst(ls[0], Head(ls[1..]), Head(ls));
    }
  }

  lemma {:induction false} LineStands(ls: seq<string>, k: nat)
    requires AllLines(ls) && k < |ls|
    ensures var p := Offset(ls, k);
      p + |ls[k]| <= |Head(ls)| - 4 && At(Head(ls), ls[k] + LINE_BREAK, p)
    decreases k
  {
    var l, rest, t := ls[0], Head(ls[1..]), Head(ls);
    FirstLine(l, rest, t);
    if k == 0 {
      assert t[0..|l| + 2] == l + LINE_BREAK;
    } else {
      LineStands(ls[1..], k - 1);
      AtShift(t, ls[k] + LINE_BREAK, |l| + 2, Offset(ls[1..], k - 1));
    }
  }

  /** Content-Length: n */
  function LengthLine(n: nat): string { CONTENT_LENGTH + (" " + Decimal(n)) }

  lemma SpacedNumber(d: string, rest: string, t: string)
    requires d != "" && AllDigits(d) && (rest == "" || !IsDigit(rest[0])) && t == " " + d + rest
    ensures Strtoll(t).0 == Signed(d, false)
  {
    assert t[1] == d[0];
    SpanIs(t, 0, IsSpace, 1);
    assert t[1..1 + |d|] == d;
    assert rest != "" ==> t[1 + |d|] == rest[0];
    ReadsDigits(t, 1, false, d);
  }

  lemma NumberOf(n: nat)
    requires n <= LLONG_MAX
    ensures Decimal(n) != "" && AllDigits(Decimal(n)) && Signed(Decimal(n), false) == n
  {
    ValueOfDigits(n);
  }

  /** What is read from a length line in its place. */
  lemma LengthRead(h: string, p: nat, n: nat, d: string)
    requires n <= LLONG_MAX && d == Decimal(n) && At(h, CONTENT_LENGTH + (" " + d) + LINE_BREAK, p)
    ensures p + 15 <= |h| && Strtoll(h[p + 15..]).0 == n
  {
    NumberOf(n);
    var rest := AfterNumber(h, p, d);
    SpacedNumber(d, rest, h[p + 15..]);
  }

  lemma AfterNumber(h: string, p: nat, d: string) returns (rest: string)
    requires At(h, CONTENT_LENGTH + (" " + d) + LINE_BREAK, p)
    ensures p + 15 <= |h| && h[p + 15..] == " " + d + rest && rest != "" && rest[0] == '\r'
  {
    assert CONTENT_LENGTH + (" " + d) + LINE_BREAK == CONTENT_LENGTH + ((" " + d) + LINE_BREAK);
    AtSplits(h, CONTENT_LENGTH, (" " + d) + LINE_BREAK, p);
    AtSplits(h, " " + d, LINE_BREAK, p + 15);
    var e := p + 15 + |d| + 1;
    rest := h[e..];
    BreakChars(h, e);
    assert h[p + 15..] == h[p + 15..e] + rest;
  }

  lemma DeclaredIs(h: string, p: nat, n: nat, d: string, l: string)
    requires |h| >= 4 && Find(h, CONTENT_LENGTH, 0) == p && p + |l| <= |h| - 4 && At(h, l + LINE_BREAK, p)
    requires n <= LLONG_MAX && d == Decimal(n) && l == CONTENT_LENGTH + (" " + d)
    ensures Declared(h) == n
  {
    LengthRead(h, p, n, d);
  }

  /** A header with one length line, and none mentioned before it, announces that length. */
  lemma AnnouncesLength(ls: seq<string>, k: nat, n: nat)
    requires AllLines(ls) && k < |ls| && ls[k] == LengthLine(n) && n <= LLONG_MAX
    requires forall i :: 0 <= i < k ==> NoLength(ls[i])
    ensures Declared(Head(ls)) == n
  {
    LengthLineStarts(n, ls[k]);
    LineStands(ls, k);
    LengthLineFound(ls, k);
    LengthStands(Head(ls), Offset(ls, k), n, ls[k]);
  }

  lemma LengthStands(h: string, p: nat, n: nat, l: string)
    requires |h| >= 4 && Find(h, CONTENT_LENGTH, 0) == p && p + |l| <= |h| - 4 && At(h, l + LINE_BREAK, p)
    requires n <= LLONG_MAX && l == LengthLine(n)
    ensures Declared(h) == n
  {
    DeclaredIs(h, p, n, Decimal(n), l);
  }

  lemma LengthLineStarts(n: nat, l: string)
    requires l == LengthLine(n)
    ensures At(l, CONTENT_LENGTH, 0) && |l| > 0
  {
    assert l[0..15] == CONTENT_LENGTH;
  }

  lemma AnnouncesNone(ls: seq<string>)
    requires AllLines(ls) && ls != [] && forall i :: 0 <= i < |ls| ==> NoLength(ls[i])
    ensures Declared(Head(ls)) == 0
  {
    NoLengthFound(ls);
  }

  // ---------------------------------------------------------------- the digest that header lines carry

  /** X-HTTPFS-Content-MD5: digest */
  function DigestLine(digest: string): string { MD5_HEADER + (": " + digest) }

  lemma DigestLineRead(digest: string, l: string)
    requires l == DigestLine(digest) && IsValidMd5Hex(digest)
    ensures DIGEST(l) == Some(Some(digest))
  {
    var n := |MD5_HEADER|;
    assert l[..n] == MD5_HEADER && l[n] == ':' && l[n + 1] == ' ' && l[n + 2..] == digest;
    assert l[n + 2] == digest[0] && IsHexDigit(digest[0]);
    SpanIs(l, n + 1, IsBlank, 1);
  }

  lemma DigestLineIsPlain(digest: string)
    requires IsValidMd5Hex(digest)
    ensures IsLine(DigestLine(digest)) && NoLength(DigestLine(digest))
  {
    var l, n := DigestLine(digest), |MD5_HEADER|;
    forall i | 0 <= i < |l|
      ensures l[i] != '\n' && l[i] != '\0' && (l[i] == ':' ==> i == n)
    {
      if i >= n + 2 { assert l[i] == digest[i - n - 2] && IsHexDigit(digest[i - n - 2]); }
    }
    forall j: nat
      ensures !At(l, CONTENT_LENGTH, j)
    {
      if At(l, CONTENT_LENGTH, j) {
        PatternEnds(l, j);
      }
    }
  }

  lemma LengthLineIsLine(n: nat)
    ensures IsLine(LengthLine(n))
  {
    DecimalIsSolid(n);
  }

  // ---------------------------------------------------------------- a Content-Length in the request line

  /** GET /Content-Length:n HTTP/1.1 */
  function OddUri(n: nat): string { "/" + CONTENT_LENGTH + Decimal(n) }

  function OddLine(n: nat): string { "GET" + " " + OddUri(n) + " " + "HTTP/1.1" }

  lemma DecimalIsSolid(n: nat)
    ensures Solid(Decimal(n)) && AllPlain(Decimal(n))
  {
    forall i | 0 <= i < |Decimal(n)|
      ensures NotSpace(Decimal(n)[i]) && Decimal(n)[i] != '\n' && Decimal(n)[i] != '\0'
    {
      assert IsDigit(Digits(n)[i]);
    }
  }

  predicate AllPlain(s: string) { forall i :: 0 <= i < |s| ==> s[i] != '\n' && s[i] != '\0' }

  ghost predicate OddShape(t: string, d: string)
  {
    && At(t, CONTENT_LENGTH, 5) && At(t, d, 20) && 20 + |d| < |t| && t[20 + |d|] == ' '
    && forall j :: 0 <= j < 5 ==> t[j] != 'C'
  }

  lemma OddLineFacts(d: string, t: string)
    requires t == "GET" + " " + ("/" + CONTENT_LENGTH + d) + " " + "HTTP/1.1"
    ensures OddShape(t, d)
  {
    assert t == "GET /" + CONTENT_LENGTH + d + " HTTP/1.1";
    assert t[5..20] == CONTENT_LENGTH;
    assert t[20..20 + |d|] == d;
  }

  lemma OddLineIsLine(d: string, t: string)
    requires t == "GET" + " " + ("/" + CONTENT_LENGTH + d) + " " + "HTTP/1.1" && AllPlain(d)
    ensures IsLine(t)
  {
  }

  lemma OddLineParsed(n: nat)
    requires n <= LLONG_MAX
    ensures ParseLine(OddLine(n)).Some?
  {
    DecimalIsSolid(n);
    DecimalLength(n);
    assert Solid("/" + CONTENT_LENGTH);
    TwoWords("GET", OddUri(n), "HTTP/1.1", OddLine(n));
  }

  /** A Content-Length at `p`, found first and followed by a number. */
  lemma LengthFound(t: string, from: nat, p: nat, n: int)
    requires IsLong(n) && from <= p <= |t| && At(t, CONTENT_LENGTH, p) && At(t, Decimal(n), p + 15)
    requires p + 15 + |Decimal(n)| < |t| ==> !IsDigit(t[p + 15 + |Decimal(n)|])
    requires forall j :: from <= j < p ==> t[j] != 'C'
    ensures LengthAfter(t, from) == n && Find(t, CONTENT_LENGTH, from) == p
  {
    forall j: nat | from <= j < p
      ensures !At(t, CONTENT_LENGTH, j)
    {
      if At(t, CONTENT_LENGTH, j) { AtHead(t, CONTENT_LENGTH, j); }
    }
    FirstMatchIsFound(t, CONTENT_LENGTH, from, p);
    StrtollAt(t, p + 15, n);
  }

  /** A line of the text, seen from its start. */
  lemma AtMoved(l: string, t: string, n: nat, pat: string, i: nat)
    requires At(t, l, n) && At(l, pat, i)
    ensures At(t, pat, n + i)
  {
    var u, v := t[n..n + |l|], t[n + i..n + i + |pat|];
    forall k | 0 <= k < |pat|
      ensures v[k] == pat[k]
    {
      assert v[k] == u[i + k] && l[i..i + |pat|][k] == l[i + k];
    }
  }

  /** A line that mentions a length, standing in a text: the length found from its start on. */
  lemma LengthInLine(t: string, l: string, from: nat, at: nat, n: int)
    requires IsLong(n) && At(t, l, from) && At(l, CONTENT_LENGTH, at) && At(l, Decimal(n), at + 15)
    requires var e := from + at + 15 + |Decimal(n)|; e < |t| && !IsDigit(t[e])
    requires forall j :: 0 <= j < at ==> l[j] != 'C'
    ensures LengthAfter(t, from) == n && Find(t, CONTENT_LENGTH, from) == from + at
  {
    AtMoved(l, t, from, CONTENT_LENGTH, at);
    AtMoved(l, t, from, Decimal(n), at + 15);
    forall j | from <= j < from + at
      ensures t[j] != 'C'
    {
      assert t[j] == t[from..from + |l|][j - from] == l[j - from];
    }
    LengthFound(t, from, from + at, n);
  }

  /** Where the lines of a header of two lines stand, in the header and in any text that continues it. */
  ghost predicate TwoLines(l: string, m: string, h: string, t: string)
  {
    IsHeader(h) && LineEnd(h) == |l| && Placed(l, m, h, t)
  }

  ghost predicate Placed(l: string, m: string, h: string, t: string)
  {
    && h <= t && |h| == |l| + |m| + 6
    && At(t, l, 0) && t[|l|] == '\r' && At(t, m, |l| + 2) && t[|l| + 2 + |m|] == '\r'
  }

  lemma HeadOfTwo(l: string, m: string, h: string, t: string)
    requires IsLine(l) && IsLine(m) && h == Head([l, m]) && h <= t
    ensures TwoLines(l, m, h, t)
  {
    var ls := [l, m];
    assert ls[1..] == [m] && [m][1..] == [] && h[0..] == h;
    HeadIsHeader(ls);
    LineAt(h, 0, l, Head([m]), h);
    LineAt(h, |l| + 2, m, Head([]), h[|l| + 2..]);
    LinesPlaced(l, m, h, t);
  }

  lemma LinesPlaced(l: string, m: string, h: string, t: string)
    requires h <= t && |h| == |l| + |m| + 6 && h[0..|l|] == l && h[|l| + 2..|l| + 2 + |m|] == m
    requires Find(h, LINE_BREAK, 0) == |l| && Find(h, LINE_BREAK, |l| + 2) == |l| + 2 + |m|
    ensures Placed(l, m, h, t)
  {
    AtPrefix(t, h, l, 0);
    AtPrefix(t, h, m, |l| + 2);
    BreakAt(h, t, 0, |l|);
    BreakAt(h, t, |l| + 2, |l| + 2 + |m|);
  }

  lemma BreakAt(h: string, t: string, from: nat, p: nat)
    requires h <= t && from <= |h| && Find(h, LINE_BREAK, from) == p
    ensures p < |h| && t[p] == '\r'
  {
    BreakChars(h, p);
  }

  lemma OddLengths(n: nat, m: nat, l: string, d: string, f: string, e: string, h: string, t: string)
    requires n <= LLONG_MAX && m <= LLONG_MAX && d == Decimal(n) && e == Decimal(m)
    requires Placed(l, f, h, t) && OddShape(l, d) && f == CONTENT_LENGTH + e
    ensures LengthIn(t, |h| - 4) == n && LengthAfter(t, |l| + 2) == m
  {
    FirstOdd(n, l, d, h, t);
    SecondOdd(m, f, e, t, |l| + 2);
  }

  lemma SecondOdd(m: nat, f: string, d: string, t: string, from: nat)
    requires m <= LLONG_MAX && d == Decimal(m) && f == CONTENT_LENGTH + d && At(t, f, from)
    requires from + |f| < |t| && t[from + |f|] == '\r'
    ensures LengthAfter(t, from) == m
  {
    assert f[0..15] == CONTENT_LENGTH;
    assert f[15..15 + |d|] == d;
    LengthInLine(t, f, from, 0, m);
  }

  lemma FirstOdd(n: nat, l: string, d: string, h: string, t: string)
    requires n <= LLONG_MAX && d == Decimal(n) && h <= t && At(t, l, 0) && |l| <= |h| - 4
    requires OddShape(l, d)
    ensures LengthIn(t, |h| - 4) == n
  {
    assert t[20 + |d|] == t[0..|l|][20 + |d|] == l[20 + |d|];
    LengthInLine(t, l, 0, 5, n);
    LengthsMeet(t, 0, |h| - 4);
  }

  lemma OddFramed(n: nat, m: nat, l: string, f: string, h: string)
    requires n < m <= LLONG_MAX && l == OddLine(n) && f == CONTENT_LENGTH + Decimal(m) && h == Head([l, f])
    ensures TwoLines(l, f, h, h) && Declared(h) == n && IsLine(l) && IsLine(f) && OddShape(l, Decimal(n))
  {
    DecimalIsSolid(n);
    DecimalIsSolid(m);
    OddLineFacts(Decimal(n), l);
    OddLineIsLine(Decimal(n), l);
    HeadOfTwo(l, f, h, h);
    OddLengths(n, m, l, Decimal(n), f, Decimal(m), h, h);
  }

  /** A complete request is taken for truncated if the second parser finds a larger length. */
  lemma LargerLength(h: string, b: string, l: string)
    requires OneRequest(h, b) && LineEnd(h) == |l| && At(h, l, 0) && ParseLine(l).Some?
    requires |l| + 2 <= |CString(h + b)| && LengthAfter(CString(h + b), |l| + 2) > |b|
    ensures Process(h + b) == Truncated
  {
    assert h[..|l|] == h[0..|l|];
    ParsedExactly(h, b);
  }

  lemma OddSecond(n: nat, m: nat, l: string, f: string, h: string, b: string)
    requires TwoLines(l, f, h, h) && IsLine(l) && IsLine(f) && OddShape(l, Decimal(n)) && n <= LLONG_MAX
    requires (forall k :: 0 <= k < |h| ==> h[k] != '\0') && m <= LLONG_MAX && f == CONTENT_LENGTH + Decimal(m)
    requires h == Head([l, f])
    ensures |l| + 2 <= |CString(h + b)| && LengthAfter(CString(h + b), |l| + 2) == m
  {
    var t := CString(h + b);
    NulFreePrefix(h, h + b);
    HeadOfTwo(l, f, h, t);
    OddLengths(n, m, l, Decimal(n), f, Decimal(m), h, t);
  }

  /**
    The two parsers need not agree when the request line mentions a Content-Length: the incremental check believes the
    request line, the second parser the header, and a complete request is taken for a truncated one.
  */
  lemma OddLineTruncates(n: nat, m: nat, b: string, h: string)
    requires |b| == n < m <= LLONG_MAX && h == Head([OddLine(n), CONTENT_LENGTH + Decimal(m)]) && |h| + n + 1 <= MAX
    ensures OneRequest(h, b) && Process(h + b) == Truncated
  {
    var l, f := OddLine(n), CONTENT_LENGTH + Decimal(m);
    OddFramed(n, m, l, f, h);
    OddSecond(n, m, l, f, h, b);
    OddLineParsed(n);
    LargerLength(h, b, l);
  }

  // ---------------------------------------------------------------- a Content-Length in the body

  lemma HeadOfOne(l: string, h: string)
    requires IsLine(l) && h == Head([l])
    ensures IsHeader(h) && LineEnd(h) == |l| && |h| == |l| + 4 && At(h, l, 0) && h[|l| + 2] != 'C' && h[|l| + 3] != 'C'
  {
    var ls := [l];
    assert ls[1..] == [] && h[0..] == h;
    HeadIsHeader(ls);
    LineAt(h, 0, l, Head([]), h);
    assert h[|l| + 2] == h[|l| + 2..][0] && h[|l| + 3] == h[|l| + 2..][1];
  }

  lemma OddAlone(n: nat, l: string, h: string)
    requires n <= LLONG_MAX && l == OddLine(n) && h == Head([l])
    ensures IsLine(l) && Declared(h) == n
  {
    DecimalIsSolid(n);
    OddLineFacts(Decimal(n), l);
    OddLineIsLine(Decimal(n), l);
    HeadOfOne(l, h);
    FirstOdd(n, l, Decimal(n), h, h);
  }

  lemma PlainPrefix(h: string, p: string, b: string)
    requires (forall k :: 0 <= k < |h| ==> h[k] != '\0') && (forall k :: 0 <= k < |p| ==> p[k] != '\0') && p <= b
    ensures h + p <= CString(h + b)
  {
    NulFreePrefix(h + p, h + b);
  }

  lemma PatternIsPlain(m: nat, d: string)
    requires d == Decimal(m)
    ensures AllPlain(CONTENT_LENGTH + d)
  {
    DecimalIsSolid(m);
  }

  /** The length found after the request line is the one in the body. */
  lemma LengthInBody(h: string, b: string, t: string, m: nat, d: string, from: nat)
    requires m <= LLONG_MAX && d == Decimal(m) && |h| >= 2 && from == |h| - 2 && h[from] != 'C' && h[from + 1] != 'C'
    requires h + (CONTENT_LENGTH + d) <= t <= h + b
    requires |CONTENT_LENGTH + d| < |b| ==> !IsDigit(b[|CONTENT_LENGTH + d|])
    ensures LengthAfter(t, from) == m
  {
    var p := CONTENT_LENGTH + d;
    assert t[|h|..|h| + |p|] == p;
    AtSplits(t, CONTENT_LENGTH, d, |h|);
    assert forall k :: 0 <= k < |h| ==> t[k] == h[k];
    assert forall k :: |h| <= k < |t| ==> t[k] == b[k - |h|];
    LengthFound(t, from, |h|, m);
  }

  /** A body that begins with a Content-Length. */
  ghost predicate BeginsWithLength(b: string, m: nat)
  {
    var p := CONTENT_LENGTH + Decimal(m);
    p <= b && (|p| < |b| ==> !IsDigit(b[|p|]))
  }

  lemma LengthOfBody(h: string, b: string, m: nat, from: nat)
    requires (forall k :: 0 <= k < |h| ==> h[k] != '\0') && m <= LLONG_MAX && BeginsWithLength(b, m)
    requires |h| >= 2 && from == |h| - 2 && h[from] != 'C' && h[from + 1] != 'C'
    ensures from <= |CString(h + b)| && LengthAfter(CString(h + b), from) == m
  {
    var d := Decimal(m);
    PatternIsPlain(m, d);
    PlainPrefix(h, CONTENT_LENGTH + d, b);
    LengthInBody(h, b, CString(h + b), m, d, from);
  }

  /**
    The other way to disagree: the length stands only in the request line, and the body itself begins with a larger
    Content-Length, which the second parser finds there.
  */
  lemma OddBodyTruncates(n: nat, m: nat, b: string, h: string)
    requires |b| == n < m <= LLONG_MAX && h == Head([OddLine(n)]) && |h| + n + 1 <= MAX && BeginsWithLength(b, m)
    ensures OneRequest(h, b) && Process(h + b) == Truncated
  {
    var l := OddLine(n);
    OddAlone(n, l, h);
    HeadOfOne(l, h);
    LengthOfBody(h, b, m, |l| + 2);
    OddLineParsed(n);
    LargerLength(h, b, l);
  }
}

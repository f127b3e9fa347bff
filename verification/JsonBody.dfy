/**
  JSON request bodies: json_escape_string (src/json_utils.c) and the body builders of src/http_client.c on one side,
  the substring search and unescaping of json_get_string and json_get_long
  (demo/service_provider/c/httpfs_server.c) on the other.
*/
module JsonBody {
  import opened Base
  import opened CText

  // ---------------------------------------------------------------- escaping

  /** What json_escape_string writes for one character. */
  function EscapeChar(c: char): (e: string)
    ensures |e| in {1, 2, 6}
  {
    if c == '\\' || c == '"' then ['\\', c]
    else if c == '\U{0008}' then "\\b"
    else if c == '\U{000c}' then "\\f"
    else if c == '\n' then "\\n"
    else if c == '\r' then "\\r"
    else if c == '\t' then "\\t"
    else if c < ' ' then "\\u00" + [HexDigit(c as int / 16), HexDigit(c as int % 16)]
    else [c]
  }

  function Escape(s: string): string
  {
    Flat(EscapeChar, s)
  }

  /** The room json_escape_string insists on before it writes a character's piece. */
  function Need(piece: string): nat
  {
    if |piece| == 6 then 6 else 2
  }

  /** There is room for the piece of character `i`. */
  predicate Room(f: char -> string, s: string, i: nat, size: nat)
    requires i < |s|
  {
    |Flat(f, s[..i])| + Need(f(s[i])) < size
  }

  predicate FitsWith(f: char -> string, s: string, size: nat)
  {
    size > 0 && forall i :: 0 <= i < |s| ==> Room(f, s, i, size)
  }

  /** json_escape_string succeeds with a buffer of this size. */
  predicate Fits(s: string, size: nat)
  {
    FitsWith(EscapeChar, s, size)
  }

  /** Every quote in escaped text has a backslash before it. */
  ghost predicate QuotesEscaped(e: string)
  {
    forall i :: 0 <= i < |e| && e[i] == '"' ==> i > 0 && e[i - 1] == '\\'
  }

  lemma PieceEscapesQuotes(c: char)
    ensures QuotesEscaped(EscapeChar(c))
  {
  }

  lemma {:induction false} FlatEscapesQuotes(f: char -> string, s: string)
    requires forall c :: QuotesEscaped(f(c))
    ensures QuotesEscaped(Flat(f, s))
  {
    if s != "" {
      FlatEscapesQuotes(f, s[..|s| - 1]);
      assert QuotesEscaped(f(s[|s| - 1]));
    }
  }

  lemma EscapeEscapesQuotes(s: string)
    ensures QuotesEscaped(Escape(s))
  {
    forall c
      ensures QuotesEscaped(EscapeChar(c))
    {
      PieceEscapesQuotes(c);
    }
    FlatEscapesQuotes(EscapeChar, s);
  }

  /** Copies `piece` into the output at `at`. */
  method Put(output: array<char>, at: nat, piece: string)
    requires at + |piece| <= output.Length
    modifies output
    ensures output[..] == old(output[..at]) + piece + old(output[at + |piece|..])
  {
    for k := 0 to |piece|
      invariant output[..] == old(output[..at]) + piece[..k] + old(output[at + k..])
    {
      output[at + k] := piece[k];
    }
  }

  /** The loop of json_escape_string, for any pieces of one, two or six characters. */
  method FlattenInto(f: char -> string, input: string, output: array<char>) returns (ok: bool)
    requires forall c :: |f(c)| in {1, 2, 6}
    modifies output
    ensures ok <==> FitsWith(f, input, output.Length)
    ensures ok ==> |Flat(f, input)| < output.Length && output[..|Flat(f, input)| + 1] == Flat(f, input) + ['\0']
  {
    if output.Length == 0 { return false; }
    var outPos := 0;
    var inPos := 0;
    while inPos < |input|
      invariant inPos <= |input| && outPos == |Flat(f, input[..inPos])| < output.Length
      invariant output[..outPos] == Flat(f, input[..inPos])
      invariant forall i :: 0 <= i < inPos ==> Room(f, input, i, output.Length)
    {
      var piece := f(input[inPos]);
      if outPos + 2 >= output.Length || (|piece| == 6 && outPos + 6 >= output.Length) {
        assert !Room(f, input, inPos, output.Length);
        return false;
      }
      FlatSnoc(f, input, inPos);
      ghost var before := output[..outPos];
      Put(output, outPos, piece);
      assert output[..outPos + |piece|] == before + piece;
      outPos := outPos + |piece|;
      inPos := inPos + 1;
    }
    assert input[..inPos] == input;
    output[outPos] := '\0';
    ok := true;
  }

  /** json_escape_string: writes in bounds, and succeeds exactly when every character finds the room it asks for. */
  method EscapeString(input: string, output: array<char>) returns (ok: bool)
    modifies output
    ensures ok <==> Fits(input, output.Length)
    ensures ok ==> |Escape(input)| < output.Length && output[..|Escape(input)| + 1] == Escape(input) + ['\0']
  {
    ok := FlattenInto(EscapeChar, input, output);
  }

  // ---------------------------------------------------------------- unescaping

  /** The character that a two-character escape stands for on the server. */
  function Unescaped(c: char): Option<char>
  {
    if c == 'n' then Some('\n')
    else if c == 'r' then Some('\r')
    else if c == 't' then Some('\t')
    else if c == '\\' || c == '"' || c == '/' then Some(c)
    else None
  }

  /** The loop of json_get_string, from position `i` of the text with `out` written so far. */
  function Unescape(t: string, i: nat, out: string, size: nat): Option<string>
    requires i <= |t|
    decreases |t| - i
  {
    if i == |t| then None
    else if t[i] == '"' then Some(out)
    else
      var wide := t[i] == '\\';
      if wide && i + 1 == |t| then None
      else
        var c := if wide then Unescaped(t[i + 1]) else Some(t[i]);
        if c.None? || |out| + 2 >= size then None
        else Unescape(t, if wide then i + 2 else i + 1, out + [c.value], size)
  }

  /** The server can decode what the client escapes this character to. */
  predicate Decodable(c: char)
  {
    c >= ' ' || c == '\n' || c == '\r' || c == '\t'
  }

  predicate AllDecodable(s: string)
  {
    forall i :: 0 <= i < |s| ==> Decodable(s[i])
  }

  /** One escaped character: decoded and appended, or the end of the attempt. */
  lemma UnescapeStep(t: string, i: nat, c: char, out: string, size: nat)
    requires At(t, EscapeChar(c), i)
    ensures Unescape(t, i, out, size) ==
              if Decodable(c) && |out| + 2 < size then Unescape(t, i + |EscapeChar(c)|, out + [c], size) else None
  {
    var e := EscapeChar(c);
    assert t[i] == t[i..i + |e|][0] == e[0];
    if |e| > 1 {
      assert t[i + 1] == t[i..i + |e|][1] == e[1];
    }
  }

  /** Unescaping what is left of an escaped string, up to its closing quote. */
  lemma {:induction false} UnescapeFrom(s: string, k: nat, t: string, i: nat, size: nat)
    requires k <= |s| && At(t, Escape(s[k..]) + "\"", i)
    ensures Unescape(t, i, s[..k], size) ==
              if AllDecodable(s[k..]) && (k == |s| || |s| + 1 < size) then Some(s) else None
    decreases |s| - k
  {
    if k == |s| {
      assert t[i] == t[i..i + 1][0] == '"' && s[..k] == s;
    } else {
      EscapeHead(s, k, t, i);
      UnescapeStep(t, i, s[k], s[..k], size);
      DecodableCons(s[k..]);
      assert s[k..][1..] == s[k + 1..];
      if Decodable(s[k]) && k + 2 < size {
        assert s[..k] + [s[k]] == s[..k + 1];
        UnescapeFrom(s, k + 1, t, i + |EscapeChar(s[k])|, size);
      }
    }
  }

  lemma EscapeHead(s: string, k: nat, t: string, i: nat)
    requires k < |s| && At(t, Escape(s[k..]) + "\"", i)
    ensures At(t, EscapeChar(s[k]), i) && At(t, Escape(s[k + 1..]) + "\"", i + |EscapeChar(s[k])|)
  {
    FlatHead(EscapeChar, s, k, t, i);
  }

  lemma FlatHead(f: char -> string, s: string, k: nat, t: string, i: nat)
    requires k < |s| && At(t, Flat(f, s[k..]) + "\"", i)
    ensures At(t, f(s[k]), i) && At(t, Flat(f, s[k + 1..]) + "\"", i + |f(s[k])|)
  {
    FlatCons(f, s[k..]);
    assert s[k..][1..] == s[k + 1..];
    assert Flat(f, s[k..]) + "\"" == f(s[k]) + (Flat(f, s[k + 1..]) + "\"");
    AtSplits(t, f(s[k]), Flat(f, s[k + 1..]) + "\"", i);
  }

  lemma DecodableCons(s: string)
    requires s != ""
    ensures AllDecodable(s) <==> Decodable(s[0]) && AllDecodable(s[1..])
  {
    if AllDecodable(s[1..]) && Decodable(s[0]) {
      forall i | 0 <= i < |s|
        ensures Decodable(s[i])
      {
        if i > 0 {
          assert s[i] == s[1..][i - 1];
        }
      }
    }
  }

  /** Decoding undoes escaping exactly on the strings whose only control characters are LF, CR and TAB, and that fit. */
  lemma UnescapeOfEscape(s: string, t: string, i: nat, size: nat)
    requires At(t, Escape(s) + "\"", i)
    ensures Unescape(t, i, "", size) == if AllDecodable(s) && (s == "" || |s| + 1 < size) then Some(s) else None
  {
    assert s[..0] == "" && s[0..] == s;
    UnescapeFrom(s, 0, t, i, size);
  }

  // ---------------------------------------------------------------- bodies

  datatype Value = Text(s: string) | Number(n: int)

  datatype Field = Field(key: string, value: Value)

  predicate KeyChar(c: char) { 'a' <= c <= 'z' || c == '_' }

  predicate IsKey(k: string)
  {
    k != "" && forall i :: 0 <= i < |k| ==> KeyChar(k[i])
  }

  function Quoted(e: string): string { "\"" + e + "\"" }

  function ValueText(v: Value): string
  {
    match v
    case Text(s) => Quoted(Escape(s))
    case Number(n) => Decimal(n)
  }

  /** The pattern that json_get_long searches for; json_get_string's has one more quote. */
  function Pattern(k: string): string { Quoted(k) + ":" }

  /** A key and the text of its value. */
  datatype Entry = Entry(key: string, text: string)

  /** The entries of a body from some point on, with its closing brace. */
  function Tail(entries: seq<Entry>): string
    decreases |entries|, 1
  {
    if entries == [] then "}" else Pattern(entries[0].key) + (entries[0].text + AfterHead(entries))
  }

  function AfterHead(entries: seq<Entry>): (t: string)
    requires entries != []
    ensures t != "" && (t[0] == ',' || t[0] == '}')
    decreases |entries|, 0
  {
    if |entries| == 1 then "}" else "," + Tail(entries[1..])
  }

  function Entries(fields: seq<Field>): (es: seq<Entry>)
    ensures |es| == |fields|
    ensures forall i :: 0 <= i < |fields| ==> es[i] == Entry(fields[i].key, ValueText(fields[i].value))
  {
    seq(|fields|, i requires 0 <= i < |fields| => Entry(fields[i].key, ValueText(fields[i].value)))
  }

  function TextOf(entries: seq<Entry>): string { "{" + Tail(entries) }

  /** A request body, as the builders of src/http_client.c print it. */
  function Body(fields: seq<Field>): string { TextOf(Entries(fields)) }

  // ---------------------------------------------------------------- keys are found where they are

  /** A match of a key's pattern is a quote, key characters, a quote and a colon. */
  lemma PatternFacts(t: string, k: string, j: nat)
    requires IsKey(k) && At(t, Pattern(k), j)
    ensures j + |k| + 2 < |t| && t[j] == '"' && t[j + |k| + 1] == '"' && t[j + |k| + 2] == ':'
    ensures t[j + 1..j + 1 + |k|] == k
    ensures forall i :: j < i <= j + |k| ==> KeyChar(t[i])
  {
    var p := Pattern(k);
    assert forall i {:trigger p[i]} :: 0 <= i < |p| ==> t[j + i] == t[j..j + |p|][i] == p[i];
    assert p[0] == '"' && p[|k| + 1] == '"' && p[|k| + 2] == ':';
    assert t[j + 1..j + 1 + |k|] == t[j..j + |p|][1..1 + |k|] == p[1..1 + |k|] == k;
    forall i | j < i <= j + |k|
      ensures KeyChar(t[i])
    {
      assert t[i] == t[j + 1..j + 1 + |k|][i - j - 1];
    }
  }

  /** A quoted text whose inner quotes are escaped, seen in the text that contains it. */
  lemma QuotedFacts(t: string, e: string, at: nat)
    requires QuotesEscaped(e) && At(t, Quoted(e), at)
    ensures t[at] == '"' && t[at + |e| + 1] == '"'
    ensures forall i {:trigger t[i]} :: at < i <= at + |e| && t[i] == '"' ==> t[i - 1] == '\\'
  {
    var q := Quoted(e);
    assert forall i {:trigger q[i]} :: 0 <= i < |q| ==> t[at + i] == t[at..at + |q|][i] == q[i];
    assert q[|e| + 1] == '"' && q[0] == '"';
    forall i | at < i <= at + |e| && t[i] == '"'
      ensures t[i - 1] == '\\'
    {
      assert t[i] == q[i - at] == e[i - at - 1];
      assert t[i - 1] == q[i - 1 - at] == e[i - at - 2];
    }
  }

  /** Inside or straddling an escaped string value no key's pattern matches. */
  lemma NoMatchInText(t: string, k: string, e: string, at: nat, j: nat)
    requires IsKey(k) && QuotesEscaped(e) && At(t, Quoted(e), at) && at <= j < at + |e| + 2
    requires at + |e| + 2 < |t| ==> t[at + |e| + 2] == ',' || t[at + |e| + 2] == '}'
    ensures !At(t, Pattern(k), j)
  {
    QuotedFacts(t, e, at);
    if At(t, Pattern(k), j) {
      PatternFacts(t, k, j);
      assert false;
    }
  }

  lemma DecimalHasNoQuote(n: int)
    ensures forall i :: 0 <= i < |Decimal(n)| ==> Decimal(n)[i] != '"'
  {
    var d := Digits(if n < 0 then -n else n);
    assert forall i :: 0 <= i < |d| ==> IsDigit(d[i]);
  }

  lemma NoMatchWithoutQuote(t: string, k: string, j: nat)
    requires j < |t| && t[j] != '"'
    ensures !At(t, Pattern(k), j)
  {
    assert Pattern(k)[0] == '"';
  }

  /** Text in which every quote is escaped or delimits all of it. */
  ghost predicate Inert(text: string)
  {
    (forall i :: 0 <= i < |text| ==> text[i] != '"') || exists e :: text == Quoted(e) && QuotesEscaped(e)
  }

  lemma ValueIsInert(v: Value)
    ensures Inert(ValueText(v))
  {
    match v
    case Text(s) => EscapeEscapesQuotes(s);
    case Number(n) => DecimalHasNoQuote(n);
  }

  lemma NoMatchInValue(t: string, k: string, text: string, at: nat, j: nat)
    requires IsKey(k) && Inert(text) && At(t, text, at) && at <= j < at + |text|
    requires at + |text| < |t| ==> t[at + |text|] == ',' || t[at + |text|] == '}'
    ensures !At(t, Pattern(k), j)
  {
    if forall i :: 0 <= i < |text| ==> text[i] != '"' {
      assert t[j] == t[at..at + |text|][j - at] == text[j - at];
      NoMatchWithoutQuote(t, k, j);
    } else {
      var e :| text == Quoted(e) && QuotesEscaped(e);
      NoMatchInText(t, k, e, at, j);
    }
  }

  /** Inside or straddling another key no key's pattern matches. */
  lemma NoMatchInKey(t: string, k: string, key: string, at: nat, j: nat)
    requires IsKey(k) && IsKey(key) && k != key && At(t, Pattern(key), at) && at <= j < at + |key| + 3
    ensures !At(t, Pattern(k), j)
  {
    PatternFacts(t, key, at);
    if At(t, Pattern(k), j) {
      PatternFacts(t, k, j);
      assert false;
    }
  }

  ghost predicate DistinctKeys(es: seq<Entry>)
  {
    && (forall i :: 0 <= i < |es| ==> IsKey(es[i].key))
    && (forall i, j :: 0 <= i < j < |es| ==> es[i].key != es[j].key)
  }

  ghost predicate AllInert(es: seq<Entry>)
  {
    forall i :: 0 <= i < |es| ==> Inert(es[i].text)
  }

  /** Entry `e` stands at `pos`: its key, its value, and a separator after it. */
  ghost predicate StandsAt(t: string, e: Entry, pos: nat)
  {
    var at := pos + |Pattern(e.key)|;
    var end := at + |e.text|;
    At(t, Pattern(e.key), pos) && At(t, e.text, at) && end < |t| && (t[end] == ',' || t[end] == '}')
  }

  lemma HeadStands(t: string, es: seq<Entry>, at: nat)
    requires es != [] && At(t, Tail(es), at)
    ensures StandsAt(t, es[0], at)
    ensures |es| > 1 ==> At(t, Tail(es[1..]), at + |Pattern(es[0].key)| + |es[0].text| + 1)
  {
    var p, text, rest := Pattern(es[0].key), es[0].text, AfterHead(es);
    AtThree(t, p, text, rest, at);
    if |es| > 1 {
      AfterComma(t, Tail(es[1..]), rest, at + |p| + |text|);
    }
  }

  lemma AfterComma(t: string, tail: string, rest: string, at: nat)
    requires rest == "," + tail && At(t, rest, at)
    ensures At(t, tail, at + 1)
  {
    AtSplits(t, ",", tail, at);
  }

  /** No other key matches anywhere in an entry or at the separator after it. */
  lemma NoMatchInEntry(t: string, k: string, e: Entry, at: nat, j: nat)
    requires IsKey(k) && IsKey(e.key) && k != e.key && Inert(e.text) && StandsAt(t, e, at)
    requires at <= j <= at + |Pattern(e.key)| + |e.text|
    ensures !At(t, Pattern(k), j)
  {
    var value := at + |Pattern(e.key)|;
    if j < value {
      NoMatchInKey(t, k, e.key, at, j);
    } else if j < value + |e.text| {
      NoMatchInValue(t, k, e.text, value, j);
    } else {
      NoMatchWithoutQuote(t, k, j);
    }
  }

  /** The first match of an entry's key is the entry. */
  lemma {:induction false} EntryFound(t: string, es: seq<Entry>, i: nat, at: nat) returns (pos: nat)
    requires DistinctKeys(es) && AllInert(es) && i < |es| && At(t, Tail(es), at)
    ensures at <= pos && StandsAt(t, es[i], pos)
    ensures forall j: nat :: at <= j < pos ==> !At(t, Pattern(es[i].key), j)
    decreases i
  {
    HeadStands(t, es, at);
    if i == 0 {
      pos := at;
    } else {
      var next := at + |Pattern(es[0].key)| + |es[0].text| + 1;
      pos := EntryFound(t, es[1..], i - 1, next);
      forall j: nat | at <= j < next
        ensures !At(t, Pattern(es[i].key), j)
      {
        NoMatchInEntry(t, es[i].key, es[0], at, j);
      }
    }
  }

  /** In a whole body the first match of a key is its entry, never text inside or straddling a value. */
  lemma FoundInBody(es: seq<Entry>, i: nat) returns (pos: nat)
    requires DistinctKeys(es) && AllInert(es) && i < |es|
    ensures StandsAt(TextOf(es), es[i], pos)
    ensures forall j: nat :: j < pos ==> !At(TextOf(es), Pattern(es[i].key), j)
  {
    var t := TextOf(es);
    assert t[1..1 + |Tail(es)|] == Tail(es);
    pos := EntryFound(t, es, i, 1);
    NoMatchWithoutQuote(t, es[i].key, 0);
  }

  // ---------------------------------------------------------------- the server's view

  /** json_get_long */
  function GetLong(json: string, key: string): Option<int>
  {
    var start := Find(json, Pattern(key), 0);
    if start < 0 then None
    else
      var (v, used) := Strtoll(json[start + |Pattern(key)|..]);
      if used == 0 then None else Some(v)
  }

  /** json_get_string, with an output buffer of `size` bytes */
  function GetString(json: string, key: string, size: nat): Option<string>
  {
    var start := Find(json, Pattern(key) + "\"", 0);
    if start < 0 then None else Unescape(json, start + |Pattern(key)| + 1, "", size)
  }

  /** json_get_string as a loop over an output buffer: it writes in bounds and computes `GetString`. */
  method GetStringInto(json: string, key: string, output: array<char>) returns (ok: bool, ghost out: string)
    requires output.Length > 0
    modifies output
    ensures ok <==> GetString(json, key, output.Length).Some?
    ensures ok ==> Some(out) == GetString(json, key, output.Length) && |out| < output.Length
    ensures ok ==> output[..|out| + 1] == out + ['\0']
  {
    out := "";
    var pattern := Pattern(key) + "\"";
    var found := Find(json, pattern, 0);
    if found < 0 { return false, out; }
    var start := found + |pattern|;
    var outPos := 0;
    while start < |json| && json[start] != '"'
      invariant start <= |json| && outPos == |out| && (outPos == 0 || outPos + 1 < output.Length)
      invariant output[..outPos] == out
      invariant Unescape(json, start, out, output.Length) == GetString(json, key, output.Length)
      decreases |json| - start
    {
      var c := json[start];
      if c == '\\' {
        start := start + 1;
        if start == |json| { return false, out; }
        var u := Unescaped(json[start]);
        if u.None? { return false, out; }
        c := u.value;
      }
      output[outPos] := c;
      outPos := outPos + 1;
      if outPos + 1 >= output.Length { return false, out; }
      out := out + [c];
      start := start + 1;
    }
    if start == |json| { return false, out; }
    output[outPos] := '\0';
    ok := true;
  }

  ghost predicate FirstAt(t: string, pat: string, pos: nat)
  {
    At(t, pat, pos) && forall j: nat :: j < pos ==> !At(t, pat, j)
  }

  lemma LongAt(t: string, key: string, pos: nat, n: int, used: nat)
    requires FirstAt(t, Pattern(key), pos) && Strtoll(t[pos + |Pattern(key)|..]) == (n, used) && used > 0
    ensures GetLong(t, key) == Some(n)
  {
    FirstMatchIsFound(t, Pattern(key), 0, pos);
  }

  lemma StringAt(t: string, key: string, pos: nat, e: string, size: nat)
    requires FirstAt(t, Pattern(key), pos) && At(t, Quoted(e), pos + |Pattern(key)|)
    ensures var at := pos + |Pattern(key)| + 1; at <= |t| && At(t, e + "\"", at)
    ensures GetString(t, key, size) == Unescape(t, pos + |Pattern(key)| + 1, "", size)
  {
    var p, at := Pattern(key), pos + |Pattern(key)|;
    assert Quoted(e) == "\"" + (e + "\"");
    AtSplits(t, "\"", e + "\"", at);
    forall j: nat | j <= pos
      ensures At(t, p + "\"", j) <==> j == pos
    {
      AtSplits(t, p, "\"", j);
    }
    FirstMatchIsFound(t, p + "\"", 0, pos);
  }

  ghost predicate WellFormed(fields: seq<Field>)
  {
    DistinctKeys(Entries(fields))
  }

  lemma FieldsAreInert(fields: seq<Field>)
    ensures AllInert(Entries(fields))
  {
    forall i | 0 <= i < |fields|
      ensures Inert(Entries(fields)[i].text)
    {
      ValueIsInert(fields[i].value);
    }
  }

  lemma NumberAt(t: string, e: Entry, pos: nat, n: int)
    requires StandsAt(t, e, pos) && FirstAt(t, Pattern(e.key), pos) && e.text == Decimal(n)
             && LLONG_MIN <= n <= LLONG_MAX
    ensures GetLong(t, e.key) == Some(n)
  {
    var at := pos + |Pattern(e.key)|;
    NumberStands(t, e.text, at, n);
    LongAt(t, e.key, pos, n, |e.text|);
  }

  lemma NumberStands(t: string, d: string, at: nat, n: int)
    requires At(t, d, at) && d == Decimal(n) && LLONG_MIN <= n <= LLONG_MAX
    requires var end := at + |d|; end < |t| && (t[end] == ',' || t[end] == '}')
    ensures Strtoll(t[at..]) == (n, |d|)
  {
    StrtollAt(t, at, n);
  }

  /** The server recovers every number of a body exactly. */
  lemma NumberRecovered(fields: seq<Field>, i: nat)
    requires WellFormed(fields) && i < |fields| && fields[i].value.Number?
    requires LLONG_MIN <= fields[i].value.n <= LLONG_MAX
    ensures GetLong(Body(fields), fields[i].key) == Some(fields[i].value.n)
  {
    FieldsAreInert(fields);
    var pos := FoundInBody(Entries(fields), i);
    NumberAt(Body(fields), Entries(fields)[i], pos, fields[i].value.n);
  }

  /** What the server makes of a string that a client sent. */
  function Recovered(s: string, size: nat): Option<string>
  {
    if AllDecodable(s) && (s == "" || |s| + 1 < size) then Some(s) else None
  }

  lemma RecoveredAt(t: string, key: string, pos: nat, s: string, size: nat)
    requires FirstAt(t, Pattern(key), pos) && At(t, Quoted(Escape(s)), pos + |Pattern(key)|)
    ensures GetString(t, key, size) == Recovered(s, size)
  {
    StringAt(t, key, pos, Escape(s), size);
    UnescapeOfEscape(s, t, pos + |Pattern(key)| + 1, size);
  }

  /**
    The server recovers every string of a body exactly, or rejects it: decided by its control characters and length.
  */
  lemma TextRecovered(fields: seq<Field>, i: nat, size: nat)
    requires WellFormed(fields) && i < |fields| && fields[i].value.Text?
    ensures GetString(Body(fields), fields[i].key, size) == Recovered(fields[i].value.s, size)
  {
    FieldsAreInert(fields);
    var pos := FoundInBody(Entries(fields), i);
    RecoveredAt(Body(fields), fields[i].key, pos, fields[i].value.s, size);
  }

  // ---------------------------------------------------------------- what is not there

  /** From `at` on there is no match of a key that no entry has. */
  lemma {:induction false} NotThere(t: string, es: seq<Entry>, k: string, at: nat, j: nat)
    requires DistinctKeys(es) && AllInert(es) && IsKey(k) && forall i :: 0 <= i < |es| ==> es[i].key != k
    requires At(t, Tail(es), at) && at + |Tail(es)| == |t| && at <= j
    ensures !At(t, Pattern(k), j)
    decreases |es|
  {
    if es == [] {
      if j == at {
        AtHead(t, Tail(es), at);
        NoMatchWithoutQuote(t, k, j);
      }
    } else {
      HeadStands(t, es, at);
      var end := at + |Pattern(es[0].key)| + |es[0].text|;
      if j <= end {
        NoMatchInEntry(t, k, es[0], at, j);
      } else if |es| > 1 {
        NotThere(t, es[1..], k, end + 1, j);
      }
    }
  }

  /** A key that a body does not have is found nowhere in it, whatever its strings contain. */
  lemma AbsentKey(fields: seq<Field>, k: string, size: nat)
    requires WellFormed(fields) && IsKey(k) && forall i :: 0 <= i < |fields| ==> fields[i].key != k
    ensures GetLong(Body(fields), k) == None && GetString(Body(fields), k, size) == None
  {
    var t, es := Body(fields), Entries(fields);
    FieldsAreInert(fields);
    assert t[1..1 + |Tail(es)|] == Tail(es);
    forall j: nat
      ensures !At(t, Pattern(k), j) && !At(t, Pattern(k) + "\"", j)
    {
      if j == 0 {
        NoMatchWithoutQuote(t, k, j);
      } else {
        NotThere(t, es, k, 1, j);
      }
      AtSplits(t, Pattern(k), "\"", j);
    }
    assert Find(t, Pattern(k), 0) < 0 && Find(t, Pattern(k) + "\"", 0) < 0;
  }

  /** A string does not pass for a number. */
  lemma TextIsNoNumber(fields: seq<Field>, i: nat)
    requires WellFormed(fields) && i < |fields| && fields[i].value.Text?
    ensures GetLong(Body(fields), fields[i].key) == None
  {
    FieldsAreInert(fields);
    var t, e := Body(fields), Entries(fields)[i];
    var pos := FoundInBody(Entries(fields), i);
    var at := pos + |Pattern(e.key)|;
    FirstMatchIsFound(t, Pattern(e.key), 0, pos);
    AtHead(t, e.text, at);
    assert t[at..][0] == '"';
    StrtollRefuses("", "", t[at..]);
    assert "" + "" + t[at..] == t[at..];
  }
}

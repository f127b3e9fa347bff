/**
  Errors on their way from the server to the client: the response that send_error_json
  (demo/service_provider/c/httpfs_server.c) prints, read by parse_ok_response (src/http_client.c).
*/
module ErrorReply {
  import opened Base
  import opened CText
  import opened JsonTree
  import opened TokenSearch
  import opened Listing
  import opened JsonTexts
  import JsonBody
  import JsonStrings

  /** What the message is printed as: escaped, or a stand-in if the buffer of 1024 does not hold that. */
  function Shown(message: string): string
  {
    if JsonBody.Fits(message, 1024) then JsonBody.Escape(message) else "internal error"
  }

  /** {"status":"error","errno":%ld,"message":"%s"} */
  function ErrorText(errno: int, shown: string): string
  {
    "{\"status\":\"error\",\"errno\":" + Decimal(errno) + ",\"message\":\"" + shown + "\"}"
  }

  /** send_error_json: the response is never cut short by its buffer of 1400. */
  method SendError(errno: int, message: string) returns (payload: string)
    requires IsLong(errno)
    ensures payload == ErrorText(errno, Shown(message)) && |payload| < 1400
  {
    var escaped := new char[1024];
    var ok := JsonBody.EscapeString(message, escaped);
    var shown := "internal error";
    if ok {
      ghost var n := |JsonBody.Escape(message)|;
      assert escaped[..n] == escaped[..n + 1][..n] == JsonBody.Escape(message);
      shown := JsonBody.Escape(message);
    }
    payload := ErrorText(errno, shown);
    DecimalLength(errno);
    ErrorLength(Decimal(errno), shown);
  }

  lemma ErrorLength(d: string, shown: string)
    ensures |"{\"status\":\"error\",\"errno\":" + d + ",\"message\":\"" + shown + "\"}"| == |d| + |shown| + 40
  {
  }

  // ---------------------------------------------------------------- it is a JSON text

  /** A member without white space around it. */
  function Field(key: string, value: Value, rest: Pairs): Pairs { Pair("", key, "", "", value, "", rest) }

  function ErrorValue(number: string, shown: string): Value
  {
    Obj(Field("status", Quote("error"), Field("errno", Word(number), Field("message", Quote(shown), NoPair))), "")
  }

  lemma FieldText(key: string, value: Value, rest: Pairs, sep: string)
    ensures PrintPairs(Field(key, value, rest), sep)
            == sep + ("\"" + key + "\":") + Print(value) + PrintPairs(rest, ",")
  {
  }

  /** The text of an object with three members, of which the first and the last are strings. */
  lemma ThreeFields(k: string, v: string, l: string, number: string, m: string, shown: string)
    ensures Print(Obj(Field(k, Quote(v), Field(l, Word(number), Field(m, Quote(shown), NoPair))), ""))
            == "{" + ("\"" + k + "\":") + ("\"" + v + "\"") + "," + ("\"" + l + "\":") + number
               + "," + ("\"" + m + "\":") + ("\"" + shown + "\"") + "}"
  {
    var c := Field(m, Quote(shown), NoPair);
    var b := Field(l, Word(number), c);
    FieldText(k, Quote(v), b, "");
    FieldText(l, Word(number), c, ",");
    FieldText(m, Quote(shown), NoPair, ",");
    GlueThree("\"" + k + "\":", "\"" + v + "\"", "\"" + l + "\":", number, "\"" + m + "\":", "\"" + shown + "\"");
  }

  lemma GlueThree(a: string, b: string, c: string, d: string, e: string, f: string)
    ensures "{" + (("" + a + b + ("," + c + d + ("," + e + f + ""))) + "") + "}"
            == "{" + a + b + "," + c + d + "," + e + f + "}"
  {
  }

  lemma Pieces(start: string, middle: string, a: string, b: string, c: string, e: string, number: string, shown: string)
    requires start == "{" + a + b + "," + c && middle == "," + e + "\""
    ensures "{" + a + b + "," + c + number + "," + e + ("\"" + shown + "\"") + "}"
            == start + number + middle + shown + "\"}"
  {
    assert start + number + middle + shown + "\"}" == start + number + ("," + e + "\"" + shown + "\"}");
  }

  lemma ErrorIsText(number: string, shown: string)
    ensures Print(ErrorValue(number, shown))
            == "{\"status\":\"error\",\"errno\":" + number + ",\"message\":\"" + shown + "\"}"
  {
    ThreeFields("status", "error", "errno", number, "message", shown);
    Pieces("{\"status\":\"error\",\"errno\":", ",\"message\":\"", "\"" + "status" + "\":", "\"" + "error" + "\"",
           "\"" + "errno" + "\":", "\"" + "message" + "\":", number, shown);
  }

  lemma {:induction false} PlainIsString(s: string)
    requires forall i :: 0 <= i < |s| ==> s[i] >= ' ' && s[i] != '"' && s[i] != '\\'
    ensures JsonStrings.Standard(s) == Some(s)
  {
    if s != "" {
      PlainIsString(s[1..]);
      assert [s[0]] + s[1..] == s;
    }
  }

  lemma ShownIsString(message: string)
    ensures IsString(Shown(message))
  {
    JsonStrings.EscapeIsStandard(message);
    PlainIsString("internal error");
  }

  lemma DecimalIsWord(n: int)
    ensures IsWord(Decimal(n))
  {
  }

  lemma KeysAreStrings()
    ensures IsString("status") && IsString("error") && IsString("errno") && IsString("message")
  {
    assert IsString("status") by { PlainIsString("status"); }
    assert IsString("error") by { PlainIsString("error"); }
    assert IsString("errno") by { PlainIsString("errno"); }
    assert IsString("message") by { PlainIsString("message"); }
  }

  lemma FieldIsValid(key: string, value: Value, rest: Pairs)
    requires IsString(key) && Valid(value) && ValidPairs(rest)
    ensures ValidPairs(Field(key, value, rest))
  {
  }

  lemma ErrorIsValid(number: string, shown: string)
    requires IsWord(number) && IsString(shown)
    ensures Valid(ErrorValue(number, shown))
  {
    KeysAreStrings();
    var c := Field("message", Quote(shown), NoPair);
    FieldIsValid("message", Quote(shown), NoPair);
    FieldIsValid("errno", Word(number), c);
    FieldIsValid("status", Quote("error"), Field("errno", Word(number), c));
  }

  // ---------------------------------------------------------------- and the client reads it

  lemma ErrorMembers(number: string, shown: string)
    ensures var ms := Written(ErrorValue(number, shown).pairs);
      && Lookup(ms, "status") == Some(Str("error")) && Lookup(ms, "errno") == Some(Prim(number))
      && Lookup(ms, "message") == Some(Str(shown))
  {
    var c := Field("message", Quote(shown), NoPair);
    var b := Field("errno", Word(number), c);
    var keys := ["status", "errno", "message"];
    forall key | key in keys
      ensures Lookup(Written(c), key) == if key == "message" then Some(Str(shown)) else None
      ensures Lookup(Written(b), key) == if key == "errno" then Some(Prim(number)) else Lookup(Written(c), key)
    {
      LookupCons(Member("message", Str(shown)), [], key);
      LookupCons(Member("errno", Prim(number)), Written(c), key);
    }
    LookupCons(Member("status", Str("error")), Written(b), "status");
    LookupCons(Member("status", Str("error")), Written(b), "errno");
    LookupCons(Member("status", Str("error")), Written(b), "message");
  }

  /** What is seen of these three members is reported. */
  lemma ErrorSeen(items: Forest, errno: int, shown: string, max: nat, end: Forest)
    requires IsLong(errno) && end == Done("")
    requires var v := Look(items, "status", end); v.Sees? && v.node == Str("error")
    requires var v := Look(items, "errno", end); v.Sees? && v.node == Prim(Decimal(errno))
    requires var v := Look(items, "message", end); v.Sees? && v.node == Str(shown)
    ensures Answered(items, end, max)
            == ServerError(errno, if |shown| < 512 then shown else "Server returned an error")
  {
    NumberSeen(Look(items, "errno", end), errno);
    MessageSeen(Look(items, "message", end), shown);
    StrtollOfDecimal(errno, "");
    assert Decimal(errno) + "" == Decimal(errno);
  }

  lemma NumberSeen(v: Sight, errno: int)
    requires IsLong(errno) && v.Sees? && v.node == Prim(Decimal(errno))
    ensures ValueOf(v, NUMBER_SIZE) == TextRead(Some(Decimal(errno)), false)
  {
    DecimalLength(errno);
  }

  lemma MessageSeen(v: Sight, shown: string)
    requires v.Sees? && v.node == Str(shown)
    ensures ValueOf(v, MESSAGE_SIZE) == TextRead(if |shown| < 512 then Some(shown) else None, false)
  {
  }

  lemma ErrorMeans(errno: int, shown: string, max: nat)
    requires IsLong(errno)
    ensures Meaning(Document("", ErrorValue(Decimal(errno), shown), ""), max)
            == ServerError(errno, if |shown| < 512 then shown else "Server returned an error")
  {
    var v, end := ErrorValue(Decimal(errno), shown), Done("");
    ErrorMembers(Decimal(errno), shown);
    SearchFindsMember(v.pairs, "", "status", end);
    SearchFindsMember(v.pairs, "", "errno", end);
    SearchFindsMember(v.pairs, "", "message", end);
    ErrorSeen(Tree(v).items, errno, shown, max, end);
    ErrorCount(Decimal(errno), shown);
  }

  lemma ErrorCount(number: string, shown: string)
    ensures CountF(Document("", ErrorValue(number, shown), "")) == 7
  {
    var c := Field("message", Quote(shown), NoPair);
    var b := Field("errno", Word(number), c);
    PairCount("message", Quote(shown), NoPair, "", ",", "");
    PairCount("errno", Word(number), c, "", ",", "");
    PairCount("status", Quote("error"), b, "", "", "");
  }

  lemma PairCount(key: string, value: Value, rest: Pairs, pad: string, sep: string, end: string)
    ensures CountF(PairTrees(Field(key, value, rest), pad, sep, end))
            == 1 + Count(Tree(value)) + CountF(PairTrees(rest, "", ",", end))
  {
  }

  /**
    From the error that a handler reports to the error that the client returns: the same number, and the message as it
    is escaped, or the client's own message if that is too long for it.
  */
  method ErrorRemotely(errno: int, message: string, max: nat) returns (r: Outcome)
    requires IsLong(errno)
    ensures r == ServerError(errno, if |Shown(message)| < 512 then Shown(message) else "Server returned an error")
  {
    var payload := SendError(errno, message);
    ghost var v := ErrorValue(Decimal(errno), Shown(message));
    ErrorIsText(Decimal(errno), Shown(message));
    ShownIsString(message);
    DecimalIsWord(errno);
    ErrorIsValid(Decimal(errno), Shown(message));
    EveryTextParses("", v, "", MAX_TOKENS);
    assert "" + (Print(v) + "") == Print(v);
    r := ListDir(payload, max);
    ErrorMeans(errno, Shown(message), max);
    assert Spells(payload, Document("", v, ""));
  }

  // ---------------------------------------------------------------- any object

  /** The text of a member's value, if there is one and it fits. */
  function TextOf(v: Option<Node>, size: nat): Option<string>
  {
    if v.Some? && |Covered(v.value)| < size then Some(Covered(v.value)) else None
  }

  /**
    What the client makes of any JSON object that is no listing, by its members: which error it is, with the number and
    the message of the server or, where they are missing or do not fit, EIO and a message of its own.
  */
  lemma ObjectAnswered(p: Pairs, end: string, max: nat)
    ensures var ms := Written(p);
      var status, entries := Lookup(ms, "status"), Lookup(ms, "entries");
      var errno, message := TextOf(Lookup(ms, "errno"), 64), TextOf(Lookup(ms, "message"), 512);
      var r := Answered(Tree(Obj(p, end)).items, Done(""), max);
      && (status.None? <==> r == NoStatus)
      && (status.Some? && Covered(status.value) !in {"ok", "error"} <==> r == UnknownStatus)
      && (status.Some? && Covered(status.value) == "error" ==>
            r == ServerError(if errno.Some? then Strtoll(errno.value).0 else 5,
                             if message.Some? then message.value else "Server returned an error"))
      && (r == NoEntries <==>
            && status.Some? && Covered(status.value) == "ok"
            && (entries.None? || !entries.value.Box? || entries.value.isObject))
  {
    var items := Tree(Obj(p, end)).items;
    SearchFindsMember(p, end, "status", Done(""));
    SearchFindsMember(p, end, "entries", Done(""));
    SearchFindsMember(p, end, "errno", Done(""));
    SearchFindsMember(p, end, "message", Done(""));
    var entries := Look(items, "entries", Done(""));
    if entries.Sees? && entries.node.Box? && !entries.node.isObject {
      WalkOutcome(EntryOf, entries.node.items, [], max, entries.after);
    }
  }

  /** A listing ends with entries or one of three errors. */
  lemma {:induction false} WalkOutcome(read: Reader, f: Forest, found: seq<Entry>, max: nat, follow: Forest)
    ensures var r := Walk(read, f, found, max, follow); r.Listed? || r in {TooMany, BadEntry, Strays}
    decreases f
  {
    if f.Item? {
      if !IsObject(f.node) {
        WalkOutcome(read, f.rest, found, max, follow);
      } else if |found| < max {
        var e := read(f.node.items, Following(f.rest, follow));
        if !e.strayed && e.entry.Some? {
          WalkOutcome(read, f.rest, found + [e.entry.value], max, follow);
        }
      }
    }
  }
}

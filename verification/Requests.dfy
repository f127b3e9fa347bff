/**
  The request bodies that src/http_client.c prints (post_path_only, httpfs_rename_path, httpfs_truncate_file,
  httpfs_update_times) and what the handlers of demo/service_provider/c/httpfs_server.c read back from them.
*/
module Requests {
  import opened Base
  import opened CText
  import opened JsonBody

  /** HTTPFS_MAX_PATH * 2, the client's buffer for an escaped path. */
  const ESCAPED_SIZE: nat := 8192

  /** {"path":"%s","mode":%ld} */
  function CreateBody(path: string, mode: int): string
  {
    "{\"path\":\"" + Escape(path) + "\",\"mode\":" + Decimal(mode) + "}"
  }

  /** {"path":"%s"} */
  function RemoveBody(path: string): string
  {
    "{\"path\":\"" + Escape(path) + "\"}"
  }

  /** {"old_path":"%s","new_path":"%s"} */
  function RenameBody(old_path: string, new_path: string): string
  {
    "{\"old_path\":\"" + Escape(old_path) + "\",\"new_path\":\"" + Escape(new_path) + "\"}"
  }

  /** {"path":"%s","size":%lld} */
  function TruncateBody(path: string, size: int): string
  {
    "{\"path\":\"" + Escape(path) + "\",\"size\":" + Decimal(size) + "}"
  }

  datatype Times = Times(atimeSec: int, atimeNsec: int, mtimeSec: int, mtimeNsec: int)

  /** {"path":"%s","atime_sec":%lld,"atime_nsec":%ld,"mtime_sec":%lld,"mtime_nsec":%ld} */
  function UtimensBody(path: string, t: Times): string
  {
    "{\"path\":\"" + Escape(path) + "\""
    + ",\"atime_sec\":" + Decimal(t.atimeSec) + ",\"atime_nsec\":" + Decimal(t.atimeNsec)
    + ",\"mtime_sec\":" + Decimal(t.mtimeSec) + ",\"mtime_nsec\":" + Decimal(t.mtimeNsec) + "}"
  }

  // ---------------------------------------------------------------- printed bodies are bodies

  lemma TailOne(e: Entry)
    ensures Tail([e]) == Pattern(e.key) + (e.text + "}")
  {
  }

  lemma TailMore(e: Entry, es: seq<Entry>)
    requires es != []
    ensures Tail([e] + es) == Pattern(e.key) + (e.text + ("," + Tail(es)))
  {
    assert ([e] + es)[1..] == es;
  }

  lemma TwoEntries(a: Entry, b: Entry)
    ensures TextOf([a, b]) == "{\"" + a.key + "\":" + a.text + ",\"" + b.key + "\":" + b.text + "}"
  {
    assert [a, b] == [a] + [b];
    TailMore(a, [b]);
    TailOne(b);
  }

  lemma TwoDistinct(a: Entry, b: Entry)
    requires IsKey(a.key) && IsKey(b.key) && a.key != b.key
    ensures DistinctKeys([a, b])
  {
  }

  // ---------------------------------------------------------------- a path and a number

  function PathThen(path: string, key: string, n: int): seq<Field>
  {
    [Field("path", Text(path)), Field(key, Value.Number(n))]
  }

  lemma PathThenEntries(path: string, key: string, n: int)
    ensures Entries(PathThen(path, key, n)) == [Entry("path", Quoted(Escape(path))), Entry(key, Decimal(n))]
  {
  }

  lemma PathThenPrinted(e: string, key: string, d: string)
    ensures TextOf([Entry("path", Quoted(e)), Entry(key, d)]) == "{\"path\":\"" + e + "\",\"" + key + "\":" + d + "}"
  {
    TwoEntries(Entry("path", Quoted(e)), Entry(key, d));
  }

  lemma PathThenRecovered(path: string, key: string, n: int)
    requires IsLong(n) && IsKey(key) && key != "path" && IsKey("path")
    ensures GetString(Body(PathThen(path, key, n)), "path", PATH_SIZE) == Recovered(path, PATH_SIZE)
    ensures GetLong(Body(PathThen(path, key, n)), key) == Some(n)
  {
    var fields := PathThen(path, key, n);
    PathThenEntries(path, key, n);
    TwoDistinct(Entries(fields)[0], Entries(fields)[1]);
    TextRecovered(fields, 0, PATH_SIZE);
    NumberRecovered(fields, 1);
  }

  lemma CreateIsBody(path: string, mode: int)
    ensures CreateBody(path, mode) == Body(PathThen(path, "mode", mode))
  {
    PathThenEntries(path, "mode", mode);
    PathThenPrinted(Escape(path), "mode", Decimal(mode));
  }

  lemma TruncateIsBody(path: string, size: int)
    ensures TruncateBody(path, size) == Body(PathThen(path, "size", size))
  {
    PathThenEntries(path, "size", size);
    PathThenPrinted(Escape(path), "size", Decimal(size));
  }

  /** create-file and create-dir: the mode arrives exactly; the path arrives exactly or is rejected. */
  lemma CreateRecovered(path: string, mode: int)
    requires IsLong(mode)
    ensures GetString(CreateBody(path, mode), "path", PATH_SIZE) == Recovered(path, PATH_SIZE)
    ensures GetLong(CreateBody(path, mode), "mode") == Some(mode)
  {
    CreateIsBody(path, mode);
    PathThenRecovered(path, "mode", mode);
  }

  lemma TruncateRecovered(path: string, size: int)
    requires IsLong(size)
    ensures GetString(TruncateBody(path, size), "path", PATH_SIZE) == Recovered(path, PATH_SIZE)
    ensures GetLong(TruncateBody(path, size), "size") == Some(size)
  {
    TruncateIsBody(path, size);
    PathThenRecovered(path, "size", size);
  }

  // ---------------------------------------------------------------- paths only

  lemma RemovePrinted(e: string)
    ensures TextOf([Entry("path", Quoted(e))]) == "{\"path\":\"" + e + "\"}"
  {
    TailOne(Entry("path", Quoted(e)));
  }

  /** remove-file and remove-dir */
  lemma RemoveRecovered(path: string)
    ensures GetString(RemoveBody(path), "path", PATH_SIZE) == Recovered(path, PATH_SIZE)
  {
    var fields := [Field("path", Text(path))];
    assert Entries(fields) == [Entry("path", Quoted(Escape(path)))];
    RemovePrinted(Escape(path));
    TextRecovered(fields, 0, PATH_SIZE);
  }

  function Paths(a: string, b: string): seq<Field>
  {
    [Field("old_path", Text(a)), Field("new_path", Text(b))]
  }

  lemma PathsEntries(a: string, b: string)
    ensures Entries(Paths(a, b)) == [Entry("old_path", Quoted(Escape(a))), Entry("new_path", Quoted(Escape(b)))]
  {
  }

  lemma Regroup(a: string, b: string, c: string, d: string, e: string)
    ensures a + (b + (c + (d + e))) == (a + b + c) + d + e
  {
  }

  lemma QuotedAfter(before: string, e: string)
    ensures before + Quoted(e) == (before + "\"") + e + "\""
  {
  }

  lemma TwoTexts(k: string, a: string, l: string, b: string, start: string, middle: string)
    requires start == "{" + Pattern(k) + "\"" && middle == "\"," + Pattern(l) + "\""
    ensures TextOf([Entry(k, Quoted(a)), Entry(l, Quoted(b))]) == start + a + middle + b + "\"}"
  {
    var first, last := Entry(k, Quoted(a)), Entry(l, Quoted(b));
    assert [first, last] == [first] + [last];
    TailMore(first, [last]);
    TailOne(last);
    Regroup("{", Pattern(k), Quoted(a), ",", Tail([last]));
    QuotedAfter("{" + Pattern(k), a);
    var before := start + a + "\"" + ",";
    assert before + Tail([last]) == before + Pattern(l) + Quoted(b) + "}";
    QuotedAfter(before + Pattern(l), b);
    assert before + Pattern(l) + "\"" == start + a + middle;
  }

  lemma RenamePrinted(a: string, b: string)
    ensures TextOf([Entry("old_path", Quoted(a)), Entry("new_path", Quoted(b))])
            == "{\"old_path\":\"" + a + "\",\"new_path\":\"" + b + "\"}"
  {
    TwoTexts("old_path", a, "new_path", b, "{\"old_path\":\"", "\",\"new_path\":\"");
  }

  lemma RenameIsBody(a: string, b: string)
    ensures RenameBody(a, b) == Body(Paths(a, b))
  {
    PathsEntries(a, b);
    RenamePrinted(Escape(a), Escape(b));
  }

  /** rename: neither path can pass for the other, whatever either contains. */
  lemma RenameRecovered(a: string, b: string)
    ensures GetString(RenameBody(a, b), "old_path", PATH_SIZE) == Recovered(a, PATH_SIZE)
    ensures GetString(RenameBody(a, b), "new_path", PATH_SIZE) == Recovered(b, PATH_SIZE)
  {
    var fields := Paths(a, b);
    PathsEntries(a, b);
    TwoDistinct(Entries(fields)[0], Entries(fields)[1]);
    RenameIsBody(a, b);
    TextRecovered(fields, 0, PATH_SIZE);
    TextRecovered(fields, 1, PATH_SIZE);
  }

  // ---------------------------------------------------------------- a path and four numbers

  function TimeFields(path: string, t: Times): seq<Field>
  {
    [Field("path", Text(path)),
     Field("atime_sec", Value.Number(t.atimeSec)), Field("atime_nsec", Value.Number(t.atimeNsec)),
     Field("mtime_sec", Value.Number(t.mtimeSec)), Field("mtime_nsec", Value.Number(t.mtimeNsec))]
  }

  function TimeEntries(e: string, a: string, b: string, c: string, d: string): seq<Entry>
  {
    [Entry("path", Quoted(e)), Entry("atime_sec", a), Entry("atime_nsec", b), Entry("mtime_sec", c),
     Entry("mtime_nsec", d)]
  }

  lemma TimeFieldsEntries(path: string, t: Times)
    ensures Entries(TimeFields(path, t))
            == TimeEntries(Escape(path), Decimal(t.atimeSec), Decimal(t.atimeNsec), Decimal(t.mtimeSec),
                           Decimal(t.mtimeNsec))
  {
  }

  /** Printing one more entry after the text `before`. */
  lemma PrintMore(before: string, key: string, text: string, es: seq<Entry>, piece: string)
    requires es != [] && piece == ",\"" + key + "\":"
    ensures before + "," + Tail([Entry(key, text)] + es) == (before + piece + text) + "," + Tail(es)
  {
    TailMore(Entry(key, text), es);
    Regroup(before + ",", Pattern(key), text, ",", Tail(es));
    CommaKey(before, key, piece);
  }

  lemma CommaKey(before: string, key: string, piece: string)
    requires piece == ",\"" + key + "\":"
    ensures before + "," + Pattern(key) == before + piece
  {
  }

  lemma PrintLast(before: string, key: string, text: string, piece: string)
    requires piece == ",\"" + key + "\":"
    ensures before + "," + Tail([Entry(key, text)]) == before + piece + text + "}"
  {
    TailOne(Entry(key, text));
    CommaKey(before, key, piece);
  }

  lemma PrintPath(e: string, es: seq<Entry>)
    requires es != []
    ensures TextOf([Entry("path", Quoted(e))] + es) == "{\"path\":\"" + e + "\"" + "," + Tail(es)
  {
    TailMore(Entry("path", Quoted(e)), es);
    Regroup("{", Pattern("path"), Quoted(e), ",", Tail(es));
    QuotedAfter("{" + Pattern("path"), e);
    assert "{" + Pattern("path") + "\"" == "{\"path\":\"";
  }

  /** Four more entries after a text, for any keys. */
  lemma PrintFour(before: string, k: seq<string>, p: seq<string>, a: string, b: string, c: string, d: string)
    requires |k| == |p| == 4 && forall i :: 0 <= i < 4 ==> p[i] == ",\"" + k[i] + "\":"
    ensures before + "," + Tail([Entry(k[0], a)] + ([Entry(k[1], b)] + ([Entry(k[2], c)] + [Entry(k[3], d)])))
            == before + p[0] + a + p[1] + b + p[2] + c + p[3] + d + "}"
  {
    var s3 := [Entry(k[3], d)];
    var s2 := [Entry(k[2], c)] + s3;
    var s1 := [Entry(k[1], b)] + s2;
    PrintMore(before, k[0], a, s1, p[0]);
    PrintMore(before + p[0] + a, k[1], b, s2, p[1]);
    PrintMore(before + p[0] + a + p[1] + b, k[2], c, s3, p[2]);
    PrintLast(before + p[0] + a + p[1] + b + p[2] + c, k[3], d, p[3]);
  }

  lemma TimesPrinted(e: string, a: string, b: string, c: string, d: string)
    ensures TextOf(TimeEntries(e, a, b, c, d))
            == "{\"path\":\"" + e + "\"" + ",\"atime_sec\":" + a + ",\"atime_nsec\":" + b
               + ",\"mtime_sec\":" + c + ",\"mtime_nsec\":" + d + "}"
  {
    var es := [Entry("atime_sec", a)] + ([Entry("atime_nsec", b)]
      + ([Entry("mtime_sec", c)] + [Entry("mtime_nsec", d)]));
    assert TimeEntries(e, a, b, c, d) == [Entry("path", Quoted(e))] + es;
    PrintPath(e, es);
    var k := ["atime_sec", "atime_nsec", "mtime_sec", "mtime_nsec"];
    var p := [",\"atime_sec\":", ",\"atime_nsec\":", ",\"mtime_sec\":", ",\"mtime_nsec\":"];
    TimePieces(k, p);
    PrintFour("{\"path\":\"" + e + "\"", k, p, a, b, c, d);
  }

  lemma TimePieces(k: seq<string>, p: seq<string>)
    requires k == ["atime_sec", "atime_nsec", "mtime_sec", "mtime_nsec"]
    requires p == [",\"atime_sec\":", ",\"atime_nsec\":", ",\"mtime_sec\":", ",\"mtime_nsec\":"]
    ensures forall i :: 0 <= i < 4 ==> p[i] == ",\"" + k[i] + "\":"
  {
  }

  lemma TimesDistinct(e: string, a: string, b: string, c: string, d: string)
    ensures DistinctKeys(TimeEntries(e, a, b, c, d))
  {
  }

  lemma UtimensIsBody(path: string, t: Times)
    ensures UtimensBody(path, t) == Body(TimeFields(path, t)) && WellFormed(TimeFields(path, t))
  {
    TimeFieldsEntries(path, t);
    TimesPrinted(Escape(path), Decimal(t.atimeSec), Decimal(t.atimeNsec), Decimal(t.mtimeSec), Decimal(t.mtimeNsec));
    TimesDistinct(Escape(path), Decimal(t.atimeSec), Decimal(t.atimeNsec), Decimal(t.mtimeSec), Decimal(t.mtimeNsec));
  }

  /** utimens */
  lemma UtimensRecovered(path: string, t: Times)
    requires IsLong(t.atimeSec) && IsLong(t.atimeNsec) && IsLong(t.mtimeSec) && IsLong(t.mtimeNsec)
    ensures GetString(UtimensBody(path, t), "path", PATH_SIZE) == Recovered(path, PATH_SIZE)
    ensures GetLong(UtimensBody(path, t), "atime_sec") == Some(t.atimeSec)
    ensures GetLong(UtimensBody(path, t), "atime_nsec") == Some(t.atimeNsec)
    ensures GetLong(UtimensBody(path, t), "mtime_sec") == Some(t.mtimeSec)
    ensures GetLong(UtimensBody(path, t), "mtime_nsec") == Some(t.mtimeNsec)
  {
    UtimensIsBody(path, t);
    var fields := TimeFields(path, t);
    TextRecovered(fields, 0, PATH_SIZE);
    NumberRecovered(fields, 1);
    NumberRecovered(fields, 2);
    NumberRecovered(fields, 3);
    NumberRecovered(fields, 4);
  }

  // ---------------------------------------------------------------- snprintf never truncates

  /** What the escaper accepts leaves room for its terminator. */
  lemma FitsShort(f: char -> string, s: string, size: nat)
    requires FitsWith(f, s, size) && forall c :: |f(c)| in {1, 2, 6}
    ensures |Flat(f, s)| < size
  {
    if s != "" {
      assert Room(f, s, |s| - 1, size);
    }
  }

  lemma EscapedShort(s: string)
    requires Fits(s, ESCAPED_SIZE)
    ensures |Escape(s)| < ESCAPED_SIZE
  {
    FitsShort(EscapeChar, s, ESCAPED_SIZE);
  }

  /** Every path that json_escape_string accepts gives a body that fits the buffer snprintf fills. */
  lemma BodiesFit(a: string, b: string, n: int, t: Times)
    requires Fits(a, ESCAPED_SIZE) && Fits(b, ESCAPED_SIZE)
    requires IsLong(n) && IsLong(t.atimeSec) && IsLong(t.atimeNsec) && IsLong(t.mtimeSec) && IsLong(t.mtimeNsec)
    ensures |CreateBody(a, n)| < ESCAPED_SIZE + 64 && |RemoveBody(a)| < ESCAPED_SIZE + 64
    ensures |TruncateBody(a, n)| < ESCAPED_SIZE + 64 && |RenameBody(a, b)| < 2 * ESCAPED_SIZE + 64
    ensures |UtimensBody(a, t)| < ESCAPED_SIZE + 256
  {
    EscapedShort(a);
    EscapedShort(b);
    DecimalLength(n);
    DecimalLength(t.atimeSec);
    DecimalLength(t.atimeNsec);
    DecimalLength(t.mtimeSec);
    DecimalLength(t.mtimeNsec);
  }
}

/**
  From a directory on the server to the client's list: the response that handle_list
  (demo/service_provider/c/httpfs_server.c) prints, read by httpfs_list_dir (src/http_client.c).
*/
module ListReply {
  import opened Base
  import opened CText
  import opened JsonTree
  import opened TokenSearch
  import opened Listing
  import JsonBody
  import Jsmn

  datatype DirEntry = DirEntry(name: string, isDir: bool)

  /** SERVER_LIST_PAYLOAD_SIZE, and char escaped[512] */
  const PAYLOAD_SIZE: nat := 262144
  const ESCAPED_SIZE: nat := 512

  function KindOf(e: DirEntry): string { if e.isDir then "dir" else "file" }

  const OPENING: string := "{\"status\":\"ok\",\"entries\":["

  /** {"name":"%s","type":"%s"} */
  function PrintedAs(name: string, kind: string): string
  {
    "{\"name\":\"" + name + "\",\"type\":\"" + kind + "\"}"
  }

  function Printed(e: DirEntry): string
  {
    PrintedAs(JsonBody.Escape(e.name), KindOf(e))
  }

  /** char entry_path[4096] */
  const ENTRY_PATH_SIZE: nat := 4096

  /** In a directory whose local path has this length an entry can be examined and escaped. */
  function Nameable(local: nat): DirEntry -> bool
  {
    (e: DirEntry) => local + 1 + |e.name| < ENTRY_PATH_SIZE && JsonBody.Fits(e.name, ESCAPED_SIZE)
  }

  /** Each entry as printed, after a comma. */
  function Commas(es: seq<DirEntry>, print_: DirEntry -> string): string
  {
    if es == [] then "" else "," + (print_(es[0]) + Commas(es[1..], print_))
  }

  /** The entries as printed, separated by commas. */
  function Joined(es: seq<DirEntry>, print_: DirEntry -> string): string
  {
    if es == [] then "" else print_(es[0]) + Commas(es[1..], print_)
  }

  function Payload(es: seq<DirEntry>): string { OPENING + Joined(es, Printed) + "]}" }

  /** The payload after `k` entries. */
  function UpTo(es: seq<DirEntry>, k: nat, print_: DirEntry -> string): string
    requires k <= |es|
  {
    OPENING + Joined(es[..k], print_)
  }

  /** Entry `k` can be examined and escaped, and leaves room for more in the payload. */
  predicate Room(es: seq<DirEntry>, k: nat, print_: DirEntry -> string, ok: DirEntry -> bool)
    requires k < |es|
  {
    ok(es[k]) && |UpTo(es, k + 1, print_)| + 64 < PAYLOAD_SIZE
  }

  predicate AllRoom(es: seq<DirEntry>, print_: DirEntry -> string, ok: DirEntry -> bool)
  {
    forall k :: 0 <= k < |es| ==> Room(es, k, print_, ok)
  }

  /** How the payload grows: `text(k)` is what it is after `k` entries. */
  ghost predicate Grows(text: nat -> string, es: seq<DirEntry>, print_: DirEntry -> string)
  {
    && text(0) == OPENING
    && forall k: nat :: k < |es| ==> text(k + 1) == text(k) + (if k == 0 then "" else ",") + print_(es[k])
  }

  /** The loop of handle_list over the directory's entries, for any way to print them. */
  method BuildLoop(es: seq<DirEntry>, print_: DirEntry -> string, ok: DirEntry -> bool, ghost text: nat -> string)
    returns (payload: Option<string>)
    requires Grows(text, es, print_)
    ensures payload.Some? <==> forall k: nat :: k < |es| ==> ok(es[k]) && |text(k + 1)| + 64 < PAYLOAD_SIZE
    ensures payload.Some? ==> payload.value == text(|es|) + "]}" && |text(|es|)| + 64 < PAYLOAD_SIZE
  {
    var buffer := OPENING;
    var first := true;
    assert |OPENING| + 64 < PAYLOAD_SIZE;
    for k := 0 to |es|
      invariant buffer == text(k) && |buffer| + 64 < PAYLOAD_SIZE && first == (k == 0)
      invariant forall j: nat :: j < k ==> ok(es[j]) && |text(j + 1)| + 64 < PAYLOAD_SIZE
    {
      if !ok(es[k]) { return None; }
      buffer := buffer + (if first then "" else ",") + print_(es[k]);
      first := false;
      assert buffer == text(k + 1);
      if |buffer| + 64 >= PAYLOAD_SIZE { return None; }
    }
    payload := Some(buffer + "]}");
  }

  lemma PayloadGrows(es: seq<DirEntry>, print_: DirEntry -> string, text: nat -> string)
    requires forall k: nat :: k <= |es| ==> text(k) == UpTo(es, k, print_)
    ensures Grows(text, es, print_) && text(|es|) == OPENING + Joined(es, print_)
  {
    assert es[..0] == [] && es[..|es|] == es;
    assert OPENING + "" == OPENING;
    forall k: nat | k < |es|
      ensures text(k + 1) == text(k) + (if k == 0 then "" else ",") + print_(es[k])
    {
      JoinedMore(es, k, print_);
    }
  }

  method BuildWith(es: seq<DirEntry>, print_: DirEntry -> string, ok: DirEntry -> bool)
    returns (payload: Option<string>)
    ensures payload.Some? <==> AllRoom(es, print_, ok)
    ensures payload.Some? ==> payload.value == OPENING + Joined(es, print_) + "]}" && |payload.value| < PAYLOAD_SIZE
  {
    ghost var text := (k: nat) => if k <= |es| then UpTo(es, k, print_) else "";
    PayloadGrows(es, print_, text);
    payload := BuildLoop(es, print_, ok, text);
    RoomIs(es, print_, ok, text);
  }

  lemma RoomIs(es: seq<DirEntry>, print_: DirEntry -> string, ok: DirEntry -> bool, text: nat -> string)
    requires forall k: nat :: k <= |es| ==> text(k) == UpTo(es, k, print_)
    ensures AllRoom(es, print_, ok) <==> forall k: nat :: k < |es| ==> ok(es[k]) && |text(k + 1)| + 64 < PAYLOAD_SIZE
  {
    forall k: nat | k < |es|
      ensures Room(es, k, print_, ok) <==> ok(es[k]) && |text(k + 1)| + 64 < PAYLOAD_SIZE
    {
      assert text(k + 1) == UpTo(es, k + 1, print_);
    }
  }

  lemma {:induction false} CommasMore(es: seq<DirEntry>, e: DirEntry, print_: DirEntry -> string)
    ensures Commas(es + [e], print_) == Commas(es, print_) + "," + print_(e)
    decreases |es|
  {
    if es == [] {
      assert ([] + [e])[1..] == [];
    } else {
      assert (es + [e])[1..] == es[1..] + [e];
      CommasMore(es[1..], e, print_);
    }
  }

  lemma JoinedMore(es: seq<DirEntry>, k: nat, print_: DirEntry -> string)
    requires k < |es|
    ensures OPENING + Joined(es[..k + 1], print_)
            == OPENING + Joined(es[..k], print_) + (if k == 0 then "" else ",") + print_(es[k])
  {
    if k == 0 {
      assert es[..1][1..] == [];
    } else {
      assert es[..k + 1][1..] == es[..k][1..] + [es[k]];
      CommasMore(es[..k][1..], es[k], print_);
      Regroup(OPENING, print_(es[0]), Commas(es[..k][1..], print_), ",", print_(es[k]));
    }
  }

  lemma Regroup(a: string, b: string, c: string, d: string, e: string)
    ensures a + (b + (c + d + e)) == a + (b + c) + d + e
  {
  }

  /**
    handle_list for the entries of a directory whose local path has `local` characters: the whole payload, or an
    error.
  */
  method BuildPayload(local: nat, es: seq<DirEntry>) returns (payload: Option<string>)
    ensures payload.Some? <==> AllRoom(es, Printed, Nameable(local))
    ensures payload.Some? ==> payload.value == Payload(es) && |payload.value| < PAYLOAD_SIZE
  {
    payload := BuildWith(es, Printed, Nameable(local));
  }

  // ---------------------------------------------------------------- the tree it spells

  /** A member of an object: key, colon, value. */
  function MemberItem(pad: string, key: string, value: Node, rest: Forest): Forest
  {
    Item(pad, Str(key), Item(":", value, rest))
  }

  function EntryItems(name: string, kind: string): Forest
  {
    MemberItem("", "name", Str(name), MemberItem(",", "type", Str(kind), Done("")))
  }

  /** The array's items, the first after `pad` and the others after commas. */
  function EntryForest(es: seq<DirEntry>, pad: string, name: DirEntry -> string, kind: DirEntry -> string): Forest
  {
    if es == [] then Done("")
    else Item(pad, Box(true, EntryItems(name(es[0]), kind(es[0]))), EntryForest(es[1..], ",", name, kind))
  }

  function Escaped(e: DirEntry): string { JsonBody.Escape(e.name) }

  function RootItems(entries: Forest): Forest
  {
    MemberItem("", "status", Str("ok"), MemberItem(",", "entries", Box(false, entries), Done("")))
  }

  function Root(es: seq<DirEntry>): Node { Box(true, RootItems(EntryForest(es, "", Escaped, KindOf))) }

  /** The response is this one value. */
  function Response(es: seq<DirEntry>): Forest { Item("", Root(es), Done("")) }

  // ---------------------------------------------------------------- its text is the payload

  lemma MemberText(pad: string, key: string, value: Node, rest: Forest)
    ensures TextF(MemberItem(pad, key, value, rest)) == pad + ("\"" + key + "\":" + (Text(value) + TextF(rest)))
  {
    var inner := Item(":", value, rest);
    assert TextF(inner) == ":" + (Text(value) + TextF(rest));
    assert Text(Str(key)) + TextF(inner) == "\"" + key + "\":" + (Text(value) + TextF(rest));
  }

  lemma EntryTextParts(name: string, kind: string)
    ensures TextF(EntryItems(name, kind))
            == "" + ("\"" + "name" + "\":"
                     + (JsonBody.Quoted(name) + ("," + ("\"" + "type" + "\":" + (JsonBody.Quoted(kind) + "")))))
  {
    var rest := MemberItem(",", "type", Str(kind), Done(""));
    MemberText(",", "type", Str(kind), Done(""));
    MemberText("", "name", Str(name), rest);
  }

  lemma EntryText(name: string, kind: string)
    ensures Text(Box(true, EntryItems(name, kind))) == PrintedAs(name, kind)
  {
    EntryTextParts(name, kind);
    Glue("\"" + "name" + "\":", name, ",", "\"" + "type" + "\":", kind);
    assert "{" + ("\"" + "name" + "\":") + "\"" == "{\"name\":\"";
    assert "\"" + "," + ("\"" + "type" + "\":") + "\"" == "\",\"type\":\"";
  }

  lemma Glue(a: string, name: string, c: string, d: string, kind: string)
    ensures "{" + ("" + (a + (JsonBody.Quoted(name) + (c + (d + (JsonBody.Quoted(kind) + "")))))) + "}"
            == ("{" + a + "\"") + name + ("\"" + c + d + "\"") + kind + "\"}"
  {
  }

  lemma {:induction false} ForestCommas(es: seq<DirEntry>, name: DirEntry -> string, kind: DirEntry -> string,
                                        print_: DirEntry -> string)
    requires forall e :: print_(e) == PrintedAs(name(e), kind(e))
    ensures TextF(EntryForest(es, ",", name, kind)) == Commas(es, print_)
    decreases |es|
  {
    if es != [] {
      EntryText(name(es[0]), kind(es[0]));
      ForestCommas(es[1..], name, kind, print_);
    }
  }

  lemma ForestText(es: seq<DirEntry>, name: DirEntry -> string, kind: DirEntry -> string, print_: DirEntry -> string)
    requires forall e :: print_(e) == PrintedAs(name(e), kind(e))
    ensures TextF(EntryForest(es, "", name, kind)) == Joined(es, print_)
  {
    if es != [] {
      EntryText(name(es[0]), kind(es[0]));
      ForestCommas(es[1..], name, kind, print_);
      assert "" + (print_(es[0]) + Commas(es[1..], print_)) == print_(es[0]) + Commas(es[1..], print_);
    }
  }

  lemma RootTextParts(f: Forest)
    ensures TextF(RootItems(f))
            == "" + ("\"" + "status" + "\":"
                     + (JsonBody.Quoted("ok") + ("," + ("\"" + "entries" + "\":" + (("[" + TextF(f) + "]") + "")))))
  {
    var rest := MemberItem(",", "entries", Box(false, f), Done(""));
    MemberText(",", "entries", Box(false, f), Done(""));
    MemberText("", "status", Str("ok"), rest);
  }

  lemma GlueRoot(a: string, b: string, c: string, x: string)
    ensures "{" + ("" + (a + (b + ("," + (c + (("[" + x + "]") + "")))))) + "}"
            == ("{" + a + b + "," + c + "[") + x + "]}"
  {
  }

  lemma RootText(f: Forest)
    ensures Text(Box(true, RootItems(f))) == OPENING + TextF(f) + "]}"
  {
    RootTextParts(f);
    var a, c := "\"" + "status" + "\":", "\"" + "entries" + "\":";
    GlueRoot(a, JsonBody.Quoted("ok"), c, TextF(f));
    OpeningIs(a, JsonBody.Quoted("ok"), c);
  }

  lemma OpeningIs(a: string, b: string, c: string)
    requires a == "\"" + "status" + "\":" && b == "\"" + "ok" + "\"" && c == "\"" + "entries" + "\":"
    ensures "{" + a + b + "," + c + "[" == OPENING
  {
  }

  /** What handle_list prints is the text of the tree. */
  lemma PayloadIsText(es: seq<DirEntry>)
    ensures Payload(es) == TextF(Response(es))
  {
    ForestText(es, Escaped, KindOf, Printed);
    RootText(EntryForest(es, "", Escaped, KindOf));
    ResponseText(es, Text(Root(es)));
  }

  lemma ResponseText(es: seq<DirEntry>, t: string)
    requires t == Text(Root(es))
    ensures TextF(Response(es)) == t
  {
    assert "" + (t + "") == t;
  }

  // ---------------------------------------------------------------- the tree is a document

  lemma {:induction false} RawShift(a: string, b: string, t: string, k: nat)
    requires t == a + b && k <= |b| && IsRaw(b, k)
    ensures IsRaw(t, |a| + k)
    decreases |b| - k
  {
    if k < |b| {
      assert forall i :: 0 <= i < |b| ==> t[|a| + i] == b[i];
      assert Unit(t, |a| + k) == Unit(b, k);
      RawShift(a, b, t, k + Unit(b, k));
    }
  }

  predicate IsUnit(piece: string) { piece != "" && Unit(piece, 0) == |piece| }

  lemma UnitFirst(piece: string, rest: string, t: string)
    requires IsUnit(piece) && t == piece + rest
    ensures Unit(t, 0) == |piece|
  {
    assert forall i :: 0 <= i < |piece| ==> t[i] == piece[i];
  }

  /** Text made of units is raw string text. */
  lemma {:induction false} FlatIsRaw(f: char -> string, s: string)
    requires forall c :: IsUnit(f(c))
    ensures IsRaw(Flat(f, s), 0)
    decreases |s|
  {
    if s != "" {
      FlatCons(f, s);
      var piece, rest := f(s[0]), Flat(f, s[1..]);
      assert IsUnit(f(s[0]));
      FlatIsRaw(f, s[1..]);
      UnitFirst(piece, rest, piece + rest);
      RawShift(piece, rest, piece + rest, 0);
    }
  }

  /** Whatever json_escape_string escapes, the tokenizer takes for one string. */
  lemma EscapeIsRaw(s: string)
    ensures IsRaw(JsonBody.Escape(s), 0)
  {
    forall c
      ensures IsUnit(JsonBody.EscapeChar(c))
    {
      var e := JsonBody.EscapeChar(c);
      assert |e| == 6 ==> e[0] == '\\' && e[1] == 'u';
    }
    FlatIsRaw(JsonBody.EscapeChar, s);
  }

  lemma WordIsRaw(s: string)
    requires s in {"name", "type", "status", "ok", "entries", "dir", "file"}
    ensures IsRaw(s, 0)
  {
    PlainIsRaw(s, 0);
  }

  lemma MemberCount(pad: string, key: string, value: Node, rest: Forest)
    ensures CountF(MemberItem(pad, key, value, rest)) == 1 + Count(value) + CountF(rest)
  {
    assert CountF(Item(":", value, rest)) == Count(value) + CountF(rest);
  }

  lemma MemberIsGood(pad: string, key: string, value: Node, rest: Forest)
    requires AllSkipped(pad) && IsRaw(key, 0) && Good(value) && !value.Prim? && GoodF(rest)
    ensures GoodF(MemberItem(pad, key, value, rest))
  {
    assert GoodF(Item(":", value, rest));
  }

  lemma TwoAreGood(k: string, a: Node, l: string, b: Node, f: Forest)
    requires f == MemberItem("", k, a, MemberItem(",", l, b, Done("")))
    requires IsRaw(k, 0) && IsRaw(l, 0) && Good(a) && Good(b) && !a.Prim? && !b.Prim?
    ensures GoodF(f) && CountF(f) == 2 + Count(a) + Count(b)
  {
    var rest := MemberItem(",", l, b, Done(""));
    MemberIsGood(",", l, b, Done(""));
    MemberIsGood("", k, a, rest);
    MemberCount(",", l, b, Done(""));
    MemberCount("", k, a, rest);
  }

  lemma EntryIsGood(name: string, kind: string)
    requires IsRaw(name, 0) && IsRaw(kind, 0)
    ensures Good(Box(true, EntryItems(name, kind))) && Count(Box(true, EntryItems(name, kind))) == 5
  {
    WordIsRaw("name");
    WordIsRaw("type");
    TwoAreGood("name", Str(name), "type", Str(kind), EntryItems(name, kind));
  }

  lemma {:induction false} ForestIsGood(es: seq<DirEntry>, pad: string, name: DirEntry -> string,
                                        kind: DirEntry -> string)
    requires AllSkipped(pad) && forall e :: IsRaw(name(e), 0) && IsRaw(kind(e), 0)
    ensures GoodF(EntryForest(es, pad, name, kind)) && CountF(EntryForest(es, pad, name, kind)) == 5 * |es|
    decreases |es|
  {
    if es != [] {
      EntryIsGood(name(es[0]), kind(es[0]));
      ForestIsGood(es[1..], ",", name, kind);
    }
  }

  lemma RootIsGood(f: Forest)
    requires GoodF(f)
    ensures Good(Box(true, RootItems(f))) && Count(Box(true, RootItems(f))) == 5 + CountF(f)
  {
    WordIsRaw("status");
    WordIsRaw("entries");
    WordIsRaw("ok");
    TwoAreGood("status", Str("ok"), "entries", Box(false, f), RootItems(f));
  }

  lemma RawNames()
    ensures forall e :: IsRaw(Escaped(e), 0) && IsRaw(KindOf(e), 0)
  {
    forall e: DirEntry
      ensures IsRaw(Escaped(e), 0) && IsRaw(KindOf(e), 0)
    {
      EscapeIsRaw(e.name);
      WordIsRaw(KindOf(e));
    }
  }

  // ---------------------------------------------------------------- what the client reads

  lemma TwoMembers(k: string, a: Node, l: string, b: Node, f: Forest)
    requires f == MemberItem("", k, a, MemberItem(",", l, b, Done(""))) && k != l
    ensures IsMembers(f) && Lookup(Members(f), k) == Some(a) && Lookup(Members(f), l) == Some(b)
  {
    var rest := MemberItem(",", l, b, Done(""));
    assert Members(rest) == [Member(l, b)] + [];
    assert Members(f) == [Member(k, a)] + Members(rest);
    LookupCons(Member(k, a), Members(rest), k);
    LookupCons(Member(k, a), Members(rest), l);
    LookupCons(Member(l, b), [], l);
  }

  /** An entry's name and kind are found, whatever follows. */
  lemma EntryRead(name: string, kind: string, f: Forest, follow: Forest)
    requires f == EntryItems(name, kind)
    ensures EntryOf(f, follow) ==
            Read(if |name| < NAME_SIZE && |kind| < KIND_SIZE then Some(Entry(name, kind)) else None, false)
  {
    TwoMembers("name", Str(name), "type", Str(kind), f);
    LookIsLookup(f, "name", follow);
    LookIsLookup(f, "type", follow);
  }

  /** The list that the client is to end up with. */
  function Names(es: seq<DirEntry>, name: DirEntry -> string, kind: DirEntry -> string): seq<Entry>
  {
    seq(|es|, i requires 0 <= i < |es| => Entry(name(es[i]), kind(es[i])))
  }

  ghost predicate Fit(es: seq<DirEntry>, name: DirEntry -> string)
  {
    forall i :: 0 <= i < |es| ==> |name(es[i])| < NAME_SIZE
  }

  ghost predicate WalkEnds(r: Outcome, es: seq<DirEntry>, name: DirEntry -> string, kind: DirEntry -> string,
                           found: seq<Entry>, max: nat)
  {
    && (r.Listed? <==> Fit(es, name) && (|es| == 0 || |found| + |es| <= max))
    && (r.Listed? ==> r.entries == found + Names(es, name, kind))
    && (!r.Listed? && |found| <= max ==>
          r == if Fit(es[..Min(|es|, max - |found|)], name) then TooMany else BadEntry)
  }

  lemma {:induction false} WalkReads(es: seq<DirEntry>, pad: string, name: DirEntry -> string, kind: DirEntry -> string,
                                     found: seq<Entry>, max: nat, follow: Forest)
    requires forall e :: |kind(e)| < KIND_SIZE
    ensures WalkEnds(Walk(EntryOf, EntryForest(es, pad, name, kind), found, max, follow), es, name, kind, found, max)
    decreases |es|
  {
    if es != [] {
      var e := Entry(name(es[0]), kind(es[0]));
      var rest := EntryForest(es[1..], ",", name, kind);
      EntryRead(e.name, e.kind, EntryItems(e.name, e.kind), Following(rest, follow));
      WalkReads(es[1..], ",", name, kind, found + [e], max, follow);
      WalkCons(es, name, kind, found, e);
      if |found| < max {
        FitCons(es, name, Min(|es|, max - |found|));
      }
    }
  }

  lemma WalkCons(es: seq<DirEntry>, name: DirEntry -> string, kind: DirEntry -> string, found: seq<Entry>, e: Entry)
    requires es != [] && e == Entry(name(es[0]), kind(es[0]))
    ensures found + [e] + Names(es[1..], name, kind) == found + Names(es, name, kind)
    ensures Fit(es, name) <==> |name(es[0])| < NAME_SIZE && Fit(es[1..], name)
  {
    assert forall i :: 0 < i < |es| ==> es[i] == es[1..][i - 1];
  }

  lemma FitCons(es: seq<DirEntry>, name: DirEntry -> string, k: nat)
    requires 0 < k <= |es|
    ensures Fit(es[..k], name) <==> |name(es[0])| < NAME_SIZE && Fit(es[1..][..k - 1], name)
  {
    assert es[..k][0] == es[0] && forall i :: 0 < i < k ==> es[..k][i] == es[1..][..k - 1][i - 1];
  }

  /** The response is a document, with five tokens for each entry and five more. */
  lemma RootIsDocument(es: seq<DirEntry>)
    ensures GoodF(Response(es)) && CountF(Response(es)) == 5 + 5 * |es|
  {
    RawNames();
    ForestIsGood(es, "", Escaped, KindOf);
    RootIsGood(EntryForest(es, "", Escaped, KindOf));
  }

  /** The search for the entries sees the array, which is the last thing in the response. */
  lemma RootLooks(f: Forest, end: Forest)
    requires end == Done("")
    ensures Look(RootItems(f), "status", end).Sees? && Look(RootItems(f), "status", end).node == Str("ok")
    ensures Look(RootItems(f), "entries", end) == Sees(Box(false, f), end)
  {
    var rest := MemberItem(",", "entries", Box(false, f), Done(""));
    assert Look(rest, "entries", end) == Sees(Box(false, f), end);
  }

  lemma MeaningIsWalk(f: Forest, max: nat)
    ensures var r := Item("", Box(true, RootItems(f)), Done(""));
      Meaning(r, max) == if CountF(r) > MAX_TOKENS then BadJson else Walk(EntryOf, f, [], max, Done(""))
  {
    RootLooks(f, Done(""));
  }

  /** The escaped names fit into the client's entries. */
  ghost predicate NamesFit(es: seq<DirEntry>)
  {
    forall i :: 0 <= i < |es| ==> |JsonBody.Escape(es[i].name)| < 256
  }

  /** The list of a directory: every entry in order, with its escaped name and what it is. */
  ghost predicate Lists(entries: seq<Entry>, es: seq<DirEntry>)
  {
    && |entries| == |es|
    && forall i :: 0 <= i < |es| ==>
         && entries[i].name == JsonBody.Escape(es[i].name)
         && entries[i].kind == if es[i].isDir then "dir" else "file"
  }

  /**
    What the client makes of a directory: the complete list, with each name as the server escapes it, exactly when
    there are at most 101 entries, the caller's buffer holds them and each escaped name fits.  Otherwise the response is
    not understood, or the first entry that does not fit, into the list or into an entry, says which error it is.
  */
  lemma ListingReceived(es: seq<DirEntry>, max: nat)
    ensures var r := Meaning(Response(es), max);
      && (r.Listed? <==> |es| <= 101 && (|es| == 0 || |es| <= max) && NamesFit(es))
      && (r.Listed? ==> Lists(r.entries, es))
      && (|es| > 101 ==> r == BadJson)
      && (!r.Listed? && |es| <= 101 ==> r == if NamesFit(es[..Min(|es|, max)]) then TooMany else BadEntry)
  {
    RootIsDocument(es);
    WalkReads(es, "", Escaped, KindOf, [], max, Done(""));
    MeaningIsWalk(EntryForest(es, "", Escaped, KindOf), max);
    assert [] + Names(es, Escaped, KindOf) == Names(es, Escaped, KindOf);
    FitsAsEscaped(es);
    FitsAsEscaped(es[..Min(|es|, max)]);
  }

  lemma FitsAsEscaped(es: seq<DirEntry>)
    ensures Fit(es, Escaped) <==> NamesFit(es)
  {
    assert forall i :: 0 <= i < |es| ==> Escaped(es[i]) == JsonBody.Escape(es[i].name);
  }

  /** The length of the response after these entries, without its closing brackets. */
  function ReplyLength(es: seq<DirEntry>): nat
  {
    if es == [] then 26
    else
      var e := es[|es| - 1];
      ReplyLength(es[..|es| - 1]) + (if |es| > 1 then 1 else 0)
      + |JsonBody.Escape(e.name)| + (if e.isDir then 24 else 25)
  }

  lemma PrintedLength(e: DirEntry)
    ensures |Printed(e)| == |JsonBody.Escape(e.name)| + if e.isDir then 24 else 25
  {
    PiecesLength("{\"name\":\"", JsonBody.Escape(e.name), "\",\"type\":\"", KindOf(e), "\"}");
  }

  lemma PiecesLength(a: string, b: string, c: string, d: string, e: string)
    ensures |a + b + c + d + e| == |a| + |b| + |c| + |d| + |e|
  {
  }

  lemma {:induction false} ReplyLengthIs(es: seq<DirEntry>, k: nat)
    requires k <= |es|
    ensures |UpTo(es, k, Printed)| == ReplyLength(es[..k])
  {
    if k == 0 {
      assert es[..0] == [] && |OPENING| == 26;
    } else {
      ReplyLengthIs(es, k - 1);
      JoinedMore(es, k - 1, Printed);
      LengthMore(es, k, UpTo(es, k, Printed), UpTo(es, k - 1, Printed));
    }
  }

  lemma LengthMore(es: seq<DirEntry>, k: nat, after: string, before: string)
    requires 0 < k <= |es| && after == before + (if k == 1 then "" else ",") + Printed(es[k - 1])
    requires |before| == ReplyLength(es[..k - 1])
    ensures |after| == ReplyLength(es[..k])
  {
    PrintedLength(es[k - 1]);
    assert es[..k][..k - 1] == es[..k - 1] && es[..k][k - 1] == es[k - 1];
  }

  /** Path and escaped name of entry `k` fit the server's buffers, and the response leaves room after it. */
  predicate Fitting(local: nat, es: seq<DirEntry>, k: nat)
    requires k < |es|
  {
    && local + 1 + |es[k].name| < 4096 && JsonBody.Fits(es[k].name, 512)
    && ReplyLength(es[..k + 1]) + 64 < 262144
  }

  ghost predicate Answerable(local: nat, es: seq<DirEntry>)
  {
    forall k :: 0 <= k < |es| ==> Fitting(local, es, k)
  }

  lemma AnswerableIsRoom(local: nat, es: seq<DirEntry>)
    ensures AllRoom(es, Printed, Nameable(local)) <==> Answerable(local, es)
  {
    forall k | 0 <= k < |es|
      ensures Room(es, k, Printed, Nameable(local)) <==> Fitting(local, es, k)
    {
      ReplyLengthIs(es, k + 1);
    }
  }

  /**
    From the server's loop over the directory to the client's loop over the tokens: an error of the server exactly if
    some entry does not fit its buffers, and otherwise what `ListingReceived` says.
  */
  method ListRemotely(local: nat, es: seq<DirEntry>, max: nat) returns (r: Option<Outcome>)
    ensures r.Some? <==> Answerable(local, es)
    ensures r.Some? ==> (r.value.Listed? <==> |es| <= 101 && (|es| == 0 || |es| <= max) && NamesFit(es))
    ensures r.Some? && r.value.Listed? ==> Lists(r.value.entries, es)
  {
    AnswerableIsRoom(local, es);
    var payload := BuildPayload(local, es);
    if payload.None? { return None; }
    ListingReceived(es, max);
    RootIsDocument(es);
    PayloadIsText(es);
    assert Spells(payload.value, Response(es));
    var result := ListDir(payload.value, max);
    return Some(result);
  }

  // ---------------------------------------------------------------- names that need no escaping

  predicate NeedsNone(c: char) { c >= ' ' && c != '"' && c != '\\' }

  lemma {:induction false} FlatLength(f: char -> string, s: string)
    requires forall c :: |f(c)| >= 1
    ensures |Flat(f, s)| >= |s|
  {
    if s != "" {
      FlatLength(f, s[..|s| - 1]);
    }
  }

  lemma {:induction false} FlatIsSame(f: char -> string, plain: char -> bool, s: string)
    requires forall c :: |f(c)| >= 1 && (plain(c) ==> f(c) == [c]) && (!plain(c) ==> |f(c)| >= 2)
    ensures Flat(f, s) == s <==> forall i :: 0 <= i < |s| ==> plain(s[i])
  {
    if s != "" {
      var n := |s| - 1;
      FlatIsSame(f, plain, s[..n]);
      FlatLength(f, s[..n]);
      SameLast(s, s[..n], Flat(f, s[..n]), f(s[n]));
    }
  }

  /** Two texts with their last pieces. */
  lemma SameLast(s: string, init: string, front: string, piece: string)
    requires s != "" && init == s[..|s| - 1] && |front| >= |init| && |piece| >= 1
    ensures front + piece == s <==> front == init && piece == [s[|s| - 1]]
  {
    var n := |s| - 1;
    assert s == init + [s[n]];
    if front + piece == s {
      assert |front| == n && |piece| == 1;
      assert (front + piece)[..n] == front;
      assert (front + piece)[n] == piece[0];
    }
  }

  /** The client sees a name as it is on the server exactly when nothing in it needs escaping. */
  lemma NameIsExact(e: DirEntry)
    ensures Escaped(e) == e.name <==> forall i :: 0 <= i < |e.name| ==> NeedsNone(e.name[i])
  {
    FlatIsSame(JsonBody.EscapeChar, NeedsNone, e.name);
  }
}

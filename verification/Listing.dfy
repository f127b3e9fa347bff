/**
  httpfs_list_dir of src/http_client.c on the response to a listing, against the tree that the response spells.
*/
module Listing {
  import opened Base
  import opened CText
  import opened JsonTree
  import opened TokenSearch
  import Jsmn

  datatype Entry = Entry(name: string, kind: string)

  /** How httpfs_list_dir ends; Strays if a search reads a token that was never parsed. */
  datatype Outcome =
    | Listed(entries: seq<Entry>)
    | BadJson
    | BadFormat
    | NoStatus
    | ServerError(errno: int, message: string)
    | UnknownStatus
    | NoEntries
    | TooMany
    | BadEntry
    | Strays

  /** httpfs_dir_entry: char name[256], type[8] */
  const NAME_SIZE: nat := 256
  const KIND_SIZE: nat := 8

  /** HTTPFS_MAX_MESSAGE, and the buffer of token_to_long */
  const MESSAGE_SIZE: nat := 512
  const NUMBER_SIZE: nat := 64

  const EIO: int := 5

  /** parse_ok_response allows this many tokens. */
  const MAX_TOKENS: nat := 512

  /** The text a token covers: a string without its quotes. */
  function Covered(n: Node): string { if n.Str? then n.raw else Text(n) }

  lemma CoveredIs(js: string, ts: seq<Token>, n: Node, pos: nat, i: nat, parent: int)
    requires Holds(js, ts, n, pos, i, parent)
    ensures 0 <= ts[i].start <= ts[i].end <= |js| && js[ts[i].start..ts[i].end] == Covered(n)
    ensures ts[i].kind == Head(n, 0, 0).kind
  {
    if n.Str? {
      AtSplits(js, "\"" + n.raw, "\"", pos);
      AtSplits(js, "\"", n.raw, pos);
    }
  }

  /** The token of a node covers the node's text, wherever it stands. */
  lemma StandsCovered(js: string, ts: seq<Token>, n: Node, i: nat)
    requires Stands(js, ts, n, i)
    ensures i < |ts| && 0 <= ts[i].start <= ts[i].end <= |js| && js[ts[i].start..ts[i].end] == Covered(n)
    ensures ts[i].kind == Head(n, 0, 0).kind
  {
    var pos: nat, parent: int :| Holds(js, ts, n, pos, i, parent);
    CoveredIs(js, ts, n, pos, i, parent);
  }

  // ---------------------------------------------------------------- lookup in the tree

  /** token_to_string of the value of a key: the text, nothing, or (strayed) a token that was never parsed. */
  datatype TextRead = TextRead(text: Option<string>, strayed: bool)

  function ValueOf(v: Sight, size: nat): TextRead
  {
    match v
    case Sees(n, _) => TextRead(if |Covered(n)| + 1 > size then None else Some(Covered(n)), false)
    case SeesNothing => TextRead(None, false)
    case SeesBeyond => TextRead(None, true)
  }

  /** The entry that an object of the array describes. */
  datatype Read = Read(entry: Option<Entry>, strayed: bool)

  function EntryOf(items: Forest, follow: Forest): Read
  {
    var name, kind := ValueOf(Look(items, "name", follow), NAME_SIZE), ValueOf(Look(items, "type", follow), KIND_SIZE);
    if name.strayed || kind.strayed then Read(None, true)
    else if name.text.None? || kind.text.None? then Read(None, false)
    else Read(Some(Entry(name.text.value, kind.text.value)), false)
  }

  predicate IsObject(n: Node) { n.Box? && n.isObject }

  /** A way to read one object. */
  type Reader = (Forest, Forest) -> Read

  /** The entries of the objects in the array, after `found`, at most `max` in all; anything else is passed over. */
  function Walk(read: Reader, f: Forest, found: seq<Entry>, max: nat, follow: Forest): Outcome
  {
    if f.Done? then Listed(found)
    else if !IsObject(f.node) then Walk(read, f.rest, found, max, follow)
    else if |found| >= max then TooMany
    else
      var r := read(f.node.items, Following(f.rest, follow));
      if r.strayed then Strays
      else if r.entry.None? then BadEntry
      else Walk(read, f.rest, found + [r.entry.value], max, follow)
  }

  /** The rest of httpfs_list_dir, for what the search for the entries sees. */
  function Entries(v: Sight, max: nat): Outcome
  {
    match v
    case SeesBeyond => Strays
    case SeesNothing => NoEntries
    case Sees(n, after) => if !n.Box? || n.isObject then NoEntries else Walk(EntryOf, n.items, [], max, after)
  }

  /**
    What is reported for the status "error".  The number is that of strtol even if it makes none of the text (0 then),
    and the defaults stand if there is no value or it does not fit.
  */
  function Reported(errno: TextRead, message: TextRead): Outcome
  {
    if errno.strayed || message.strayed then Strays
    else ServerError(
      if errno.text.Some? then Strtoll(errno.text.value).0 else EIO,
      if message.text.Some? then message.text.value else "Server returned an error")
  }

  /** What httpfs_list_dir makes of an object, with whatever values follow it. */
  function Answered(items: Forest, follow: Forest, max: nat): Outcome
  {
    var status := Look(items, "status", follow);
    if status.SeesBeyond? then Strays
    else if status.SeesNothing? then NoStatus
    else if Covered(status.node) == "ok" then Entries(Look(items, "entries", follow), max)
    else if Covered(status.node) == "error" then
      Reported(
        ValueOf(Look(items, "errno", follow), NUMBER_SIZE),
        ValueOf(Look(items, "message", follow), MESSAGE_SIZE))
    else UnknownStatus
  }

  /** What httpfs_list_dir makes of a text that spells these values. */
  function Meaning(f: Forest, max: nat): Outcome
  {
    if CountF(f) > MAX_TOKENS then BadJson
    else if f.Done? || !IsObject(f.node) then BadFormat
    else Answered(f.node.items, f.rest, max)
  }

  // ---------------------------------------------------------------- the searches over tokens

  lemma BoxPassing(js: string, ts: seq<Token>, n: Node, pos: nat, i: nat, parent: int)
    requires Holds(js, ts, n, pos, i, parent) && n.Box? && Good(n)
    ensures Passing(js, ts, n.items, pos + 1, i + 1, i + 1, i, ts[i].end)
    ensures HoldsF(js, ts, n.items, pos + 1, i + 1, i, ts[i].end) && GoodF(n.items) && Count(n) == 1 + CountF(n.items)
  {
    GoesOn(js, ts, n.items, pos + 1, i + 1, i, ts[i].end);
  }

  /** find_object_value in a container, and what it finds there. */
  method Search(js: string, ts: seq<Token>, i: nat, key: string, ghost n: Node, ghost pos: nat, ghost parent: int,
                ghost follow: Forest)
    returns (r: Finding)
    requires Ordered(ts) && Holds(js, ts, n, pos, i, parent) && n.Box? && Good(n) && Comes(js, ts, i + Count(n), follow)
    ensures SameSight(js, ts, r, Look(n.items, key, follow))
  {
    BoxPassing(js, ts, n, pos, i, parent);
    r := FindObjectValue(js, ts, i, key, n.items, pos + 1);
    ProbeIsLook(js, ts, n.items, pos + 1, i + 1, i, ts[i].end, key, follow);
  }

  /** find_object_value and token_to_string */
  method ReadValue(js: string, ts: seq<Token>, i: nat, key: string, size: nat,
                   ghost n: Node, ghost pos: nat, ghost parent: int, ghost follow: Forest)
    returns (v: TextRead)
    requires Ordered(ts) && Holds(js, ts, n, pos, i, parent) && n.Box? && Good(n) && Comes(js, ts, i + Count(n), follow)
    ensures v == ValueOf(Look(n.items, key, follow), size)
  {
    var r := Search(js, ts, i, key, n, pos, parent, follow);
    if r.Stray? { return TextRead(None, true); }
    if r.Missing? { return TextRead(None, false); }
    StandsCovered(js, ts, Look(n.items, key, follow).node, r.index);
    var t := ts[r.index];
    if t.end - t.start + 1 > size { return TextRead(None, false); }
    return TextRead(Some(js[t.start..t.end]), false);
  }

  ghost predicate IsEntryOf(read: Reader)
  {
    forall items, follow {:trigger EntryOf(items, follow)} :: read(items, follow) == EntryOf(items, follow)
  }

  /** One entry of the listing. */
  method ReadEntry(js: string, ts: seq<Token>, i: nat, ghost n: Node, ghost pos: nat, ghost parent: int,
                   ghost follow: Forest, ghost read: Reader)
    returns (e: Read)
    requires IsEntryOf(read) && Ordered(ts) && Holds(js, ts, n, pos, i, parent) && n.Box? && Good(n)
             && Comes(js, ts, i + Count(n), follow)
    ensures e == read(n.items, follow)
  {
    assert read(n.items, follow) == EntryOf(n.items, follow);
    var name := ReadValue(js, ts, i, "name", NAME_SIZE, n, pos, parent, follow);
    var kind := ReadValue(js, ts, i, "type", KIND_SIZE, n, pos, parent, follow);
    if name.strayed || kind.strayed { return Read(None, true); }
    if name.text.None? || kind.text.None? { return Read(None, false); }
    return Read(Some(Entry(name.text.value, kind.text.value)), false);
  }

  // ---------------------------------------------------------------- the loop over the array

  /** What comes after the items left, and so after the array. */
  ghost predicate Walking(js: string, ts: seq<Token>, f: Forest, pos: nat, i: nat, next: nat, owner: nat, limit: int,
                          follow: Forest)
  {
    Passing(js, ts, f, pos, i, next, owner, limit) && Comes(js, ts, next + CountF(f), follow)
  }

  /** The token at an item says whether it is an object of the array. */
  lemma ItemToken(js: string, ts: seq<Token>, f: Forest, pos: nat, i: nat, owner: nat, limit: int)
    requires Passing(js, ts, f, pos, i, i, owner, limit) && f.Item?
    ensures i < |ts| && (ts[i].parent == owner && ts[i].kind == Object <==> IsObject(f.node))
  {
    AtItem(js, ts, f, pos, i, owner, limit);
  }

  /** An object is read: it stands here, and what comes after it is known. */
  lemma ItemRead(js: string, ts: seq<Token>, f: Forest, pos: nat, i: nat, owner: nat, limit: int, follow: Forest)
    requires Walking(js, ts, f, pos, i, i, owner, limit, follow) && f.Item?
    ensures Good(f.node) && Holds(js, ts, f.node, pos + |f.pad|, i, owner)
    ensures Comes(js, ts, i + Count(f.node), Following(f.rest, follow))
  {
    ItemHolds(js, ts, f, pos, i, owner, limit);
    RestComes(js, ts, f.rest, AfterItem(f, pos), i + Count(f.node), owner, limit, follow);
  }

  /** It is passed over as a whole. */
  lemma ItemSkipped(js: string, ts: seq<Token>, f: Forest, pos: nat, i: nat, owner: nat, limit: int, follow: Forest,
                    j: nat)
    requires Walking(js, ts, f, pos, i, i, owner, limit, follow) && f.Item? && IsNext(ts, i, j)
    ensures Walking(js, ts, f.rest, AfterItem(f, pos), j, j, owner, limit, follow)
  {
    AtItem(js, ts, f, pos, i, owner, limit);
    NextIsSibling(js, ts, f.node, pos + |f.pad|, i, owner, j);
  }

  /** Anything else is passed over, token by token. */
  lemma ItemPassed(js: string, ts: seq<Token>, f: Forest, pos: nat, i: nat, owner: nat, limit: int, follow: Forest)
    requires Walking(js, ts, f, pos, i, i, owner, limit, follow) && f.Item?
    ensures Walking(js, ts, f.rest, AfterItem(f, pos), i + 1, i + Count(f.node), owner, limit, follow)
  {
    AtItem(js, ts, f, pos, i, owner, limit);
  }

  /** An object of the array: its entry, and where the next item is. */
  method ReadObject(js: string, ts: seq<Token>, i: nat, ghost f: Forest, ghost pos: nat, ghost owner: nat,
                    ghost limit: int, ghost follow: Forest, ghost read: Reader)
    returns (e: Read, j: nat)
    requires IsEntryOf(read) && Ordered(ts) && Walking(js, ts, f, pos, i, i, owner, limit, follow) && f.Item?
             && IsObject(f.node)
    ensures i < j && e == read(f.node.items, Following(f.rest, follow))
    ensures Walking(js, ts, f.rest, AfterItem(f, pos), j, j, owner, limit, follow)
  {
    ItemRead(js, ts, f, pos, i, owner, limit, follow);
    e := ReadEntry(js, ts, i, f.node, pos + |f.pad|, owner, Following(f.rest, follow), read);
    j := NextTokenIndex(ts, i);
    ItemSkipped(js, ts, f, pos, i, owner, limit, follow, j);
  }

  /** The loop of httpfs_list_dir over the tokens of the array. */
  method WalkTokens(js: string, ts: seq<Token>, owner: nat, max: nat, ghost items: Forest, ghost pos: nat,
                    ghost follow: Forest, ghost read: Reader)
    returns (r: Outcome)
    requires IsEntryOf(read) && Ordered(ts) && owner < |ts|
             && Walking(js, ts, items, pos, owner + 1, owner + 1, owner, ts[owner].end, follow)
    ensures r == Walk(read, items, [], max, follow)
  {
    var limit := ts[owner].end;
    var i: nat := owner + 1;
    var entries := [];
    ghost var f, p: nat, next: nat := items, pos, i;
    ghost var goal := Walk(read, items, [], max, follow);
    PassingOn(js, ts, f, p, i, next, owner, limit);
    while i < |ts| && ts[i].start < limit
      invariant Walking(js, ts, f, p, i, next, owner, limit, follow)
      invariant Walk(read, f, entries, max, follow) == goal
      invariant i < |ts| && ts[i].start < limit <==> i < next || f.Item?
      decreases |ts| - i
    {
      PassingOn(js, ts, f, p, i, next, owner, limit);
      if i == next { ItemToken(js, ts, f, p, i, owner, limit); }
      if ts[i].parent != owner || ts[i].kind != Object {
        if i == next {
          ItemPassed(js, ts, f, p, i, owner, limit, follow);
          f, p, next := f.rest, AfterItem(f, p), i + Count(f.node);
        }
        i := i + 1;
      } else {
        if |entries| >= max { return TooMany; }
        var e, j := ReadObject(js, ts, i, f, p, owner, limit, follow, read);
        if e.strayed { return Strays; }
        if e.entry.None? { return BadEntry; }
        entries := entries + [e.entry.value];
        f, p, next, i := f.rest, AfterItem(f, p), j, j;
      }
      PassingOn(js, ts, f, p, i, next, owner, limit);
    }
    r := Listed(entries);
  }

  // ---------------------------------------------------------------- the whole client side

  /** The first value stands at the first token, and the others come after it. */
  lemma RootHolds(js: string, ts: seq<Token>, f: Forest)
    requires f.Item? && GoodF(f) && js == TextF(f) && ts == TokensF(f, 0, 0, -1)
    ensures Good(f.node) && Holds(js, ts, f.node, |f.pad|, 0, -1) && Comes(js, ts, Count(f.node), f.rest) && Ordered(ts)
  {
    assert ts[0..0 + |ts|] == ts;
    assert js[0..0 + |js|] == js;
    TokensLaidF(ts, f, 0, 0, -1);
    LaidHoldsF(js, ts, f, 0, 0, -1, |js| + 1);
    TokensOrderedF(f, 0, 0, -1);
    ItemHolds(js, ts, f, 0, 0, -1, |js| + 1);
    ForestComes(js, ts, f.rest, AfterItem(f, 0), Count(f.node), -1, |js| + 1);
  }

  lemma {:induction false} ForestComes(js: string, ts: seq<Token>, f: Forest, pos: nat, i: nat, owner: int, limit: int)
    requires HoldsF(js, ts, f, pos, i, owner, limit) && GoodF(f) && i + CountF(f) == |ts|
    ensures Comes(js, ts, i, f)
    decreases f
  {
    if f.Item? {
      ItemHolds(js, ts, f, pos, i, owner, limit);
      ForestComes(js, ts, f.rest, AfterItem(f, pos), i + Count(f.node), owner, limit);
    }
  }

  ghost predicate Spells(js: string, f: Forest) { GoodF(f) && TextF(f) == js }

  /** jsmn_parse as parse_response_tokens calls it: nothing, or the tokens of the values that the text spells. */
  method ParseTokens(js: string) returns (ts: Option<seq<Token>>, ghost f: Forest)
    ensures ts.Some? <==> Jsmn.Run(js, Jsmn.START, MAX_TOKENS).Parsed?
    ensures ts.Some? ==> Spells(js, f) && CountF(f) <= MAX_TOKENS && ts.value == TokensF(f, 0, 0, -1)
  {
    var tokens := new Token[MAX_TOKENS](_ => Token(Primitive, -1, -1, -1));
    var parser := new Jsmn.Tokenizer(tokens);
    var count := parser.Parse(js);
    f := Done("");
    if count < 0 { return None, f; }
    f := Jsmn.ParsedIsFlattening(js, MAX_TOKENS);
    ts := Some(tokens[..count]);
  }

  /** httpfs_list_dir on any text: an error, or what the values say that it spells. */
  method ListDir(js: string, max: nat) returns (r: Outcome)
    ensures Jsmn.Run(js, Jsmn.START, MAX_TOKENS).Failed? ==> r == BadJson
    ensures forall f :: Spells(js, f) ==> r == Meaning(f, max)
  {
    ghost var f;
    r, f := ListText(js, max);
    forall g | Spells(js, g)
      ensures r == Meaning(g, max)
    {
      Jsmn.DocumentParses(g, MAX_TOKENS);
      if CountF(g) <= MAX_TOKENS {
        Jsmn.TextsAreUnambiguous(f, g);
      }
    }
  }

  method ListText(js: string, max: nat) returns (r: Outcome, ghost f: Forest)
    ensures var o := Jsmn.Run(js, Jsmn.START, MAX_TOKENS);
      if o.Failed? then r == BadJson else Spells(js, f) && r == Meaning(f, max)
  {
    var parsed;
    parsed, f := ParseTokens(js);
    if parsed.None? { return BadJson, f; }
    var ts := parsed.value;
    if |ts| == 0 { return BadFormat, f; }
    RootHolds(js, ts, f);
    if ts[0].kind != Object { return BadFormat, f; }
    r := ListTokens(js, ts, max, f.node, |f.pad|, f.rest);
  }

  /** The first token is that of an object, and values follow it. */
  ghost predicate Rooted(js: string, ts: seq<Token>, root: Node, pos: nat, follow: Forest)
  {
    && Ordered(ts) && Good(root) && IsObject(root) && Holds(js, ts, root, pos, 0, -1)
    && Comes(js, ts, Count(root), follow)
  }

  /** parse_status_or_error, and the rest if the status is "ok" */
  method ListTokens(js: string, ts: seq<Token>, max: nat, ghost root: Node, ghost pos: nat, ghost follow: Forest)
    returns (r: Outcome)
    requires Rooted(js, ts, root, pos, follow)
    ensures r == Answered(root.items, follow, max)
  {
    var status := Search(js, ts, 0, "status", root, pos, -1, follow);
    if status.Stray? { return Strays; }
    if status.Missing? { return NoStatus; }
    StandsCovered(js, ts, Look(root.items, "status", follow).node, status.index);
    if TokenEquals(js, ts[status.index], "ok") {
      r := ListEntries(js, ts, max, root, pos, follow);
    } else if TokenEquals(js, ts[status.index], "error") {
      r := ReportError(js, ts, root, pos, follow);
    } else {
      r := UnknownStatus;
    }
  }

  method ReportError(js: string, ts: seq<Token>, ghost root: Node, ghost pos: nat, ghost follow: Forest)
    returns (r: Outcome)
    requires Rooted(js, ts, root, pos, follow)
    ensures r == Reported(
      ValueOf(Look(root.items, "errno", follow), NUMBER_SIZE),
      ValueOf(Look(root.items, "message", follow), MESSAGE_SIZE))
  {
    var errno := ReadValue(js, ts, 0, "errno", NUMBER_SIZE, root, pos, -1, follow);
    var message := ReadValue(js, ts, 0, "message", MESSAGE_SIZE, root, pos, -1, follow);
    if errno.strayed || message.strayed { return Strays; }
    var number, text := EIO, "Server returned an error";
    if errno.text.Some? { number := Strtoll(errno.text.value).0; }
    if message.text.Some? { text := message.text.value; }
    r := ServerError(number, text);
  }

  method ListEntries(js: string, ts: seq<Token>, max: nat, ghost root: Node, ghost pos: nat, ghost follow: Forest)
    returns (r: Outcome)
    requires Rooted(js, ts, root, pos, follow)
    ensures r == Entries(Look(root.items, "entries", follow), max)
  {
    var found := Search(js, ts, 0, "entries", root, pos, -1, follow);
    if found.Stray? { return Strays; }
    if found.Missing? { return NoEntries; }
    ghost var v := Look(root.items, "entries", follow);
    StandsCovered(js, ts, v.node, found.index);
    if ts[found.index].kind != Array { return NoEntries; }
    ghost var p: nat, parent: int :| Holds(js, ts, v.node, p, found.index, parent);
    BoxPassing(js, ts, v.node, p, found.index, parent);
    r := WalkTokens(js, ts, found.index, max, v.node.items, p + 1, v.after, EntryOf);
  }

  /**
    parse_ok_response always tells the tokenizer that there is room for MAX_TOKENS.  A caller's smaller array is not
    overrun exactly if the response, whatever text it is, needs no more tokens than the array has.
  */
  lemma CallerArraySuffices(js: string, size: nat)
    requires size < MAX_TOKENS
    ensures Jsmn.Stored(Jsmn.Run(js, Jsmn.START, MAX_TOKENS)) <= size <==> Jsmn.Needed(js) <= size
  {
    Jsmn.ArraySuffices(js, MAX_TOKENS, size);
  }

  /** If the response spells values, those are counted; and a row of opening brackets needs one token for each. */
  lemma CallerArrayInstances(f: Forest, n: nat, size: nat)
    requires GoodF(f) && size < MAX_TOKENS
    ensures Jsmn.Stored(Jsmn.Run(TextF(f), Jsmn.START, MAX_TOKENS)) <= size <==> CountF(f) <= size
    ensures Jsmn.Stored(Jsmn.Run(Jsmn.Brackets(n), Jsmn.START, MAX_TOKENS)) <= size <==> n <= size
  {
    CallerArraySuffices(TextF(f), size);
    Jsmn.DocumentNeeds(f);
    CallerArraySuffices(Jsmn.Brackets(n), size);
    Jsmn.BracketsNeed(n);
  }

  // ---------------------------------------------------------------- a lone key

  /** For the status "error" the client strays exactly if the object ends in a lone key and lacks one of its fields. */
  lemma ErrorStraysExactly(items: Forest, follow: Forest, max: nat)
    requires Look(items, "status", follow).Sees? && Covered(Look(items, "status", follow).node) == "error"
    ensures Answered(items, follow, max) == Strays
            <==> Lone(items) && follow.Done? && ("errno" !in Keys(items) || "message" !in Keys(items))
  {
    StraysExactly(items, "errno", follow);
    StraysExactly(items, "message", follow);
  }

  /** {"a"}: an object that ends in a key without a value. */
  const LONE: Forest := Item("", Box(true, Item("", Str("a"), Done(""))), Done(""))

  lemma LoneSpelled()
    ensures Spells("{\"a\"}", LONE) && CountF(LONE) == 2
  {
    StringSpelled("", "a", Done(""), "");
    assert "" + (Text(Str("a")) + "") == "\"a\"";
    ObjectSpelled(Item("", Str("a"), Done("")), "\"a\"");
  }

  /** Asked for another key, the search in it reads the token after the last one. */
  method LoneKeyStrays() returns (count: nat, r: Finding)
    ensures count == 2 && r == Stray
  {
    LoneSpelled();
    var js := "{\"a\"}";
    Jsmn.DocumentParses(LONE, MAX_TOKENS);
    var parsed;
    ghost var f;
    parsed, f := ParseTokens(js);
    Jsmn.TextsAreUnambiguous(f, LONE);
    var ts := parsed.value;
    count := |ts|;
    RootHolds(js, ts, f);
    ghost var root := f.node;
    r := Search(js, ts, 0, "b", root, 0, -1, Done(""));
    assert Look(root.items, "b", Done("")) == SeesBeyond;
  }

  /** {"a":"b","c"}: an object whose last member is a key without a value. */
  function Dangling(a: string, b: string, c: string): Forest
  {
    Item("", Box(true, Item("", Str(a), Item(":", Str(b), Item(",", Str(c), Done(""))))), Done(""))
  }

  function DanglingText(a: string, b: string, c: string): string
  {
    "{\"" + a + "\":\"" + b + "\",\"" + c + "\"}"
  }

  lemma {:induction false} PlainIsRaw(s: string, i: nat)
    requires i <= |s| && IsPlain(s)
    ensures IsRaw(s, i)
    decreases |s| - i
  {
    if i < |s| {
      PlainIsRaw(s, i + 1);
    }
  }

  predicate IsPlain(s: string) { forall k :: 0 <= k < |s| ==> s[k] != '"' && s[k] != '\\' }

  /** A plain string in front of values. */
  lemma StringSpelled(pad: string, raw: string, rest: Forest, t: string)
    requires AllSkipped(pad) && IsPlain(raw) && Spells(t, rest)
    ensures Spells(pad + (Text(Str(raw)) + t), Item(pad, Str(raw), rest))
    ensures CountF(Item(pad, Str(raw), rest)) == 1 + CountF(rest)
  {
    PlainIsRaw(raw, 0);
  }

  lemma DanglingSpelled(a: string, b: string, c: string)
    requires IsPlain(a) && IsPlain(b) && IsPlain(c)
    ensures Spells(DanglingText(a, b, c), Dangling(a, b, c)) && CountF(Dangling(a, b, c)) == 4
  {
    var h := Item(",", Str(c), Done(""));
    var g := Item(":", Str(b), h);
    StringSpelled(",", c, Done(""), "");
    StringSpelled(":", b, h, TextF(h));
    StringSpelled("", a, g, TextF(g));
    ObjectSpelled(Item("", Str(a), g), TextF(Item("", Str(a), g)));
    DanglingGlue(a, b, c);
  }

  lemma DanglingGlue(a: string, b: string, c: string)
    ensures var quote := "\"";
      "{" + ("" + ((quote + a + quote) + (":" + ((quote + b + quote) + ("," + ((quote + c + quote) + "")))))) + "}"
      == DanglingText(a, b, c)
  {
  }

  lemma ObjectSpelled(f: Forest, t: string)
    requires Spells(t, f)
    ensures Spells("{" + t + "}", Item("", Box(true, f), Done("")))
    ensures CountF(Item("", Box(true, f), Done(""))) == 1 + CountF(f)
  {
    assert "" + (("{" + t + "}") + "") == "{" + t + "}";
  }

  /**
    {"status":"error","x"}: an error whose last member is a key without a value, whatever the key.  Looking for the
    number and the text of the error, the client reads the token after the last one.
  */
  method LoneErrorStrays(x: string, max: nat) returns (r: Outcome)
    requires IsPlain(x)
    ensures r == Strays
  {
    var status, error := "status", "error";
    DanglingSpelled(status, error, x);
    r := ListDir(DanglingText(status, error, x), max);
    LoneErrorSeen(status, error, x, max);
  }

  lemma LoneErrorSeen(status: string, error: string, x: string, max: nat)
    requires status == "status" && error == "error" && IsPlain(x)
    ensures Meaning(Dangling(status, error, x), max) == Strays
  {
    DanglingSpelled(status, error, x);
    var h := Item(",", Str(x), Done(""));
    assert Look(h, "errno", Done("")).SeesBeyond? || Look(h, "message", Done("")).SeesBeyond?;
  }
}

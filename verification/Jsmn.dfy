/**
  The tokenizer third_party/jsmn.h: one pass over the text that appends tokens and closes containers in place.  It
  accepts exactly the texts that spell values, yields their flattening, and needs so many tokens for any text.
*/
module Jsmn {
  import opened Base
  import opened CText
  import opened JsonTree

  datatype Error = NoMemory | Invalid | Partial

  /** jsmn_parser, with the tokens allocated so far. */
  datatype Parser = Parser(pos: nat, toks: seq<Token>, super: int)

  datatype Step = Next(p: Parser) | Fail(error: Error)

  /** The tokens, or an error and the number of tokens stored before it. */
  datatype Outcome = Parsed(toks: seq<Token>) | Failed(error: Error, used: nat)

  /** The end of a string or primitive, or why there is none. */
  datatype Scan = Found(end: nat) | Bad(error: Error)

  predicate IsOpen(t: Token) { t.start != -1 && t.end == -1 }

  /** The last token that is still open, or -1. */
  function LastOpen(ts: seq<Token>): (i: int)
    ensures -1 <= i < |ts| && (i >= 0 ==> IsOpen(ts[i]))
  {
    if ts == [] then -1
    else if IsOpen(ts[|ts| - 1]) then |ts| - 1
    else LastOpen(ts[..|ts| - 1])
  }

  lemma {:induction false} LastOpenIsLast(ts: seq<Token>)
    ensures forall k :: LastOpen(ts) < k < |ts| ==> !IsOpen(ts[k])
  {
    if ts != [] && !IsOpen(ts[|ts| - 1]) {
      LastOpenIsLast(ts[..|ts| - 1]);
      assert forall k :: 0 <= k < |ts| - 1 ==> ts[..|ts| - 1][k] == ts[k];
    }
  }

  /** Where a string ends, scanning from `i`: the position of its closing quote. */
  function StringEnd(js: string, i: nat): (r: Scan)
    ensures r.Found? ==> i <= r.end < |js|
    decreases |js| - i
  {
    if i >= |js| then Bad(Partial)
    else if js[i] == '"' then Found(i)
    else if js[i] == '\\' && i + 1 < |js| then
      if IsSimpleEscape(js[i + 1]) then StringEnd(js, i + 2)
      else if js[i + 1] == 'u' then StringEnd(js, i + 6)
      else Bad(Invalid)
    else StringEnd(js, i + 1)
  }

  /** Where a primitive ends. */
  function PrimitiveEnd(js: string, i: nat): (r: Scan)
    requires i <= |js|
    ensures r.Found? ==> i <= r.end <= |js|
    decreases |js| - i
  {
    if i == |js| || EndsPrimitive(js[i]) then Found(i)
    else if js[i] < ' ' || js[i] >= '\U{007f}' then Bad(Invalid)
    else PrimitiveEnd(js, i + 1)
  }

  /** jsmn_alloc_token and jsmn_fill_token: a finished token, with the scan going on at `next`. */
  function Alloc(p: Parser, cap: nat, t: Token, next: nat): Step
  {
    if |p.toks| >= cap then Fail(NoMemory) else Next(Parser(next, p.toks + [t], p.super))
  }

  function Open(p: Parser, cap: nat, kind: Kind): Step
  {
    if |p.toks| >= cap then Fail(NoMemory)
    else Next(Parser(p.pos + 1, p.toks + [Token(kind, p.pos, -1, p.super)], |p.toks|))
  }

  function Close(p: Parser, kind: Kind): Step
  {
    var i := LastOpen(p.toks);
    if i < 0 || p.toks[i].kind != kind then Fail(Invalid)
    else Next(Parser(p.pos + 1, p.toks[i := p.toks[i].(end := p.pos + 1)], p.toks[i].parent))
  }

  /** One turn of the loop of jsmn_parse. */
  function Turn(js: string, p: Parser, cap: nat): (s: Step)
    requires p.pos < |js|
    ensures s.Next? ==> p.pos < s.p.pos <= |js|
  {
    var c := js[p.pos];
    if c == '{' then Open(p, cap, Object)
    else if c == '[' then Open(p, cap, Array)
    else if c == '}' then Close(p, Object)
    else if c == ']' then Close(p, Array)
    else if c == '"' then
      var end := StringEnd(js, p.pos + 1);
      if end.Bad? then Fail(end.error) else Alloc(p, cap, Token(String, p.pos + 1, end.end, p.super), end.end + 1)
    else if IsSkipped(c) then Next(p.(pos := p.pos + 1))
    else
      var end := PrimitiveEnd(js, p.pos);
      if end.Bad? then Fail(end.error) else Alloc(p, cap, Token(Primitive, p.pos, end.end, p.super), end.end)
  }

  /** jsmn_parse from some state on, with room for `cap` tokens */
  function Run(js: string, p: Parser, cap: nat): Outcome
    decreases |js| - p.pos
  {
    if p.pos >= |js| then (if LastOpen(p.toks) >= 0 then Failed(Partial, |p.toks|) else Parsed(p.toks))
    else
      var s := Turn(js, p, cap);
      if s.Fail? then Failed(s.error, |p.toks|) else Run(js, s.p, cap)
  }

  // ---------------------------------------------------------------- scanning

  lemma RawChar(js: string, raw: string, at: nat, k: nat)
    requires At(js, raw + "\"", at) && k <= |raw|
    ensures at + k < |js| && js[at + k] == if k < |raw| then raw[k] else '"'
  {
    var s := raw + "\"";
    assert js[at + k] == js[at..at + |s|][k];
  }

  /** A string's text is scanned up to its closing quote. */
  lemma {:induction false} StringScanned(js: string, raw: string, at: nat, k: nat)
    requires At(js, raw + "\"", at) && k <= |raw| && IsRaw(raw, k)
    ensures StringEnd(js, at + k) == Found(at + |raw|)
    decreases |raw| - k
  {
    RawChar(js, raw, at, k);
    if k < |raw| {
      RawChar(js, raw, at, k + 1);
      StringScanned(js, raw, at, k + Unit(raw, k));
    }
  }

  /** A primitive is scanned up to what ends it. */
  lemma {:induction false} PrimitiveScanned(js: string, at: nat, end: nat)
    requires at <= end <= |js| && (end < |js| ==> EndsPrimitive(js[end]))
    requires forall k :: at <= k < end ==> InPrimitive(js[k])
    ensures PrimitiveEnd(js, at) == Found(end)
    decreases end - at
  {
    if at < end {
      PrimitiveScanned(js, at + 1, end);
    }
  }

  lemma AtIndex(js: string, s: string, pos: nat, k: nat)
    requires At(js, s, pos) && k < |s|
    ensures pos + k < |js| && js[pos + k] == s[k]
  {
    assert js[pos + k] == js[pos..pos + |s|][k];
  }

  /** A primitive at the end of its text, or before something that ends it. */
  predicate Ended(js: string, end: nat) { end >= |js| || EndsPrimitive(js[end]) }

  lemma StringSpan(js: string, raw: string, pos: nat)
    requires IsRaw(raw, 0) && At(js, Text(Str(raw)), pos)
    ensures StringEnd(js, pos + 1) == Found(pos + 1 + |raw|) && At(js, raw, pos + 1)
  {
    assert Text(Str(raw)) == "\"" + (raw + "\"");
    AtSplits(js, "\"", raw + "\"", pos);
    AtSplits(js, raw, "\"", pos + 1);
    StringScanned(js, raw, pos + 1, 0);
  }

  lemma PrimitiveSpan(js: string, text: string, pos: nat)
    requires IsPrimitive(text) && At(js, text, pos) && Ended(js, pos + |text|)
    ensures pos + |text| <= |js| && PrimitiveEnd(js, pos) == Found(pos + |text|)
  {
    forall k | pos <= k < pos + |text|
      ensures js[k] == text[k - pos]
    {
      AtIndex(js, text, pos, k - pos);
    }
    PrimitiveScanned(js, pos, pos + |text|);
  }

  // ---------------------------------------------------------------- open tokens

  predicate AllClosed(ts: seq<Token>) { forall k :: 0 <= k < |ts| ==> ts[k].end >= 0 }

  lemma {:induction false} TokensClosed(n: Node, pos: nat, index: nat, parent: int)
    ensures AllClosed(Tokens(n, pos, index, parent))
    decreases n
  {
    if n.Box? {
      TokensClosedF(n.items, pos + 1, index + 1, index);
    }
  }

  lemma {:induction false} TokensClosedF(f: Forest, pos: nat, index: nat, parent: int)
    ensures AllClosed(TokensF(f, pos, index, parent))
    decreases f
  {
    if f.Item? {
      TokensClosed(f.node, pos + |f.pad|, index, parent);
      TokensClosedF(f.rest, pos + |f.pad| + |Text(f.node)|, index + Count(f.node), parent);
    }
  }

  /** Closed tokens do not change which one is the last open one. */
  lemma OpenStays(ts: seq<Token>, closed: seq<Token>)
    requires AllClosed(closed)
    ensures LastOpen(ts + closed) == LastOpen(ts)
  {
    var all, i, j := ts + closed, LastOpen(ts + closed), LastOpen(ts);
    LastOpenIsLast(ts);
    LastOpenIsLast(all);
    assert forall k :: |ts| <= k < |all| ==> all[k] == closed[k - |ts|];
    assert j >= 0 ==> IsOpen(all[j]);
    assert i >= 0 ==> IsOpen(ts[i]);
  }

  // ---------------------------------------------------------------- documents

  /** The parser after a node: its tokens appended, everything else as before. */
  function After(p: Parser, n: Node): Parser
  {
    Parser(p.pos + |Text(n)|, p.toks + Tokens(n, p.pos, |p.toks|, p.super), p.super)
  }

  function AfterF(p: Parser, f: Forest): Parser
  {
    Parser(p.pos + |TextF(f)|, p.toks + TokensF(f, p.pos, |p.toks|, p.super), p.super)
  }

  /** The outcome of a parse, as a function of where it stands. */
  type Runner = Parser -> Outcome

  ghost predicate IsRun(run: Runner, js: string, cap: nat)
  {
    forall p {:trigger Run(js, p, cap)} :: run(p) == Run(js, p, cap)
  }

  /** Parsing a part of the text leads to `q`, or runs out of tokens. */
  ghost predicate Leads(run: Runner, p: Parser, q: Parser, cap: nat, count: nat)
  {
    run(p) == if |p.toks| + count <= cap then run(q) else Failed(NoMemory, cap)
  }

  lemma {:induction false} PadSkipped(js: string, pad: string, p: Parser, cap: nat)
    requires At(js, pad, p.pos) && AllSkipped(pad)
    ensures Run(js, p, cap) == Run(js, p.(pos := p.pos + |pad|), cap)
    decreases |pad|
  {
    if pad != "" {
      assert pad == [pad[0]] + pad[1..];
      AtSplits(js, [pad[0]], pad[1..], p.pos);
      AtHead(js, pad, p.pos);
      PadSkipped(js, pad[1..], p.(pos := p.pos + 1), cap);
    }
  }

  lemma AllocLeads(run: Runner, js: string, p: Parser, cap: nat, t: Token, next: nat)
    requires IsRun(run, js, cap) && p.pos < |js| && |p.toks| <= cap && Turn(js, p, cap) == Alloc(p, cap, t, next)
    ensures Leads(run, p, Parser(next, p.toks + [t], p.super), cap, 1)
  {
    var q := Parser(next, p.toks + [t], p.super);
    assert run(p) == Run(js, p, cap) && run(q) == Run(js, q, cap);
  }

  lemma LeafAfter(p: Parser, n: Node)
    requires !n.Box?
    ensures After(p, n) == Parser(p.pos + |Text(n)|, p.toks + [Head(n, p.pos, p.super)], p.super)
  {
    assert Tokens(n, p.pos, |p.toks|, p.super) == [Head(n, p.pos, p.super)];
  }

  lemma StringRuns(run: Runner, js: string, raw: string, p: Parser, cap: nat)
    requires IsRun(run, js, cap) && IsRaw(raw, 0) && At(js, Text(Str(raw)), p.pos) && |p.toks| <= cap
    ensures Leads(run, p, After(p, Str(raw)), cap, 1)
  {
    AtHead(js, Text(Str(raw)), p.pos);
    StringSpan(js, raw, p.pos);
    LeafAfter(p, Str(raw));
    AllocLeads(run, js, p, cap, Head(Str(raw), p.pos, p.super), p.pos + |raw| + 2);
  }

  lemma PrimitiveRuns(run: Runner, js: string, text: string, p: Parser, cap: nat)
    requires IsRun(run, js, cap) && IsPrimitive(text) && At(js, text, p.pos) && |p.toks| <= cap
    requires Ended(js, p.pos + |text|)
    ensures Leads(run, p, After(p, Prim(text)), cap, 1)
  {
    PrimitiveSpan(js, text, p.pos);
    AtHead(js, text, p.pos);
    LeafAfter(p, Prim(text));
    AllocLeads(run, js, p, cap, Head(Prim(text), p.pos, p.super), p.pos + |text|);
  }

  // ---------------------------------------------------------------- containers

  function KindOf(isObject: bool): Kind { if isObject then Object else Array }

  /** The parser just inside a container. */
  function Opened(p: Parser, n: Node): Parser
    requires n.Box?
  {
    Parser(p.pos + 1, p.toks + [Token(KindOf(n.isObject), p.pos, -1, p.super)], |p.toks|)
  }

  lemma OpenRuns(run: Runner, js: string, n: Node, p: Parser, cap: nat)
    requires IsRun(run, js, cap) && n.Box? && |p.toks| <= cap && p.pos < |js|
             && js[p.pos] == (if n.isObject then '{' else '[')
    ensures Leads(run, p, Opened(p, n), cap, 1)
  {
    assert run(p) == Run(js, p, cap) && run(Opened(p, n)) == Run(js, Opened(p, n), cap);
  }

  /** The parser just before and just after a container's closing bracket. */
  ghost predicate Closing(n: Node, p: Parser, q: Parser, r: Parser, inner: seq<Token>)
    requires n.Box?
  {
    && AllClosed(inner) && q.toks == Opened(p, n).toks + inner
    && r == Parser(q.pos + 1, p.toks + [Token(KindOf(n.isObject), p.pos, q.pos + 1, p.super)] + inner, p.super)
  }

  /** Closing: the container is the last open token, and gets its end. */
  lemma CloseRuns(run: Runner, js: string, n: Node, p: Parser, q: Parser, r: Parser, cap: nat, inner: seq<Token>)
    requires IsRun(run, js, cap) && n.Box? && q.pos < |js| && js[q.pos] == (if n.isObject then '}' else ']')
    requires Closing(n, p, q, r, inner)
    ensures run(q) == run(r)
  {
    OpenStays(Opened(p, n).toks, inner);
    ClosedToken(n, p, q, r, inner);
    assert run(q) == Run(js, q, cap) && run(r) == Run(js, r, cap);
  }

  lemma ClosedToken(n: Node, p: Parser, q: Parser, r: Parser, inner: seq<Token>)
    requires n.Box? && Closing(n, p, q, r, inner) && LastOpen(q.toks) == LastOpen(Opened(p, n).toks)
    ensures Close(q, KindOf(n.isObject)) == Next(r)
  {
    var i := |p.toks|;
    assert LastOpen(q.toks) == i && q.toks[i] == Token(KindOf(n.isObject), p.pos, -1, p.super);
    assert q.toks[i := q.toks[i].(end := q.pos + 1)] == r.toks;
  }

  lemma BoxEnds(js: string, n: Node, pos: nat)
    requires n.Box? && At(js, Text(n), pos)
    ensures var end := pos + 1 + |TextF(n.items)|;
      && end < |js| && js[pos] == (if n.isObject then '{' else '[') && js[end] == (if n.isObject then '}' else ']')
  {
    var t := Text(n);
    BoxText(js, n, pos);
    assert js[pos] == js[pos..pos + |t|][0];
    assert js[pos + |t| - 1] == js[pos..pos + |t|][|t| - 1];
  }

  /** One part of the text after another. */
  lemma LeadsOn(run: Runner, p: Parser, mid: Parser, q: Parser, cap: nat, c: nat, d: nat)
    requires Leads(run, p, mid, cap, c) && |mid.toks| == |p.toks| + c
    requires |mid.toks| <= cap ==> Leads(run, mid, q, cap, d)
    ensures Leads(run, p, q, cap, c + d)
  {
  }

  /** The end of a container, its items being parsed. */
  lemma BoxCloses(run: Runner, js: string, n: Node, p: Parser, mid: Parser, cap: nat)
    requires IsRun(run, js, cap) && n.Box? && At(js, Text(n), p.pos) && mid == AfterF(Opened(p, n), n.items)
    ensures run(mid) == run(After(p, n))
  {
    BoxEnds(js, n, p.pos);
    var inner := TokensF(n.items, p.pos + 1, |p.toks| + 1, |p.toks|);
    BoxClosing(p, n, mid, After(p, n), inner);
    CloseRuns(run, js, n, p, mid, After(p, n), cap, inner);
  }

  lemma BoxClosing(p: Parser, n: Node, mid: Parser, after: Parser, inner: seq<Token>)
    requires n.Box? && mid == AfterF(Opened(p, n), n.items) && after == After(p, n)
    requires inner == TokensF(n.items, p.pos + 1, |p.toks| + 1, |p.toks|)
    ensures Closing(n, p, mid, after, inner)
  {
    TokensClosedF(n.items, p.pos + 1, |p.toks| + 1, |p.toks|);
    BoxAfter(p, n, inner);
    BoxLength(n);
  }

  /** A container, given that its items are parsed. */
  lemma BoxRuns(run: Runner, js: string, n: Node, p: Parser, open: Parser, mid: Parser, cap: nat)
    requires IsRun(run, js, cap) && n.Box? && |p.toks| <= cap && At(js, Text(n), p.pos)
    requires open == Opened(p, n) && mid == AfterF(open, n.items)
    requires |p.toks| < cap ==> Leads(run, open, mid, cap, CountF(n.items))
    ensures Leads(run, p, After(p, n), cap, 1 + CountF(n.items))
  {
    BoxEnds(js, n, p.pos);
    OpenRuns(run, js, n, p, cap);
    LeadsOn(run, p, open, mid, cap, 1, CountF(n.items));
    BoxCloses(run, js, n, p, mid, cap);
  }

  lemma BoxAfter(p: Parser, n: Node, inner: seq<Token>)
    requires n.Box? && inner == TokensF(n.items, p.pos + 1, |p.toks| + 1, |p.toks|)
    ensures After(p, n) == Parser(p.pos + |Text(n)|, p.toks + [Head(n, p.pos, p.super)] + inner, p.super)
  {
  }

  lemma PadText(js: string, f: Forest, pos: nat)
    requires At(js, TextF(f), pos)
    ensures At(js, f.pad, pos)
  {
    if f.Item? {
      AtSplits(js, f.pad, Text(f.node) + TextF(f.rest), pos);
    }
  }

  lemma AfterItem(p: Parser, f: Forest, p1: Parser)
    requires f.Item? && p1 == p.(pos := p.pos + |f.pad|)
    ensures AfterF(p, f) == AfterF(After(p1, f.node), f.rest)
  {
    var a := Tokens(f.node, p1.pos, |p.toks|, p.super);
    var b := TokensF(f.rest, p1.pos + |Text(f.node)|, |p.toks| + |a|, p.super);
    assert p.toks + (a + b) == p.toks + a + b;
  }

  /** Every node is parsed to its flattening, wherever it stands. */
  lemma {:induction false} NodeRuns(run: Runner, js: string, n: Node, p: Parser, cap: nat)
    requires IsRun(run, js, cap) && Good(n) && At(js, Text(n), p.pos) && (n.Prim? ==> Ended(js, p.pos + |Text(n)|))
    requires |p.toks| <= cap
    ensures Leads(run, p, After(p, n), cap, Count(n))
    decreases n
  {
    match n
    case Str(raw) => StringRuns(run, js, raw, p, cap);
    case Prim(text) => PrimitiveRuns(run, js, text, p, cap);
    case Box(_, items) =>
      BoxText(js, n, p.pos);
      BoxEnds(js, n, p.pos);
      if |p.toks| < cap {
        ForestRuns(run, js, items, Opened(p, n), cap);
      }
      BoxRuns(run, js, n, p, Opened(p, n), AfterF(Opened(p, n), items), cap);
  }

  /** The items of a container stand at `pos`, followed by what ends a primitive. */
  ghost predicate Ready(js: string, f: Forest, pos: nat)
  {
    GoodF(f) && At(js, TextF(f), pos) && Ended(js, pos + |TextF(f)|)
  }

  lemma {:induction false} ForestRuns(run: Runner, js: string, f: Forest, p: Parser, cap: nat)
    requires IsRun(run, js, cap) && Ready(js, f, p.pos) && |p.toks| <= cap
    ensures Leads(run, p, AfterF(p, f), cap, CountF(f))
    decreases f
  {
    var p1 := p.(pos := p.pos + |f.pad|);
    PadRuns(run, js, f, p, p1, cap);
    if f.Done? {
      DoneAfter(p, f, p1);
    } else {
      ItemReady(js, f, p.pos);
      NodeRuns(run, js, f.node, p1, cap);
      var p2 := After(p1, f.node);
      if |p2.toks| <= cap {
        ForestRuns(run, js, f.rest, p2, cap);
      }
      ItemLeads(run, f, p, p1, p2, cap);
    }
  }

  /** The first item and the rest, given that each is parsed. */
  lemma ItemLeads(run: Runner, f: Forest, p: Parser, p1: Parser, p2: Parser, cap: nat)
    requires f.Item? && p1 == p.(pos := p.pos + |f.pad|) && p2 == After(p1, f.node)
    requires run(p) == run(p1) && Leads(run, p1, p2, cap, Count(f.node))
    requires |p2.toks| <= cap ==> Leads(run, p2, AfterF(p2, f.rest), cap, CountF(f.rest))
    ensures Leads(run, p, AfterF(p, f), cap, CountF(f))
  {
    AfterItem(p, f, p1);
    LeadsOn(run, p1, p2, AfterF(p2, f.rest), cap, Count(f.node), CountF(f.rest));
  }

  lemma PadRuns(run: Runner, js: string, f: Forest, p: Parser, p1: Parser, cap: nat)
    requires IsRun(run, js, cap) && GoodF(f) && At(js, TextF(f), p.pos) && p1 == p.(pos := p.pos + |f.pad|)
    ensures run(p) == run(p1)
  {
    PadText(js, f, p.pos);
    SkipRuns(run, js, f.pad, p, p1, cap);
  }

  lemma DoneAfter(p: Parser, f: Forest, p1: Parser)
    requires f.Done? && p1 == p.(pos := p.pos + |f.pad|)
    ensures AfterF(p, f) == p1 && CountF(f) == 0
  {
  }

  lemma ItemReady(js: string, f: Forest, pos: nat)
    requires f.Item? && Ready(js, f, pos)
    ensures var at := pos + |f.pad|;
      && Good(f.node) && At(js, Text(f.node), at) && (f.node.Prim? ==> Ended(js, at + |Text(f.node)|))
      && Ready(js, f.rest, at + |Text(f.node)|)
  {
    ItemTexts(js, f, pos);
    PrimitiveEnded(js, f, pos);
  }

  /** What follows a primitive in a good forest ends it. */
  lemma PrimitiveEnded(js: string, f: Forest, pos: nat)
    requires GoodF(f) && f.Item? && At(js, TextF(f), pos) && Ended(js, pos + |TextF(f)|)
    ensures f.node.Prim? ==> Ended(js, pos + |f.pad| + |Text(f.node)|)
  {
    ItemTexts(js, f, pos);
    var next := pos + |f.pad| + |Text(f.node)|;
    if f.node.Prim? && f.rest.pad != "" {
      PadText(js, f.rest, next);
      AtHead(js, f.rest.pad, next);
    }
  }

  /** jsmn_init */
  const START: Parser := Parser(0, [], -1)

  /**
    The tokenizer is right: a text that is a forest of values, one or several, gives exactly its flattened tokens, or,
    if they do not fit the array, fills it and gives the out-of-memory error.
  */
  lemma DocumentParses(f: Forest, cap: nat)
    requires GoodF(f)
    ensures Run(TextF(f), START, cap) ==
            if CountF(f) <= cap then Parsed(TokensF(f, 0, 0, -1)) else Failed(NoMemory, cap)
  {
    var js := TextF(f);
    var run := (q: Parser) => Run(js, q, cap);
    DocumentLeads(run, js, f, START, cap);
  }

  lemma DocumentLeads(run: Runner, js: string, f: Forest, start: Parser, cap: nat)
    requires IsRun(run, js, cap) && GoodF(f) && js == TextF(f)
    requires start.pos == 0 && start.toks == [] && start.super == -1
    ensures run(start) == if CountF(f) <= cap then Parsed(TokensF(f, 0, 0, -1)) else Failed(NoMemory, cap)
  {
    assert js[0..|js|] == js;
    ForestRuns(run, js, f, start, cap);
    var q := AfterF(start, f);
    assert q.toks == TokensF(f, 0, 0, -1);
    TokensClosedF(f, 0, 0, -1);
    EndRuns(run, js, q, cap);
  }

  /** At the end of the text, with every container closed, the tokens are the result. */
  lemma EndRuns(run: Runner, js: string, q: Parser, cap: nat)
    requires IsRun(run, js, cap) && q.pos == |js| && AllClosed(q.toks)
    ensures run(q) == Parsed(q.toks)
  {
    assert LastOpen(q.toks) < 0;
    assert run(q) == Run(js, q, cap);
  }

  lemma SkipRuns(run: Runner, js: string, pad: string, p: Parser, p1: Parser, cap: nat)
    requires IsRun(run, js, cap) && At(js, pad, p.pos) && AllSkipped(pad) && p1 == p.(pos := p.pos + |pad|)
    ensures run(p) == run(p1)
  {
    PadSkipped(js, pad, p, cap);
    assert run(p) == Run(js, p, cap) && run(p1) == Run(js, p1, cap);
  }

  /** What the only turn on a single character does. */
  lemma OneTurn(c: char)
    ensures Turn([c], START, 1) ==
            if c as int in {9, 10, 13, 32} || c == ':' || c == ',' then Next(Parser(1, [], -1))
            else if c == '{' || c == '[' then Next(Parser(1, [Token(KindOf(c == '{'), 0, -1, -1)], 0))
            else if c == '"' then Fail(Partial)
            else if 32 < c as int < 127 && c != '}' && c != ']' then Next(Parser(1, [Token(Primitive, 0, 1, -1)], -1))
            else Fail(Invalid)
  {
    if StartsPrimitive(c) {
      assert PrimitiveEnd([c], 1) == Found(1);
    }
  }

  /** A text that is one token, or wrong from its first, by what the first turn finds. */
  lemma FirstTurn(js: string, s: Step)
    requires js != "" && s == Turn(js, START, 1) && (s.Next? ==> s.p.pos == |js|)
    ensures Run(js, START, 1) ==
            if s.Fail? then Failed(s.error, 0)
            else if LastOpen(s.p.toks) >= 0 then Failed(Partial, |s.p.toks|)
            else Parsed(s.p.toks)
  {
  }

  /** Every character alone: white space, colon and comma are skipped, brackets and quotes leave something open. */
  lemma OneCharacter(c: char)
    ensures Run([c], START, 1) ==
            if c as int in {9, 10, 13, 32} || c == ':' || c == ',' then Parsed([])
            else if c == '{' || c == '[' then Failed(Partial, 1)
            else if c == '}' || c == ']' then Failed(Invalid, 0)
            else if c == '"' then Failed(Partial, 0)
            else if 32 < c as int < 127 then Parsed([Token(Primitive, 0, 1, -1)])
            else Failed(Invalid, 0)
  {
    OneTurn(c);
    FirstTurn([c], Turn([c], START, 1));
  }

  // ---------------------------------------------------------------- inside a string and after a primitive

  /** Any character stands for itself inside a string, control characters included; quotes and backslashes do not. */
  lemma OneInString(c: char)
    ensures Run(['"', c, '"'], START, 1) ==
            if c == '"' then Failed(Partial, 1)
            else if c == '\\' then Failed(Partial, 0)
            else Parsed([Token(String, 1, 2, -1)])
  {
    var js := ['"', c, '"'];
    if c == '"' {
      assert StringEnd(js, 1) == Found(1);
      var p := Parser(2, [Token(String, 1, 1, -1)], -1);
      assert Turn(js, START, 1) == Next(p);
      assert StringEnd(js, 3) == Bad(Partial);
      assert Turn(js, p, 1) == Fail(Partial);
    } else if c == '\\' {
      assert StringEnd(js, 3) == Bad(Partial);
      FirstTurn(js, Turn(js, START, 1));
    } else {
      assert StringEnd(js, 2) == Found(2);
      FirstTurn(js, Turn(js, START, 1));
    }
  }

  /** After a backslash eight characters make an escape; any other, but for the u, is an error. */
  lemma OneEscape(c: char)
    ensures Run(['"', '\\', c, '"'], START, 1) ==
            if c in {'"', '\\', '/', 'b', 'f', 'n', 'r', 't'} then Parsed([Token(String, 1, 3, -1)])
            else if c == 'u' then Failed(Partial, 0)
            else Failed(Invalid, 0)
  {
    var js := ['"', '\\', c, '"'];
    assert StringEnd(js, 3) == Found(3) && StringEnd(js, 7) == Bad(Partial);
    FirstTurn(js, Turn(js, START, 1));
  }

  /** And the u takes any four characters with it, hexadecimal digits or not. */
  lemma AnyFour(h: string)
    requires |h| == 4
    ensures Run("\"\\u" + h + "\"", START, 1) == Parsed([Token(String, 1, 7, -1)])
  {
    var js := "\"\\u" + h + "\"";
    assert StringEnd(js, 7) == Found(7);
    FirstTurn(js, Turn(js, START, 1));
  }

  /** What a character after a primitive does to it: a colon, a quote or an opening bracket is part of it. */
  lemma OneAfterPrimitive(c: char)
    ensures PrimitiveEnd(['0', c], 0) ==
            if c as int in {9, 10, 13, 32} || c in {',', ']', '}'} then Found(1)
            else if 32 < c as int < 127 then Found(2)
            else Bad(Invalid)
  {
    assert PrimitiveEnd(['0', c], 2) == Found(2);
  }

  // ---------------------------------------------------------------- only such texts are parsed

  /** The end of the text, or a closing bracket. */
  predicate Stops(js: string, e: nat) { e == |js| || (e < |js| && (js[e] == '}' || js[e] == ']')) }

  /** The text from `pos` up to where it stops is the forest `f`. */
  ghost predicate Stands(js: string, f: Forest, pos: nat)
  {
    GoodF(f) && At(js, TextF(f), pos) && Stops(js, pos + |TextF(f)|)
  }

  /** And parsing it is what the parser does. */
  ghost predicate Reads(run: Runner, js: string, p: Parser, f: Forest)
  {
    Stands(js, f, p.pos) && run(p) == run(AfterF(p, f))
  }

  lemma ReadsNothing(run: Runner, js: string, p: Parser)
    requires p.pos <= |js| && Stops(js, p.pos)
    ensures Reads(run, js, p, Done(""))
  {
    assert js[p.pos..p.pos + 0] == "";
    assert AfterF(p, Done("")) == p;
  }

  /** One more character of skipped text in front. */
  lemma ReadsPad(run: Runner, js: string, p: Parser, q: Parser, g: Forest, f: Forest)
    requires p.pos < |js| && IsSkipped(js[p.pos]) && q == p.(pos := p.pos + 1) && run(p) == run(q)
    requires Reads(run, js, q, g) && f == g.(pad := [js[p.pos]] + g.pad)
    ensures Reads(run, js, p, f)
  {
    PadStands(js, g, f, p.pos);
    PadAfter(p, q, g, f, js[p.pos]);
  }

  lemma PadStands(js: string, g: Forest, f: Forest, pos: nat)
    requires pos < |js| && IsSkipped(js[pos]) && Stands(js, g, pos + 1) && f == g.(pad := [js[pos]] + g.pad)
    ensures Stands(js, f, pos)
  {
    PaddedText(g, f, js[pos]);
    PaddedGood(g, f, js[pos]);
    AtJoins(js, [js[pos]], TextF(g), TextF(f), pos);
  }

  lemma AtJoins(js: string, a: string, b: string, ab: string, pos: nat)
    requires At(js, a, pos) && At(js, b, pos + |a|) && ab == a + b
    ensures At(js, ab, pos) && |ab| == |a| + |b|
  {
    AtSplits(js, a, b, pos);
  }

  lemma PadAfter(p: Parser, q: Parser, g: Forest, f: Forest, c: char)
    requires q == p.(pos := p.pos + 1) && f == g.(pad := [c] + g.pad)
    ensures AfterF(p, f) == AfterF(q, g)
  {
    PaddedText(g, f, c);
    PaddedTokens(g, f, c, p.pos, |p.toks|, p.super);
  }

  lemma PaddedText(g: Forest, f: Forest, c: char)
    requires f == g.(pad := [c] + g.pad)
    ensures TextF(f) == [c] + TextF(g)
  {
    if g.Item? {
      InFront([c], g.pad, Text(g.node) + TextF(g.rest));
    }
  }

  lemma InFront(a: string, b: string, c: string)
    ensures (a + b) + c == a + (b + c)
  {
  }

  lemma PaddedGood(g: Forest, f: Forest, c: char)
    requires f == g.(pad := [c] + g.pad) && GoodF(g) && IsSkipped(c)
    ensures GoodF(f)
  {
  }

  lemma PaddedTokens(g: Forest, f: Forest, c: char, pos: nat, i: nat, parent: int)
    requires f == g.(pad := [c] + g.pad)
    ensures TokensF(f, pos, i, parent) == TokensF(g, pos + 1, i, parent)
  {
  }

  /** A node, and what may come after it. */
  ghost predicate Leading(js: string, n: Node, g: Forest, pos: nat)
  {
    && Good(n) && At(js, Text(n), pos) && Stands(js, g, pos + |Text(n)|)
    && (n.Prim? ==> if g.pad == "" then g.Done? else EndsPrimitive(g.pad[0]))
  }

  /** One more node in front. */
  lemma ReadsNode(run: Runner, js: string, p: Parser, n: Node, q: Parser, g: Forest, f: Forest)
    requires Leading(js, n, g, p.pos) && q == After(p, n) && f == Item("", n, g)
    requires run(p) == run(q) && run(q) == run(AfterF(q, g))
    ensures Reads(run, js, p, f)
  {
    NodeStands(js, n, g, f, p.pos);
    AfterItem(p, f, p);
  }

  lemma NodeStands(js: string, n: Node, g: Forest, f: Forest, pos: nat)
    requires Leading(js, n, g, pos) && f == Item("", n, g)
    ensures Stands(js, f, pos)
  {
    NodeText(n, g);
    AtJoins(js, Text(n), TextF(g), TextF(f), pos);
  }

  lemma NodeText(n: Node, g: Forest)
    ensures TextF(Item("", n, g)) == Text(n) + TextF(g)
  {
    InFront("", Text(n), TextF(g));
  }

  /** What comes after a primitive starts with what ended it. */
  lemma AfterPrimitive(js: string, g: Forest, e: nat)
    requires GoodF(g) && At(js, TextF(g), e) && Ended(js, e)
    ensures if g.pad == "" then g.Done? else EndsPrimitive(g.pad[0])
  {
    if g.pad != "" {
      PadText(js, g, e);
      AtHead(js, g.pad, e);
    } else if g.Item? {
      FirstOfNode(g.node);
      ItemTexts(js, g, e);
      AtHead(js, Text(g.node), e);
    }
  }

  lemma FirstOfNode(n: Node)
    requires Good(n)
    ensures |Text(n)| > 0 && !EndsPrimitive(Text(n)[0])
  {
  }

  /** A text scanned as a string is one. */
  lemma {:induction false} ScannedIsRaw(js: string, at: nat, i: nat, e: nat)
    requires at <= i && StringEnd(js, i) == Found(e)
    ensures i <= e < |js| && js[e] == '"' && IsRaw(js[at..e], i - at)
    decreases |js| - i
  {
    var raw := js[at..e];
    assert forall k :: 0 <= k < |raw| ==> raw[k] == js[at + k];
    if i < e {
      assert Unit(raw, i - at) > 0;
      ScannedIsRaw(js, at, i + Unit(raw, i - at), e);
    }
  }

  lemma {:induction false} ScannedIsPrimitive(js: string, i: nat, e: nat)
    requires i <= |js| && PrimitiveEnd(js, i) == Found(e)
    ensures i <= e <= |js| && (e < |js| ==> EndsPrimitive(js[e])) && forall k :: i <= k < e ==> InPrimitive(js[k])
    decreases |js| - i
  {
    if i < |js| && !EndsPrimitive(js[i]) {
      ScannedIsPrimitive(js, i + 1, e);
    }
  }

  // The first turn of a parse that succeeds, for each kind of character.

  lemma SkipTurn(run: Runner, js: string, p: Parser, cap: nat)
    requires IsRun(run, js, cap) && p.pos < |js| && IsSkipped(js[p.pos])
    ensures run(p) == run(p.(pos := p.pos + 1))
  {
    var q := p.(pos := p.pos + 1);
    assert run(p) == Run(js, p, cap) && run(q) == Run(js, q, cap);
  }

  lemma QuotedStands(js: string, pos: nat, e: nat, raw: string)
    requires pos + 1 <= e < |js| && js[pos] == '"' && js[e] == '"' && raw == js[pos + 1..e]
    ensures At(js, Text(Str(raw)), pos)
  {
    assert js[pos..e + 1] == "\"" + raw + "\"";
  }

  lemma ScannedString(js: string, pos: nat) returns (raw: string)
    requires pos < |js| && js[pos] == '"' && StringEnd(js, pos + 1).Found?
    ensures IsRaw(raw, 0) && At(js, Text(Str(raw)), pos) && StringEnd(js, pos + 1) == Found(pos + 1 + |raw|)
  {
    var e := StringEnd(js, pos + 1).end;
    ScannedIsRaw(js, pos + 1, pos + 1, e);
    raw := js[pos + 1..e];
    QuotedStands(js, pos, e, raw);
  }

  lemma StringTurn(run: Runner, js: string, p: Parser, cap: nat) returns (raw: string)
    requires IsRun(run, js, cap) && p.pos < |js| && js[p.pos] == '"' && run(p).Parsed?
    ensures IsRaw(raw, 0) && At(js, Text(Str(raw)), p.pos) && run(p) == run(After(p, Str(raw)))
  {
    assert run(p) == Run(js, p, cap);
    raw := ScannedString(js, p.pos);
    LeafAfter(p, Str(raw));
    assert run(After(p, Str(raw))) == Run(js, After(p, Str(raw)), cap);
  }

  lemma PrimitiveTurn(run: Runner, js: string, p: Parser, cap: nat) returns (text: string)
    requires IsRun(run, js, cap) && p.pos < |js| && run(p).Parsed?
    requires !Stops(js, p.pos) && !IsSkipped(js[p.pos]) && js[p.pos] != '{' && js[p.pos] != '[' && js[p.pos] != '"'
    ensures IsPrimitive(text) && At(js, text, p.pos) && run(p) == run(After(p, Prim(text)))
    ensures Ended(js, p.pos + |text|)
  {
    assert run(p) == Run(js, p, cap);
    var e := PrimitiveEnd(js, p.pos).end;
    ScannedIsPrimitive(js, p.pos, e);
    text := js[p.pos..e];
    assert text[0] == js[p.pos];
    LeafAfter(p, Prim(text));
    assert run(After(p, Prim(text))) == Run(js, After(p, Prim(text)), cap);
  }

  lemma OpenTurn(run: Runner, js: string, p: Parser, cap: nat, n: Node)
    requires IsRun(run, js, cap) && p.pos < |js| && n.Box? && run(p).Parsed?
    requires js[p.pos] == (if n.isObject then '{' else '[')
    ensures run(p) == run(Opened(p, n))
  {
    assert run(p) == Run(js, p, cap) && run(Opened(p, n)) == Run(js, Opened(p, n), cap);
  }

  /** A container that is opened is closed, by its own bracket. */
  lemma CloseTurn(run: Runner, js: string, p: Parser, cap: nat, n: Node)
    requires IsRun(run, js, cap) && p.pos < |js| && n.Box? && js[p.pos] == (if n.isObject then '{' else '[')
    requires Reads(run, js, Opened(p, n), n.items) && run(Opened(p, n)).Parsed?
    ensures At(js, Text(n), p.pos) && Good(n) && run(Opened(p, n)) == run(After(p, n))
  {
    var open := Opened(p, n);
    var mid := AfterF(open, n.items);
    var inner := TokensF(n.items, p.pos + 1, |p.toks| + 1, |p.toks|);
    TokensClosedF(n.items, p.pos + 1, |p.toks| + 1, |p.toks|);
    LastIsOpen(p, n, inner, mid.toks);
    Bracketed(run, js, mid, cap, KindOf(n.isObject), |p.toks|);
    BoxStands(js, n, p.pos);
    BoxCloses(run, js, n, p, mid, cap);
  }

  lemma LastIsOpen(p: Parser, n: Node, inner: seq<Token>, toks: seq<Token>)
    requires n.Box? && AllClosed(inner) && toks == Opened(p, n).toks + inner
    ensures LastOpen(toks) == |p.toks| && toks[|p.toks|].kind == KindOf(n.isObject)
  {
    OpenStays(Opened(p, n).toks, inner);
  }

  /** With a container open, a parse that stops here and succeeds stands at its bracket. */
  lemma Bracketed(run: Runner, js: string, mid: Parser, cap: nat, kind: Kind, i: nat)
    requires IsRun(run, js, cap) && Stops(js, mid.pos) && run(mid).Parsed?
    requires LastOpen(mid.toks) == i && mid.toks[i].kind == kind && (kind == Object || kind == Array)
    ensures mid.pos < |js| && js[mid.pos] == if kind == Object then '}' else ']'
  {
    assert run(mid) == Run(js, mid, cap);
  }

  lemma BoxStands(js: string, n: Node, pos: nat)
    requires n.Box? && pos < |js| && js[pos] == (if n.isObject then '{' else '[') && At(js, TextF(n.items), pos + 1)
    requires var e := pos + 1 + |TextF(n.items)|; e < |js| && js[e] == if n.isObject then '}' else ']'
    ensures At(js, Text(n), pos)
  {
    Bracketing(js, pos, pos + 1 + |TextF(n.items)|);
  }

  lemma Bracketing(js: string, pos: nat, e: nat)
    requires pos < e < |js|
    ensures js[pos..e + 1] == [js[pos]] + js[pos + 1..e] + [js[e]]
  {
  }

  /** A parse that succeeds has read, up to where it stops, the text of a forest. */
  lemma {:induction false} ForestOf(run: Runner, js: string, p: Parser, cap: nat) returns (f: Forest)
    requires IsRun(run, js, cap) && p.pos <= |js| && run(p).Parsed?
    ensures Reads(run, js, p, f)
    decreases |js| - p.pos
  {
    f := Done("");
    if Stops(js, p.pos) {
      ReadsNothing(run, js, p);
    } else if IsSkipped(js[p.pos]) {
      var q := p.(pos := p.pos + 1);
      SkipTurn(run, js, p, cap);
      var g := ForestOf(run, js, q, cap);
      f := g.(pad := [js[p.pos]] + g.pad);
      ReadsPad(run, js, p, q, g, f);
    } else {
      var n := NodeOf(run, js, p, cap);
      var g := ForestOf(run, js, After(p, n), cap);
      if n.Prim? { AfterPrimitive(js, g, p.pos + |Text(n)|); }
      f := Item("", n, g);
      ReadsNode(run, js, p, n, After(p, n), g, f);
    }
  }

  /** And at the start of a value it has read a node. */
  lemma {:induction false} NodeOf(run: Runner, js: string, p: Parser, cap: nat) returns (n: Node)
    requires IsRun(run, js, cap) && p.pos < |js| && run(p).Parsed? && !Stops(js, p.pos) && !IsSkipped(js[p.pos])
    ensures Good(n) && At(js, Text(n), p.pos) && run(p) == run(After(p, n)) && p.pos < After(p, n).pos
    ensures n.Prim? ==> Ended(js, p.pos + |Text(n)|)
    decreases |js| - p.pos, 0
  {
    var c := js[p.pos];
    if c == '{' || c == '[' {
      var empty := Box(c == '{', Done(""));
      OpenTurn(run, js, p, cap, empty);
      var g := ForestOf(run, js, Opened(p, empty), cap);
      n := Box(c == '{', g);
      CloseTurn(run, js, p, cap, n);
    } else if c == '"' {
      var raw := StringTurn(run, js, p, cap);
      n := Str(raw);
    } else {
      var text := PrimitiveTurn(run, js, p, cap);
      n := Prim(text);
    }
    FirstOfNode(n);
  }

  /** Every text that is parsed is the text of a forest, and its tokens are the flattening of that. */
  lemma ParsedIsFlattening(js: string, cap: nat) returns (f: Forest)
    requires Run(js, START, cap).Parsed?
    ensures GoodF(f) && TextF(f) == js && CountF(f) <= cap && Run(js, START, cap) == Parsed(TokensF(f, 0, 0, -1))
  {
    var run := (q: Parser) => Run(js, q, cap);
    f := WholeForest(run, js, START, cap);
    DocumentParses(f, cap);
  }

  lemma WholeForest(run: Runner, js: string, start: Parser, cap: nat) returns (f: Forest)
    requires IsRun(run, js, cap) && start.pos == 0 && start.toks == [] && run(start).Parsed?
    ensures GoodF(f) && TextF(f) == js
  {
    f := ForestOf(run, js, start, cap);
    var q := AfterF(start, f);
    TokensClosedF(f, 0, 0, start.super);
    assert q.toks == TokensF(f, 0, 0, start.super);
    NothingOpen(run, js, q, cap);
    assert js[0..|js|] == js;
  }

  /** With nothing open, a parse that stops and succeeds is at the end of the text. */
  lemma NothingOpen(run: Runner, js: string, q: Parser, cap: nat)
    requires IsRun(run, js, cap) && Stops(js, q.pos) && AllClosed(q.toks) && run(q).Parsed?
    ensures q.pos == |js|
  {
    assert LastOpen(q.toks) < 0;
    assert run(q) == Run(js, q, cap);
  }

  // ---------------------------------------------------------------- in one way only

  /** The skipped text in front is all there is, and shows whether a value comes. */
  ghost predicate PadEnds(js: string, f: Forest, pos: nat)
  {
    var e := pos + |f.pad|;
    && At(js, f.pad, pos) && AllSkipped(f.pad) && (e < |js| ==> !IsSkipped(js[e])) && (f.Done? <==> Stops(js, e))
  }

  lemma PadIsAll(js: string, f: Forest, pos: nat)
    requires Stands(js, f, pos)
    ensures PadEnds(js, f, pos)
  {
    PadText(js, f, pos);
    if f.Item? {
      ItemTexts(js, f, pos);
      FirstOfNode(f.node);
      AtHead(js, Text(f.node), pos + |f.pad|);
    }
  }

  lemma SamePad(js: string, f: Forest, g: Forest, pos: nat)
    requires PadEnds(js, f, pos) && PadEnds(js, g, pos)
    ensures f.pad == g.pad && (f.Done? <==> g.Done?)
  {
    if |f.pad| < |g.pad| {
      AtIndex(js, g.pad, pos, |f.pad|);
    } else if |g.pad| < |f.pad| {
      AtIndex(js, f.pad, pos, |g.pad|);
    }
  }

  /** A value stands here, and if it is a primitive it ends there. */
  ghost predicate ValueAt(js: string, n: Node, pos: nat)
  {
    Good(n) && At(js, Text(n), pos) && (n.Prim? ==> Ended(js, pos + |Text(n)|))
  }

  lemma ItemStands(js: string, f: Forest, pos: nat)
    requires f.Item? && Stands(js, f, pos)
    ensures ValueAt(js, f.node, pos + |f.pad|) && Stands(js, f.rest, pos + |f.pad| + |Text(f.node)|)
  {
    ItemTexts(js, f, pos);
    PrimitiveEnded(js, f, pos);
  }

  /** The text up to where it stops is no other forest's. */
  lemma {:induction false} SameForest(js: string, f: Forest, g: Forest, pos: nat)
    requires Stands(js, f, pos) && Stands(js, g, pos)
    ensures f == g
    decreases f
  {
    SameStart(js, f, g, pos);
    if f.Item? {
      var at := pos + |f.pad|;
      SameItem(js, f, g, pos, at);
      SameNode(js, f.node, g.node, at);
      SameForest(js, f.rest, g.rest, at + |Text(f.node)|);
    }
  }

  lemma SameStart(js: string, f: Forest, g: Forest, pos: nat)
    requires Stands(js, f, pos) && Stands(js, g, pos)
    ensures f.pad == g.pad && (f.Done? <==> g.Done?)
  {
    PadIsAll(js, f, pos);
    PadIsAll(js, g, pos);
    SamePad(js, f, g, pos);
  }

  lemma SameItem(js: string, f: Forest, g: Forest, pos: nat, at: nat)
    requires Stands(js, f, pos) && Stands(js, g, pos) && f.Item? && g.Item? && at == pos + |f.pad| == pos + |g.pad|
    ensures ValueAt(js, f.node, at) && ValueAt(js, g.node, at)
    ensures Stands(js, f.rest, at + |Text(f.node)|) && Stands(js, g.rest, at + |Text(g.node)|)
  {
    ItemStands(js, f, pos);
    ItemStands(js, g, pos);
  }

  lemma {:induction false} SameNode(js: string, m: Node, n: Node, pos: nat)
    requires ValueAt(js, m, pos) && ValueAt(js, n, pos)
    ensures m == n
    decreases m
  {
    SameKind(js, m, n, pos);
    match m
    case Str(raw) => SameString(js, raw, n.raw, pos);
    case Prim(text) => SamePrimitive(js, text, n.text, pos);
    case Box(_, items) =>
      ItemsStand(js, m, pos);
      ItemsStand(js, n, pos);
      SameForest(js, items, n.items, pos + 1);
  }

  /** The first character shows what kind of value it is. */
  lemma SameKind(js: string, m: Node, n: Node, pos: nat)
    requires ValueAt(js, m, pos) && ValueAt(js, n, pos)
    ensures m.Str? == n.Str? && m.Prim? == n.Prim? && (m.Box? && n.Box? ==> m.isObject == n.isObject)
  {
    FirstOfNode(m);
    FirstOfNode(n);
    AtHead(js, Text(m), pos);
    AtHead(js, Text(n), pos);
  }

  lemma SameString(js: string, a: string, b: string, pos: nat)
    requires IsRaw(a, 0) && IsRaw(b, 0) && At(js, Text(Str(a)), pos) && At(js, Text(Str(b)), pos)
    ensures a == b
  {
    StringSpan(js, a, pos);
    StringSpan(js, b, pos);
  }

  lemma SamePrimitive(js: string, a: string, b: string, pos: nat)
    requires IsPrimitive(a) && IsPrimitive(b) && At(js, a, pos) && At(js, b, pos)
    requires Ended(js, pos + |a|) && Ended(js, pos + |b|)
    ensures a == b
  {
    PrimitiveSpan(js, a, pos);
    PrimitiveSpan(js, b, pos);
  }

  lemma ItemsStand(js: string, n: Node, pos: nat)
    requires n.Box? && ValueAt(js, n, pos)
    ensures Stands(js, n.items, pos + 1)
  {
    BoxText(js, n, pos);
    BoxEnds(js, n, pos);
  }

  /** No text is that of two forests: what the tokenizer makes of it is what it means. */
  lemma TextsAreUnambiguous(f: Forest, g: Forest)
    requires GoodF(f) && GoodF(g) && TextF(f) == TextF(g)
    ensures f == g
  {
    var js := TextF(f);
    assert js[0..|js|] == js;
    SameForest(js, f, g, 0);
  }

  // ---------------------------------------------------------------- how many tokens are stored

  /** The number of tokens stored, also when the parse fails. */
  function Stored(o: Outcome): nat { if o.Parsed? then |o.toks| else o.used }

  /** Tokens are never taken back, no more than announced are stored, and each takes a character. */
  lemma {:induction false} StoredBounds(js: string, p: Parser, cap: nat)
    requires p.pos <= |js| && |p.toks| <= cap
    ensures |p.toks| <= Stored(Run(js, p, cap)) <= Min(cap, |p.toks| + |js| - p.pos)
    decreases |js| - p.pos
  {
    if p.pos < |js| && Turn(js, p, cap).Next? {
      StoredBounds(js, Turn(js, p, cap).p, cap);
    }
  }

  /** With less room exactly so many fewer are stored, whatever the text. */
  lemma {:induction false} StoredWith(js: string, p: Parser, cap: nat, big: nat)
    requires p.pos <= |js| && |p.toks| <= cap <= big
    ensures Stored(Run(js, p, cap)) == Min(cap, Stored(Run(js, p, big)))
    decreases |js| - p.pos
  {
    StoredBounds(js, p, cap);
    StoredBounds(js, p, big);
    if |p.toks| < cap && p.pos < |js| {
      SameTurn(js, p, cap, big);
      var s := Turn(js, p, cap);
      if s.Next? {
        StoredWith(js, s.p, cap, big);
      }
    }
  }

  lemma SameTurn(js: string, p: Parser, cap: nat, big: nat)
    requires p.pos < |js| && |p.toks| < cap <= big
    ensures Turn(js, p, cap) == Turn(js, p, big)
    ensures Turn(js, p, cap).Next? ==> |Turn(js, p, cap).p.toks| <= cap
  {
  }

  /** The tokens that a text needs: as many as are stored when there is room for one per character. */
  function Needed(js: string): nat { Stored(Run(js, START, |js|)) }

  /**
    What is stored for any text, well formed or not.  So an array of `size` tokens is not overrun, when the tokenizer is
    told that there is room for `cap`, exactly if the text needs no more than that, or the tokenizer was told the truth.
  */
  lemma ArraySuffices(js: string, cap: nat, size: nat)
    ensures Stored(Run(js, START, cap)) == Min(cap, Needed(js))
    ensures Stored(Run(js, START, cap)) <= size <==> Needed(js) <= size || cap <= size
  {
    StoredFrom(js, START, cap);
  }

  lemma StoredFrom(js: string, start: Parser, cap: nat)
    requires start.pos == 0 && start.toks == []
    ensures Stored(Run(js, start, cap)) == Min(cap, Stored(Run(js, start, |js|)))
  {
    StoredBounds(js, start, |js|);
    if cap <= |js| {
      StoredWith(js, start, cap, |js|);
    } else {
      StoredWith(js, start, |js|, cap);
      StoredBounds(js, start, cap);
    }
  }

  /** A document needs the tokens of its flattening. */
  lemma DocumentNeeds(f: Forest)
    requires GoodF(f)
    ensures Needed(TextF(f)) == CountF(f)
  {
    var js, n := TextF(f), CountF(f);
    DocumentParses(f, n);
    StoredFrom(js, START, n);
    DocumentParses(f, |js|);
    StoredBounds(js, START, |js|);
    StoredFrom(js, START, n + |js|);
    DocumentParses(f, n + |js|);
  }

  /** Opening brackets, none of them closed. */
  function Brackets(n: nat): (t: string)
    ensures |t| == n && forall i :: 0 <= i < n ==> t[i] == '['
  {
    seq(n, _ => '[')
  }

  /** Each of them needs a token, although the text is no document. */
  lemma {:induction false} BracketsRun(js: string, p: Parser, n: nat, cap: nat)
    requires js == Brackets(n) && p.pos == |p.toks| <= n <= cap && (|p.toks| > 0 ==> IsOpen(p.toks[|p.toks| - 1]))
    ensures n > 0 ==> Run(js, p, cap) == Failed(Partial, n)
    decreases n - p.pos
  {
    if p.pos < n {
      var q := Parser(p.pos + 1, p.toks + [Token(Array, p.pos, -1, p.super)], |p.toks|);
      assert Turn(js, p, cap) == Next(q);
      BracketsRun(js, q, n, cap);
    }
  }

  lemma BracketsNeed(n: nat)
    ensures Needed(Brackets(n)) == n
  {
    BracketsRun(Brackets(n), START, n, n);
    StoredBounds(Brackets(n), START, n);
  }

  // ---------------------------------------------------------------- the tokenizer in place

  /** The value that jsmn_parse returns for an error. */
  function Code(e: Error): int
  {
    match e
    case NoMemory => -1
    case Invalid => -2
    case Partial => -3
  }

  /** The loop of jsmn_parse_string. */
  method ScanString(js: string, start: nat) returns (r: Scan)
    ensures r == StringEnd(js, start)
  {
    var i := start;
    while i < |js|
      invariant StringEnd(js, i) == StringEnd(js, start)
      decreases |js| - i
    {
      if js[i] == '"' { return Found(i); }
      if js[i] == '\\' && i + 1 < |js| {
        i := i + 1;
        if js[i] == 'u' {
          i := i + 4;
        } else if !IsSimpleEscape(js[i]) {
          return Bad(Invalid);
        }
      }
      i := i + 1;
    }
    return Bad(Partial);
  }

  /** The loop of jsmn_parse_primitive. */
  method ScanPrimitive(js: string, start: nat) returns (r: Scan)
    requires start <= |js|
    ensures r == PrimitiveEnd(js, start)
  {
    var i := start;
    while i < |js| && !EndsPrimitive(js[i])
      invariant i <= |js| && PrimitiveEnd(js, i) == PrimitiveEnd(js, start)
      decreases |js| - i
    {
      if js[i] < ' ' || js[i] >= '\U{007f}' { return Bad(Invalid); }
      i := i + 1;
    }
    return Found(i);
  }

  /** jsmn_parser with the caller's token array. */
  class Tokenizer {
    var pos: nat
    var toknext: nat
    var toksuper: int
    const tokens: array<Token>

    ghost predicate Valid()
      reads this, tokens
    {
      toknext <= tokens.Length
    }

    ghost function State(): Parser
      reads this, tokens
      requires Valid()
    {
      Parser(pos, tokens[..toknext], toksuper)
    }

    /** jsmn_init */
    constructor (tokens: array<Token>)
      ensures Valid() && State() == START && this.tokens == tokens
    {
      this.tokens := tokens;
      pos, toknext, toksuper := 0, 0, -1;
      new;
      assert tokens[..0] == [];
    }

    /** jsmn_alloc_token, filled in */
    method Append(t: Token) returns (ok: bool)
      requires Valid()
      modifies this`toknext, tokens
      ensures Valid() && ok == (old(toknext) < tokens.Length)
      ensures State() == if ok then old(State()).(toks := old(State()).toks + [t]) else old(State())
    {
      ok := toknext < tokens.Length;
      if ok {
        ghost var before := tokens[..toknext];
        tokens[toknext] := t;
        toknext := toknext + 1;
        assert tokens[..toknext] == before + [t];
      }
    }

    /** A closing bracket: the last open token must be of its kind, and gets its end. */
    method CloseLast(kind: Kind) returns (ok: bool)
      requires Valid()
      modifies this`toksuper, this`pos, tokens
      ensures Valid()
      ensures toknext == old(toknext) && (ok <==> Close(old(State()), kind).Next?)
      ensures ok ==> State() == Close(old(State()), kind).p
    {
      var i := toknext - 1;
      ghost var before := tokens[..toknext];
      while i >= 0 && !(tokens[i].start != -1 && tokens[i].end == -1)
        invariant -1 <= i < toknext && forall k :: i < k < toknext ==> !IsOpen(before[k])
        invariant tokens[..toknext] == before
      {
        i := i - 1;
      }
      LastOpenIsLast(before);
      if i < 0 || tokens[i].kind != kind { return false; }
      tokens[i] := tokens[i].(end := pos + 1);
      toksuper := tokens[i].parent;
      pos := pos + 1;
      assert tokens[..toknext] == before[i := tokens[i]];
      ok := true;
    }

    /** One turn of the loop, for each kind of character. */
    method Advance(js: string) returns (error: Option<Error>)
      requires Valid() && pos < |js|
      modifies this, tokens
      ensures Valid()
      ensures var s := Turn(js, old(State()), tokens.Length);
        if error.Some? then s == Fail(error.value) && toknext == old(toknext) else s == Next(State())
    {
      error := None;
      ghost var before, cap := State(), tokens.Length;
      var c := js[pos];
      if c == '{' || c == '[' {
        var ok := Append(Token(if c == '{' then Object else Array, pos, -1, toksuper));
        if !ok { return Some(NoMemory); }
        toksuper := toknext - 1;
        pos := pos + 1;
        assert Open(before, cap, if c == '{' then Object else Array) == Next(State());
      } else if c == '}' || c == ']' {
        var ok := CloseLast(if c == '}' then Object else Array);
        if !ok { return Some(Invalid); }
      } else if c == '"' {
        var end := ScanString(js, pos + 1);
        if end.Bad? { return Some(end.error); }
        var ok := Append(Token(String, pos + 1, end.end, toksuper));
        if !ok { return Some(NoMemory); }
        pos := end.end + 1;
        assert Alloc(before, cap, Token(String, before.pos + 1, end.end, toksuper), pos) == Next(State());
      } else if IsSkipped(c) {
        pos := pos + 1;
      } else {
        var end := ScanPrimitive(js, pos);
        if end.Bad? { return Some(end.error); }
        var ok := Append(Token(Primitive, pos, end.end, toksuper));
        if !ok { return Some(NoMemory); }
        pos := end.end;
        assert Alloc(before, cap, Token(Primitive, before.pos, end.end, toksuper), pos) == Next(State());
      }
    }

    /** jsmn_parse: the number of tokens, or an error, as `Run` says. */
    method Parse(js: string) returns (r: int)
      requires Valid()
      modifies this, tokens
      ensures Valid()
      ensures match Run(js, old(State()), tokens.Length)
              case Parsed(toks) => r == |toks| == toknext && tokens[..toknext] == toks
              case Failed(e, used) => r == Code(e) && toknext == used
    {
      ghost var goal := Run(js, State(), tokens.Length);
      while pos < |js|
        invariant Valid() && Run(js, State(), tokens.Length) == goal
        decreases |js| - pos
      {
        var error := Advance(js);
        if error.Some? { return Code(error.value); }
      }
      var i := toknext - 1;
      LastOpenIsLast(State().toks);
      while i >= 0
        invariant -1 <= i < toknext && forall k :: i < k < toknext ==> !IsOpen(tokens[k])
      {
        if tokens[i].start != -1 && tokens[i].end == -1 {
          assert IsOpen(State().toks[i]);
          return -3;
        }
        i := i - 1;
      }
      assert forall k :: 0 <= k < toknext ==> !IsOpen(State().toks[k]);
      return toknext;
    }
  }
}

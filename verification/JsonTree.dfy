/**
  JSON documents as trees with their text, and the flat preorder token array that third_party/jsmn.h makes of them:
  each token has a kind, the span of text it covers and the index of the container it stands in.
*/
module JsonTree {
  import opened CText

  datatype Kind = Object | Array | String | Primitive

  /** jsmntok_t, without the child count that nothing reads; `end` is -1 while a container is open. */
  datatype Token = Token(kind: Kind, start: int, end: int, parent: int)

  /** A value: a string by its raw text, a primitive by its text, or a container. */
  datatype Node = Str(raw: string) | Prim(text: string) | Box(isObject: bool, items: Forest)

  /** What stands in a container: nodes with the skipped text (white space, commas, colons) around them. */
  datatype Forest = Done(pad: string) | Item(pad: string, node: Node, rest: Forest)

  function Text(n: Node): string
  {
    match n
    case Str(raw) => "\"" + raw + "\""
    case Prim(text) => text
    case Box(isObject, items) => (if isObject then "{" else "[") + TextF(items) + (if isObject then "}" else "]")
  }

  function TextF(f: Forest): string
  {
    match f
    case Done(pad) => pad
    case Item(pad, node, rest) => pad + (Text(node) + TextF(rest))
  }

  function Count(n: Node): (c: nat)
    ensures c > 0
  {
    match n
    case Box(_, items) => 1 + CountF(items)
    case _ => 1
  }

  function CountF(f: Forest): nat
  {
    match f
    case Done(_) => 0
    case Item(_, node, rest) => Count(node) + CountF(rest)
  }

  /** The token of the node itself, at `pos` in the text. */
  function Head(n: Node, pos: nat, parent: int): Token
  {
    match n
    case Str(raw) => Token(String, pos + 1, pos + 1 + |raw|, parent)
    case Prim(text) => Token(Primitive, pos, pos + |text|, parent)
    case Box(isObject, _) => Token(if isObject then Object else Array, pos, pos + |Text(n)|, parent)
  }

  /** The tokens of a node at `pos` in the text, the first of them at `index`. */
  function Tokens(n: Node, pos: nat, index: nat, parent: int): (ts: seq<Token>)
    ensures |ts| == Count(n) && ts[0] == Head(n, pos, parent)
    decreases n
  {
    [Head(n, pos, parent)] + match n case Box(_, items) => TokensF(items, pos + 1, index + 1, index) case _ => []
  }

  function TokensF(f: Forest, pos: nat, index: nat, parent: int): (ts: seq<Token>)
    ensures |ts| == CountF(f)
    decreases f
  {
    match f
    case Done(_) => []
    case Item(pad, node, rest) =>
      Tokens(node, pos + |pad|, index, parent)
      + TokensF(rest, pos + |pad| + |Text(node)|, index + Count(node), parent)
  }

  // ---------------------------------------------------------------- what jsmn accepts

  predicate IsSkipped(c: char) { c == '\t' || c == '\r' || c == '\n' || c == ' ' || c == ':' || c == ',' }

  predicate EndsPrimitive(c: char)
  {
    c == '\t' || c == '\r' || c == '\n' || c == ' ' || c == ',' || c == ']' || c == '}'
  }

  predicate InPrimitive(c: char) { ' ' <= c < '\U{007f}' && !EndsPrimitive(c) }

  predicate StartsPrimitive(c: char)
  {
    InPrimitive(c) && !IsSkipped(c) && c != '{' && c != '[' && c != '"'
  }

  predicate IsSimpleEscape(c: char)
  {
    c == '"' || c == '/' || c == '\\' || c == 'b' || c == 'f' || c == 'r' || c == 'n' || c == 't'
  }

  /** The number of characters of the unit of string text at `i`: an ordinary character or an escape; 0 if neither. */
  function Unit(raw: string, i: nat): (n: nat)
    requires i < |raw|
    ensures i + n <= |raw|
  {
    if raw[i] == '"' then 0
    else if raw[i] != '\\' then 1
    else if i + 1 < |raw| && IsSimpleEscape(raw[i + 1]) then 2
    else if i + 1 < |raw| && raw[i + 1] == 'u' && i + 6 <= |raw| then 6
    else 0
  }

  /** Raw string text: units up to its end. */
  predicate IsRaw(raw: string, i: nat)
    requires i <= |raw|
    decreases |raw| - i
  {
    i == |raw| || (Unit(raw, i) > 0 && IsRaw(raw, i + Unit(raw, i)))
  }

  predicate AllSkipped(pad: string) { forall i :: 0 <= i < |pad| ==> IsSkipped(pad[i]) }

  predicate IsPrimitive(text: string)
  {
    text != "" && StartsPrimitive(text[0]) && forall i :: 0 <= i < |text| ==> InPrimitive(text[i])
  }

  predicate Good(n: Node)
  {
    match n
    case Str(raw) => IsRaw(raw, 0)
    case Prim(text) => IsPrimitive(text)
    case Box(_, items) => GoodF(items)
  }

  /** A primitive is followed by something that ends it. */
  predicate GoodF(f: Forest)
  {
    match f
    case Done(pad) => AllSkipped(pad)
    case Item(pad, node, rest) =>
      && AllSkipped(pad) && Good(node) && GoodF(rest)
      && (node.Prim? ==> if rest.pad == "" then rest.Done? else EndsPrimitive(rest.pad[0]))
  }

  // ---------------------------------------------------------------- texts in texts

  lemma AtMiddle(js: string, a: string, b: string, c: string, pos: nat)
    requires At(js, a + b + c, pos)
    ensures At(js, b, pos + |a|)
  {
    AtSplits(js, a + b, c, pos);
    AtSplits(js, a, b, pos);
  }

  lemma BoxText(js: string, n: Node, pos: nat)
    requires n.Box? && At(js, Text(n), pos)
    ensures At(js, TextF(n.items), pos + 1) && |Text(n)| == |TextF(n.items)| + 2
  {
    if n.isObject {
      AtMiddle(js, "{", TextF(n.items), "}", pos);
    } else {
      AtMiddle(js, "[", TextF(n.items), "]", pos);
    }
  }

  lemma BoxLength(n: Node)
    requires n.Box?
    ensures |Text(n)| == |TextF(n.items)| + 2
  {
  }

  lemma ItemTexts(js: string, f: Forest, pos: nat)
    requires f.Item? && At(js, TextF(f), pos)
    ensures At(js, Text(f.node), pos + |f.pad|) && At(js, TextF(f.rest), pos + |f.pad| + |Text(f.node)|)
    ensures |TextF(f)| == |f.pad| + |Text(f.node)| + |TextF(f.rest)|
  {
    AtSplits(js, f.pad, Text(f.node) + TextF(f.rest), pos);
    AtSplits(js, Text(f.node), TextF(f.rest), pos + |f.pad|);
  }
}

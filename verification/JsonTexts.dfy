/**
  JSON texts as RFC 8259 defines them, with white space wherever it is allowed, and what the tokenizer
  (third_party/jsmn.h) and the searches of src/http_client.c make of them.
*/
module JsonTexts {
  import opened Base
  import opened CText
  import opened JsonTree
  import opened TokenSearch
  import Jsmn
  import JsonStrings

  // ---------------------------------------------------------------- values

  /** A value: a literal name or number, a string by its raw text, an array or an object. */
  datatype Value =
    | Word(text: string)
    | Quote(raw: string)
    | Arr(elems: Elems, end: string)
    | Obj(pairs: Pairs, end: string)

  /** Elements of an array, with the white space before and after each. */
  datatype Elems = NoElem | Elem(before: string, value: Value, after: string, rest: Elems)

  /** Members of an object, with the white space around key, colon and value. */
  datatype Pairs =
    NoPair | Pair(before: string, key: string, mid: string, gap: string, value: Value, after: string, rest: Pairs)

  function Print(v: Value): string
  {
    match v
    case Word(text) => text
    case Quote(raw) => "\"" + raw + "\""
    case Arr(elems, end) => "[" + (PrintElems(elems, "") + end) + "]"
    case Obj(pairs, end) => "{" + (PrintPairs(pairs, "") + end) + "}"
  }

  /** Elements after a separator: nothing for the first, a comma for the others. */
  function PrintElems(e: Elems, sep: string): string
  {
    match e
    case NoElem => ""
    case Elem(before, value, after, rest) => sep + before + Print(value) + after + PrintElems(rest, ",")
  }

  function PrintPairs(p: Pairs, sep: string): string
  {
    match p
    case NoPair => ""
    case Pair(before, key, mid, gap, value, after, rest) =>
      sep + before + ("\"" + key + "\"") + (mid + ":" + gap) + Print(value) + after + PrintPairs(rest, ",")
  }

  /** Section 2: white space is space, tab, line feed and carriage return. */
  predicate IsWhite(s: string) { forall i :: 0 <= i < |s| ==> s[i] as int in {0x20, 0x09, 0x0a, 0x0d} }

  /** Letters, digits, signs and points: what literal names and numbers consist of (sections 3 and 6). */
  predicate IsWord(s: string)
  {
    && s != ""
    && forall i :: 0 <= i < |s| ==>
         'a' <= s[i] <= 'z' || 'A' <= s[i] <= 'Z' || '0' <= s[i] <= '9' || s[i] == '-' || s[i] == '+' || s[i] == '.'
  }

  predicate IsString(raw: string) { JsonStrings.Standard(raw).Some? }

  predicate Valid(v: Value)
  {
    match v
    case Word(text) => IsWord(text)
    case Quote(raw) => IsString(raw)
    case Arr(elems, end) => ValidElems(elems) && IsWhite(end)
    case Obj(pairs, end) => ValidPairs(pairs) && IsWhite(end)
  }

  predicate ValidElems(e: Elems)
  {
    match e
    case NoElem => true
    case Elem(before, value, after, rest) => IsWhite(before) && Valid(value) && IsWhite(after) && ValidElems(rest)
  }

  predicate ValidPairs(p: Pairs)
  {
    match p
    case NoPair => true
    case Pair(before, key, mid, gap, value, after, rest) =>
      && IsWhite(before) && IsString(key) && IsWhite(mid) && IsWhite(gap) && Valid(value) && IsWhite(after)
      && ValidPairs(rest)
  }

  // ---------------------------------------------------------------- as trees

  function Tree(v: Value): Node
  {
    match v
    case Word(text) => Prim(text)
    case Quote(raw) => Str(raw)
    case Arr(elems, end) => Box(false, ElemTrees(elems, "", "", end))
    case Obj(pairs, end) => Box(true, PairTrees(pairs, "", "", end))
  }

  /** The elements after the text `pad` and a separator. */
  function ElemTrees(e: Elems, pad: string, sep: string, end: string): Forest
  {
    match e
    case NoElem => Done(pad + end)
    case Elem(before, value, after, rest) =>
      Item(pad + (sep + before), Tree(value), ElemTrees(rest, after, ",", end))
  }

  function PairTrees(p: Pairs, pad: string, sep: string, end: string): Forest
  {
    match p
    case NoPair => Done(pad + end)
    case Pair(before, key, mid, gap, value, after, rest) =>
      Item(pad + (sep + before), Str(key), Item(mid + ":" + gap, Tree(value), PairTrees(rest, after, ",", end)))
  }

  lemma Glue(pad: string, sep: string, before: string, text: string, after: string, more: string, end: string)
    ensures pad + (sep + before) + (text + (after + more + end)) == pad + (sep + before + text + after + more) + end
  {
  }

  lemma GluePair(pad: string, sep: string, before: string, key: string, colon: string, text: string, after: string,
                 more: string, end: string)
    ensures pad + (sep + before) + (key + (colon + (text + (after + more + end))))
            == pad + (sep + before + key + colon + text + after + more) + end
  {
  }

  /** A text spells its tree. */
  lemma {:induction false} TreeText(v: Value)
    ensures Text(Tree(v)) == Print(v)
    decreases v
  {
    match v
    case Arr(elems, end) =>
      ElemsText(elems, "", "", end);
      assert "" + PrintElems(elems, "") + end == PrintElems(elems, "") + end;
    case Obj(pairs, end) =>
      PairsText(pairs, "", "", end);
      assert "" + PrintPairs(pairs, "") + end == PrintPairs(pairs, "") + end;
    case _ =>
  }

  lemma {:induction false} ElemsText(e: Elems, pad: string, sep: string, end: string)
    ensures TextF(ElemTrees(e, pad, sep, end)) == pad + PrintElems(e, sep) + end
    decreases e
  {
    match e
    case NoElem =>
      assert pad + "" + end == pad + end;
    case Elem(before, value, after, rest) =>
      TreeText(value);
      ElemsText(rest, after, ",", end);
      Glue(pad, sep, before, Print(value), after, PrintElems(rest, ","), end);
  }

  lemma {:induction false} PairsText(p: Pairs, pad: string, sep: string, end: string)
    ensures TextF(PairTrees(p, pad, sep, end)) == pad + PrintPairs(p, sep) + end
    decreases p
  {
    match p
    case NoPair =>
      assert pad + "" + end == pad + end;
    case Pair(before, key, mid, gap, value, after, rest) =>
      TreeText(value);
      PairsText(rest, after, ",", end);
      GluePair(pad, sep, before, Text(Str(key)), mid + ":" + gap, Print(value), after, PrintPairs(rest, ","), end);
  }

  // ---------------------------------------------------------------- the tokenizer takes them

  lemma {:induction false} StringIsRaw(raw: string, i: nat)
    requires i <= |raw| && IsString(raw[i..])
    ensures IsRaw(raw, i)
    decreases |raw| - i
  {
    if i < |raw| {
      var n := JsonStrings.UnitLength(raw[i..]);
      assert raw[i..][n..] == raw[i + n..];
      assert raw[i] == raw[i..][0] && (|raw[i..]| > 1 ==> raw[i + 1] == raw[i..][1]);
      StringIsRaw(raw, i + n);
    }
  }

  lemma WhiteIsSkipped(a: string, sep: string, b: string)
    requires IsWhite(a) && IsWhite(b) && sep in {"", ",", ":"}
    ensures AllSkipped(a + (sep + b)) && AllSkipped(a + sep + b)
    ensures a + (sep + b) != "" && sep != ":" ==> EndsPrimitive((a + (sep + b))[0])
  {
    var t := a + (sep + b);
    assert a + sep + b == t;
    forall i | 0 <= i < |t|
      ensures IsSkipped(t[i]) && (sep != ":" ==> EndsPrimitive(t[i]))
    {
      if i < |a| {
        assert t[i] == a[i];
      } else if i < |a| + |sep| {
        assert t[i] == sep[i - |a|];
      } else {
        assert t[i] == b[i - |a| - |sep|];
      }
    }
  }

  lemma {:induction false} TreeIsGood(v: Value)
    requires Valid(v)
    ensures Good(Tree(v))
    decreases v
  {
    match v
    case Word(text) =>
    case Quote(raw) =>
      assert raw[0..] == raw;
      StringIsRaw(raw, 0);
    case Arr(elems, end) => ElemsAreGood(elems, "", "", end);
    case Obj(pairs, end) => PairsAreGood(pairs, "", "", end);
  }

  /** What comes after a value ends it, if it is a word. */
  ghost predicate EndsWord(f: Forest) { if f.pad == "" then f.Done? else EndsPrimitive(f.pad[0]) }

  lemma {:induction false} ElemsAreGood(e: Elems, pad: string, sep: string, end: string)
    requires ValidElems(e) && IsWhite(pad) && IsWhite(end) && sep in {"", ","}
    ensures GoodF(ElemTrees(e, pad, sep, end)) && (sep == "," ==> EndsWord(ElemTrees(e, pad, sep, end)))
    decreases e
  {
    match e
    case NoElem =>
      WhiteIsSkipped(pad, "", end);
      assert "" + end == end;
    case Elem(before, value, after, rest) =>
      TreeIsGood(value);
      WhiteIsSkipped(pad, sep, before);
      ElemsAreGood(rest, after, ",", end);
  }

  lemma {:induction false} PairsAreGood(p: Pairs, pad: string, sep: string, end: string)
    requires ValidPairs(p) && IsWhite(pad) && IsWhite(end) && sep in {"", ","}
    ensures GoodF(PairTrees(p, pad, sep, end)) && (sep == "," ==> EndsWord(PairTrees(p, pad, sep, end)))
    decreases p
  {
    match p
    case NoPair =>
      WhiteIsSkipped(pad, "", end);
      assert "" + end == end;
    case Pair(before, key, mid, gap, value, after, rest) =>
      TreeIsGood(value);
      assert key[0..] == key;
      StringIsRaw(key, 0);
      WhiteIsSkipped(pad, sep, before);
      WhiteIsSkipped(mid, ":", gap);
      PairsAreGood(rest, after, ",", end);
  }

  /** A document: a value with white space around it. */
  function Document(before: string, v: Value, after: string): Forest { Item(before, Tree(v), Done(after)) }

  /**
    The tokenizer accepts every JSON text, and its tokens are the flattening of the value, wherever white space stands;
    or it runs out of tokens.
  */
  lemma EveryTextParses(before: string, v: Value, after: string, cap: nat)
    requires Valid(v) && IsWhite(before) && IsWhite(after)
    ensures var f := Document(before, v, after);
      && GoodF(f) && TextF(f) == before + (Print(v) + after) && CountF(f) == Count(Tree(v))
      && Jsmn.Run(before + (Print(v) + after), Jsmn.START, cap) ==
         if CountF(f) <= cap then Jsmn.Parsed(TokensF(f, 0, 0, -1)) else Jsmn.Failed(Jsmn.NoMemory, cap)
  {
    var f := Document(before, v, after);
    TreeIsGood(v);
    TreeText(v);
    WhiteIsSkipped(before, "", "");
    WhiteIsSkipped(after, "", "");
    assert before + ("" + "") == before && after + ("" + "") == after;
    Jsmn.DocumentParses(f, cap);
  }

  // ---------------------------------------------------------------- looking things up

  /** The members of an object as they are written. */
  function Written(p: Pairs): seq<Member>
  {
    match p
    case NoPair => []
    case Pair(_, key, _, _, value, _, rest) => [Member(key, Tree(value))] + Written(rest)
  }

  lemma {:induction false} WrittenMembers(p: Pairs, pad: string, sep: string, end: string)
    ensures IsMembers(PairTrees(p, pad, sep, end)) && Members(PairTrees(p, pad, sep, end)) == Written(p)
    decreases p
  {
    if p.Pair? {
      WrittenMembers(p.rest, p.after, ",", end);
    }
  }

  /** So in every JSON object the search finds the first member with the key, and never leaves the tokens. */
  lemma SearchFindsMember(p: Pairs, end: string, key: string, follow: Forest)
    ensures var r, v := Look(Tree(Obj(p, end)).items, key, follow), Lookup(Written(p), key);
      if v.Some? then r.Sees? && r.node == v.value else r == SeesNothing
  {
    WrittenMembers(p, "", "", end);
    LookIsLookup(PairTrees(p, "", "", end), key, follow);
  }
}

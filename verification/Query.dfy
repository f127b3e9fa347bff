/**
  Query strings: the endpoint builders of src/http_client.c (percent-encoding of RFC 3986, sections 2.1 and 2.3) on
  one side, query_value and url_decode of demo/service_provider/c/httpfs_server.c on the other.
*/
module Query {
  import opened Base
  import opened CText

  // ---------------------------------------------------------------- percent-encoding

  predicate Unreserved(c: char)
  {
    'a' <= c <= 'z' || 'A' <= c <= 'Z' || '0' <= c <= '9' || c == '-' || c == '.' || c == '_' || c == '~'
  }

  function UpperHexDigit(d: nat): (c: char)
    requires d < 16
    ensures HexValue(c) == d && Unreserved(c)
  {
    if d < 10 then ('0' as int + d) as char else ('A' as int + d - 10) as char
  }

  /** hex_value */
  function HexValue(c: char): (d: int)
    ensures -1 <= d < 16
  {
    if '0' <= c <= '9' then c as int - '0' as int
    else if 'a' <= c <= 'f' then c as int - 'a' as int + 10
    else if 'A' <= c <= 'F' then c as int - 'A' as int + 10
    else -1
  }

  /** The code of a byte. */
  function Code(c: char): (n: nat)
    ensures n < 256
  {
    if c as int < 256 then c as int else 0
  }

  /** curl_easy_escape, by its documentation: every byte that is not unreserved becomes %XX. */
  function EncodeChar(c: char): (e: string)
    ensures |e| in {1, 3}
  {
    if Unreserved(c) then [c] else ['%', UpperHexDigit(Code(c) / 16), UpperHexDigit(Code(c) % 16)]
  }

  function Encode(s: string): string { Flat(EncodeChar, s) }

  predicate IsBytes(s: string)
  {
    forall i :: 0 <= i < |s| ==> s[i] as int < 256
  }

  /** The loop of url_decode, from position `i` with `out` written so far. */
  function UrlDecode(t: string, i: nat, out: string, size: nat): Option<string>
    requires i <= |t|
    decreases |t| - i
  {
    if i == |t| then Some(out)
    else if |out| + 1 >= size then None
    else if t[i] == '%' then
      if i + 2 >= |t| || HexValue(t[i + 1]) < 0 || HexValue(t[i + 2]) < 0 then None
      else UrlDecode(t, i + 3, out + [(16 * HexValue(t[i + 1]) + HexValue(t[i + 2])) as char], size)
    else UrlDecode(t, i + 1, out + [if t[i] == '+' then ' ' else t[i]], size)
  }

  /** url_decode as a loop over an output buffer: in bounds, and as `UrlDecode` says. */
  method UrlDecodeInto(input: string, output: array<char>) returns (ok: bool, ghost out: string)
    requires output.Length > 0
    modifies output
    ensures ok <==> UrlDecode(input, 0, "", output.Length).Some?
    ensures ok ==> Some(out) == UrlDecode(input, 0, "", output.Length) && |out| < output.Length
    ensures ok ==> output[..|out| + 1] == out + ['\0']
  {
    var inPos, outPos := 0, 0;
    out := "";
    while inPos < |input|
      invariant inPos <= |input| && outPos == |out| < output.Length && output[..outPos] == out
      invariant UrlDecode(input, inPos, out, output.Length) == UrlDecode(input, 0, "", output.Length)
      decreases |input| - inPos
    {
      if outPos + 1 >= output.Length { return false, out; }
      var c := input[inPos];
      if c == '%' {
        if inPos + 2 >= |input| { return false, out; }
        var high, low := HexValue(input[inPos + 1]), HexValue(input[inPos + 2]);
        if high < 0 || low < 0 { return false, out; }
        c := (16 * high + low) as char;
        inPos := inPos + 3;
      } else {
        c := if c == '+' then ' ' else c;
        inPos := inPos + 1;
      }
      output[outPos] := c;
      out := out + [c];
      outPos := outPos + 1;
    }
    output[outPos] := '\0';
    ok := true;
  }

  lemma DecodeStep(t: string, i: nat, c: char, out: string, size: nat)
    requires At(t, EncodeChar(c), i) && c as int < 256
    ensures UrlDecode(t, i, out, size) ==
            if |out| + 1 < size then UrlDecode(t, i + |EncodeChar(c)|, out + [c], size) else None
  {
    var e := EncodeChar(c);
    assert t[i] == t[i..i + |e|][0] == e[0];
    if |e| == 3 {
      assert t[i + 1] == t[i..i + |e|][1] == e[1];
      assert t[i + 2] == t[i..i + |e|][2] == e[2];
    }
  }

  lemma FlatRest(f: char -> string, s: string, k: nat, t: string, i: nat)
    requires k < |s| && i <= |t| && t[i..] == Flat(f, s[k..])
    ensures At(t, f(s[k]), i) && t[i + |f(s[k])|..] == Flat(f, s[k + 1..])
  {
    FlatCons(f, s[k..]);
    assert s[k..][1..] == s[k + 1..];
    var n := |f(s[k])|;
    assert t[i..][..n] == f(s[k]) && t[i..][n..] == Flat(f, s[k + 1..]);
    assert t[i..][..n] == t[i..i + n] && t[i..][n..] == t[i + n..];
  }

  lemma {:induction false} DecodeFrom(s: string, k: nat, t: string, i: nat, size: nat)
    requires IsBytes(s) && k <= |s| && i <= |t| && t[i..] == Flat(EncodeChar, s[k..])
    ensures UrlDecode(t, i, s[..k], size) == if k == |s| || |s| < size then Some(s) else None
    decreases |s| - k
  {
    if k == |s| {
      assert s[..k] == s && s[k..] == "";
    } else {
      FlatRest(EncodeChar, s, k, t, i);
      DecodeStep(t, i, s[k], s[..k], size);
      assert s[..k] + [s[k]] == s[..k + 1];
      if k + 1 < size {
        DecodeFrom(s, k + 1, t, i + |EncodeChar(s[k])|, size);
      }
    }
  }

  /** Decoding undoes encoding, exactly for the strings that the output buffer holds. */
  lemma DecodeOfEncode(s: string, size: nat)
    requires IsBytes(s) && size > 0
    ensures UrlDecode(Encode(s), 0, "", size) == if |s| < size then Some(s) else None
  {
    assert s[..0] == "" && s[0..] == s && Encode(s)[0..] == Encode(s);
    DecodeFrom(s, 0, Encode(s), 0, size);
  }

  // ---------------------------------------------------------------- any encoding

  /** A hexadecimal digit in either case. */
  ghost predicate IsHexOf(c: char, d: nat)
  {
    d < 16 && (c == "0123456789abcdef"[d] || c == "0123456789ABCDEF"[d])
  }

  lemma HexValueIs(c: char, d: nat)
    ensures d < 16 ==> (HexValue(c) == d <==> IsHexOf(c, d))
  {
  }

  /** One way to write a character in a query: as it is, as '+' if it is a space, or as two hexadecimal digits. */
  ghost predicate Writes(piece: string, c: char)
  {
    || (piece == [c] && c != '%' && c != '+')
    || (piece == "+" && c == ' ')
    || (&& |piece| == 3 && piece[0] == '%'
        && exists a: nat, b: nat :: IsHexOf(piece[1], a) && IsHexOf(piece[2], b) && c as int == 16 * a + b)
  }

  function Glued(ps: seq<string>): string
  {
    if ps == [] then "" else ps[0] + Glued(ps[1..])
  }

  /** Pieces that write the string, character by character. */
  ghost predicate Spell(ps: seq<string>, s: string)
  {
    |ps| == |s| && forall k :: 0 <= k < |s| ==> Writes(ps[k], s[k])
  }

  lemma DecodesPiece(t: string, i: nat, piece: string, c: char, out: string, size: nat)
    requires i + |piece| <= |t| && t[i..i + |piece|] == piece && Writes(piece, c)
    ensures UrlDecode(t, i, out, size) ==
            if |out| + 1 < size then UrlDecode(t, i + |piece|, out + [c], size) else None
  {
    assert forall k :: 0 <= k < |piece| ==> t[i + k] == piece[k];
    if |piece| == 3 {
      var a: nat, b: nat :| IsHexOf(piece[1], a) && IsHexOf(piece[2], b) && c as int == 16 * a + b;
      HexValueIs(piece[1], a);
      HexValueIs(piece[2], b);
    }
  }

  /** However a string is written, decoding gives it back, exactly if it fits. */
  lemma {:induction false} DecodesSpelling(ps: seq<string>, s: string, t: string, i: nat, out: string, size: nat)
    requires Spell(ps, s) && i <= |t| && t[i..] == Glued(ps)
    ensures UrlDecode(t, i, out, size) == if s == "" || |out| + |s| < size then Some(out + s) else None
    decreases |s|
  {
    if s == "" {
      assert out + s == out;
    } else {
      var piece, rest := ps[0], Glued(ps[1..]);
      assert t[i..][..|piece|] == piece && t[i..][|piece|..] == rest;
      DecodesPiece(t, i, piece, s[0], out, size);
      DecodesSpelling(ps[1..], s[1..], t, i + |piece|, out + [s[0]], size);
      assert out + [s[0]] + s[1..] == out + s;
    }
  }

  /** url_decode as a function of where it stands. */
  type Decoder = (nat, string) -> Option<string>

  ghost predicate IsDecode(decode: Decoder, t: string, size: nat)
  {
    forall i: nat, out {:trigger UrlDecode(t, i, out, size)} ::
      i <= |t| ==> decode(i, out) == UrlDecode(t, i, out, size)
  }

  /** The character written at `i` of a text that is decoded. */
  lemma PieceAt(decode: Decoder, t: string, i: nat, out: string, size: nat) returns (piece: string, c: char)
    requires IsDecode(decode, t, size) && i < |t| && decode(i, out).Some?
    ensures Writes(piece, c) && i + |piece| <= |t| && t[i..] == piece + t[i + |piece|..] && |piece| > 0
    ensures decode(i, out) == decode(i + |piece|, out + [c])
  {
    assert decode(i, out) == UrlDecode(t, i, out, size);
    if t[i] == '%' {
      piece := t[i..i + 3];
      var a, b := HexValue(t[i + 1]), HexValue(t[i + 2]);
      c := (16 * a + b) as char;
      HexValueIs(t[i + 1], a);
      HexValueIs(t[i + 2], b);
      assert IsHexOf(piece[1], a) && IsHexOf(piece[2], b);
    } else {
      piece := t[i..i + 1];
      c := if t[i] == '+' then ' ' else t[i];
    }
    assert decode(i + |piece|, out + [c]) == UrlDecode(t, i + |piece|, out + [c], size);
  }

  /** And whatever decodes is a way to write what it decodes to. */
  lemma {:induction false} DecodedIsSpelled(decode: Decoder, t: string, i: nat, out: string, size: nat)
    returns (ps: seq<string>, s: string)
    requires IsDecode(decode, t, size) && i <= |t| && decode(i, out).Some?
    ensures Spell(ps, s) && t[i..] == Glued(ps) && decode(i, out) == Some(out + s)
    decreases |t| - i
  {
    if i == |t| {
      ps, s := [], "";
      DecodesEnd(decode, t, out, size);
    } else {
      var piece, c := PieceAt(decode, t, i, out, size);
      var qs, u := DecodedIsSpelled(decode, t, i + |piece|, out + [c], size);
      ps, s := [piece] + qs, [c] + u;
      SpellMore(piece, c, qs, u);
      SpelledText(t, i, piece, qs, out, c, u);
    }
  }

  lemma DecodesEnd(decode: Decoder, t: string, out: string, size: nat)
    requires IsDecode(decode, t, size)
    ensures decode(|t|, out) == Some(out + "")
  {
    assert decode(|t|, out) == UrlDecode(t, |t|, out, size) && out + "" == out;
  }

  lemma SpelledText(t: string, i: nat, piece: string, qs: seq<string>, out: string, c: char, u: string)
    requires i + |piece| <= |t| && t[i..] == piece + t[i + |piece|..] && t[i + |piece|..] == Glued(qs)
    requires Glued([piece] + qs) == piece + Glued(qs)
    ensures t[i..] == Glued([piece] + qs) && out + [c] + u == out + ([c] + u)
  {
  }

  lemma SpellMore(piece: string, c: char, ps: seq<string>, s: string)
    requires Writes(piece, c) && Spell(ps, s)
    ensures Spell([piece] + ps, [c] + s) && Glued([piece] + ps) == piece + Glued(ps)
  {
  }

  /** url_decode exactly: its result is the string that the text writes, in any of the ways, if that fits. */
  lemma DecodedExactly(t: string, s: string, size: nat)
    ensures UrlDecode(t, 0, "", size) == Some(s) <==>
            (s == "" || |s| < size) && exists ps :: Spell(ps, s) && t == Glued(ps)
  {
    assert t[0..] == t && "" + s == s;
    if ps :| Spell(ps, s) && t == Glued(ps) {
      DecodesSpelling(ps, s, t, 0, "", size);
    }
    if UrlDecode(t, 0, "", size) == Some(s) {
      var decode := (i: nat, out: string) => if i <= |t| then UrlDecode(t, i, out, size) else None;
      var ps, u := DecodedIsSpelled(decode, t, 0, "", size);
      assert "" + u == u;
      DecodesSpelling(ps, u, t, 0, "", size);
    }
  }

  // ---------------------------------------------------------------- queries

  /** char encoded[2048] in query_value */
  const ENCODED_SIZE: nat := 2048

  /** The loop of query_value on what is left of the query: the still encoded text of the first segment with the key. */
  function RawValue(q: string, key: string): Option<string>
    decreases |q|
  {
    if q == "" then None
    else
      var end, equals := Next(q, '&', 0), Next(q, '=', 0);
      if equals < end && q[..equals] == key then Some(q[equals + 1..end])
      else if end < |q| then RawValue(q[end + 1..], key)
      else None
  }

  /** query_value */
  function QueryValue(q: string, key: string, size: nat): Option<string>
  {
    var raw := RawValue(q, key);
    if raw.None? || |raw.value| + 1 > ENCODED_SIZE then None else UrlDecode(raw.value, 0, "", size)
  }

  lemma NextInRest(t: string, c: char, from: nat, rest: string)
    requires from <= |t| && rest == t[from..]
    ensures Next(t, c, from) == from + Next(rest, c, 0)
  {
    assert t == t[..from] + rest;
    NextShift(t[..from], rest, t, c, 0);
  }

  lemma RestSlices(t: string, from: nat, rest: string, i: nat, j: nat)
    requires from <= |t| && rest == t[from..] && i <= j <= |rest|
    ensures t[from + i..from + j] == rest[i..j] && t[from + j..] == rest[j..]
  {
  }

  /** A segment from `cursor` to `end`: its key and value, if there is an equals sign, and what comes after it. */
  datatype Cut = Cut(keyed: bool, name: string, value: string, next: string)

  function CutOf(query: string, cursor: nat, end: nat, equals: nat): Cut
    requires cursor <= end <= |query| && cursor <= equals <= |query|
  {
    Cut(equals < end, query[cursor..equals], if equals < end then query[equals + 1..end] else "",
        if end < |query| then query[end + 1..] else "")
  }

  /** It is the same seen in what is left of the query. */
  lemma SameCut(query: string, cursor: nat, left: string, n: nat, e: nat)
    requires cursor <= |query| && left == query[cursor..] && n <= |left| && e <= |left|
    ensures CutOf(query, cursor, cursor + n, cursor + e) == CutOf(left, 0, n, e)
  {
    RestSlices(query, cursor, left, 0, e);
    if e < n { RestSlices(query, cursor, left, e + 1, n); }
    if n < |left| { RestSlices(query, cursor, left, n + 1, n + 1); }
  }

  /** The text of the value, as a function of what is left of the query. */
  type RawReader = string -> Option<string>

  ghost predicate ReadsRaw(raw: RawReader, key: string)
  {
    forall q {:trigger RawValue(q, key)} :: raw(q) == RawValue(q, key)
  }

  lemma RawStep(raw: RawReader, q: string, key: string, cut: Cut)
    requires ReadsRaw(raw, key) && q != "" && cut == CutOf(q, 0, Next(q, '&', 0), Next(q, '=', 0))
    ensures raw(q) == if cut.keyed && cut.name == key then Some(cut.value) else raw(cut.next)
  {
    var equals := Next(q, '=', 0);
    assert q[0..equals] == q[..equals];
    assert raw(q) == RawValue(q, key) && raw(cut.next) == RawValue(cut.next, key);
  }

  /** The segment at the cursor: its value, or on to the next. */
  lemma SegmentAt(raw: RawReader, query: string, cursor: nat, left: string, key: string, n: nat, e: nat)
    requires ReadsRaw(raw, key) && cursor < |query| && left == query[cursor..]
    requires n == Next(left, '&', 0) && e == Next(left, '=', 0)
    ensures var cut := CutOf(query, cursor, cursor + n, cursor + e);
      raw(left) == if cut.keyed && cut.name == key then Some(cut.value) else raw(cut.next)
  {
    SameCut(query, cursor, left, n, e);
    RawStep(raw, left, key, CutOf(left, 0, n, e));
  }

  /** The loop of query_value over segments. */
  method FindSegment(query: string, key: string, ghost raw: RawReader) returns (r: Option<string>)
    requires ReadsRaw(raw, key)
    ensures r == raw(query)
  {
    var cursor := 0;
    ghost var left := query;
    while cursor < |query|
      invariant cursor <= |query| && left == query[cursor..] && raw(left) == raw(query)
      decreases |query| - cursor
    {
      var segmentEnd := Next(query, '&', cursor);
      var equals := Next(query, '=', cursor);
      NextInRest(query, '&', cursor, left);
      NextInRest(query, '=', cursor, left);
      SegmentAt(raw, query, cursor, left, key, segmentEnd - cursor, equals - cursor);
      if equals < segmentEnd && query[cursor..equals] == key { return Some(query[equals + 1..segmentEnd]); }
      cursor := if segmentEnd < |query| then segmentEnd + 1 else segmentEnd;
      left := query[cursor..];
    }
    RawEnd(raw, key);
    return None;
  }

  lemma RawEnd(raw: RawReader, key: string)
    requires ReadsRaw(raw, key)
    ensures raw("").None?
  {
    assert raw("") == RawValue("", key);
  }

  /** query_value */
  method QueryValueInto(query: string, key: string, output: array<char>) returns (ok: bool, ghost out: string)
    requires output.Length > 0
    modifies output
    ensures ok <==> QueryValue(query, key, output.Length).Some?
    ensures ok ==> Some(out) == QueryValue(query, key, output.Length) && |out| < output.Length
    ensures ok ==> output[..|out| + 1] == out + ['\0']
  {
    var raw := FindSegment(query, key, q => RawValue(q, key));
    if raw.None? || |raw.value| + 1 > ENCODED_SIZE { return false, ""; }
    ok, out := UrlDecodeInto(raw.value, output);
  }

  datatype Param = Param(key: string, value: string)

  /** A key that can stand in a query as it is. */
  predicate PlainKey(k: string) { k != "" && forall i :: 0 <= i < |k| ==> Unreserved(k[i]) }

  predicate NoAmp(s: string) { forall i :: 0 <= i < |s| ==> s[i] != '&' }

  function Segment(p: Param): string { p.key + "=" + p.value }

  /** key=value&key=value... */
  function RawText(ps: seq<Param>): string
    requires ps != []
  {
    if |ps| == 1 then Segment(ps[0]) else Segment(ps[0]) + "&" + RawText(ps[1..])
  }

  function EncodeAll(ps: seq<Param>): (es: seq<Param>)
    ensures |es| == |ps|
  {
    seq(|ps|, i requires 0 <= i < |ps| => Param(ps[i].key, Encode(ps[i].value)))
  }

  /** The same with the values percent-encoded. */
  function QueryText(ps: seq<Param>): string
    requires ps != []
  {
    RawText(EncodeAll(ps))
  }

  ghost predicate DistinctKeys(ps: seq<Param>)
  {
    && (forall i :: 0 <= i < |ps| ==> PlainKey(ps[i].key))
    && (forall i, j :: 0 <= i < j < |ps| ==> ps[i].key != ps[j].key)
  }

  lemma {:induction false} NoCharInFlat(f: char -> string, x: char, s: string)
    requires forall c, i :: 0 <= i < |f(c)| ==> f(c)[i] != x
    ensures forall i :: 0 <= i < |Flat(f, s)| ==> Flat(f, s)[i] != x
  {
    if s != "" {
      NoCharInFlat(f, x, s[..|s| - 1]);
    }
  }

  /** No ampersand comes out of the encoder, whatever goes in. */
  lemma NoAmpersand(s: string)
    ensures NoAmp(Encode(s))
  {
    NoCharInFlat(EncodeChar, '&', s);
  }

  /** The first segment of a query, by its key and value. */
  lemma FirstSegment(key: string, enc: string, rest: string, q: string)
    requires PlainKey(key) && NoAmp(enc) && q == key + "=" + enc + rest && (rest == "" || rest[0] == '&')
    ensures Next(q, '=', 0) == |key| && Next(q, '&', 0) == |key| + 1 + |enc|
    ensures q[..|key|] == key && q[|key| + 1..|key| + 1 + |enc|] == enc
  {
    var n := |key|;
    forall k | 0 <= k < n
      ensures q[k] != '=' && q[k] != '&'
    {
      assert q[k] == key[k] && Unreserved(key[k]);
    }
    forall k | n < k < n + 1 + |enc|
      ensures q[k] != '&'
    {
      assert q[k] == enc[k - n - 1];
    }
    assert q[n] == '=' && (rest != "" ==> q[n + 1 + |enc|] == rest[0]);
    NextIs(q, '=', 0, n);
    NextIs(q, '&', 0, n + 1 + |enc|);
  }

  /** It is taken if its key is asked for, else passed over. */
  lemma TakesOrSkips(key: string, enc: string, rest: string, q: string, asked: string)
    requires PlainKey(key) && NoAmp(enc) && q == key + "=" + enc + "&" + rest
    ensures RawValue(q, asked) == if asked == key then Some(enc) else RawValue(rest, asked)
  {
    assert q == key + "=" + enc + ("&" + rest);
    FirstSegment(key, enc, "&" + rest, q);
    assert q[|key| + 1 + |enc| + 1..] == rest;
  }

  lemma TakesLast(key: string, enc: string, q: string)
    requires PlainKey(key) && NoAmp(enc) && q == key + "=" + enc
    ensures RawValue(q, key) == Some(enc)
  {
    assert q == key + "=" + enc + "";
    FirstSegment(key, enc, "", q);
  }

  predicate PlainParam(p: Param) { PlainKey(p.key) && NoAmp(p.value) }

  ghost predicate AllPlain(ps: seq<Param>) { forall i :: 0 <= i < |ps| ==> PlainParam(ps[i]) }

  /** Asked for a key, the loop gets the value of the first segment with it. */
  lemma {:induction false} RawValueFound(ps: seq<Param>, i: nat, asked: string)
    requires AllPlain(ps) && i < |ps| && ps[i].key == asked && forall j :: 0 <= j < i ==> ps[j].key != asked
    ensures RawValue(RawText(ps), asked) == Some(ps[i].value)
    decreases i
  {
    assert PlainParam(ps[0]);
    if |ps| == 1 {
      TakesLast(ps[0].key, ps[0].value, RawText(ps));
    } else {
      TakesOrSkips(ps[0].key, ps[0].value, RawText(ps[1..]), RawText(ps), asked);
      if i > 0 {
        RawValueFound(ps[1..], i - 1, asked);
      }
    }
  }

  /** And nothing if there is none. */
  lemma {:induction false} RawValueMissing(ps: seq<Param>, asked: string)
    requires AllPlain(ps) && ps != [] && forall j :: 0 <= j < |ps| ==> ps[j].key != asked
    ensures RawValue(RawText(ps), asked) == None
    decreases |ps|
  {
    var p := ps[0];
    if |ps| == 1 {
      var q := RawText(ps);
      assert q == p.key + "=" + p.value + "";
      FirstSegment(p.key, p.value, "", q);
    } else {
      RawValueMissing(ps[1..], asked);
      TakesOrSkips(p.key, p.value, RawText(ps[1..]), RawText(ps), asked);
    }
  }

  /** A segment without an equals sign is passed over. */
  lemma BareSegment(seg: string, rest: string, asked: string)
    requires forall i :: 0 <= i < |seg| ==> seg[i] != '&' && seg[i] != '='
    ensures RawValue(seg + "&" + rest, asked) == RawValue(rest, asked)
  {
    var q := seg + "&" + rest;
    assert forall i :: 0 <= i < |seg| ==> q[i] == seg[i];
    assert q[|seg|] == '&' && q[|seg| + 1..] == rest;
    NextIs(q, '&', 0, |seg|);
    assert |seg| <= Next(q, '=', 0) by { NoneBefore(q, '=', 0, |seg|); }
  }

  lemma {:induction false} NoneBefore(t: string, c: char, p: nat, e: nat)
    requires p <= e <= |t| && forall k :: p <= k < e ==> t[k] != c
    ensures e <= Next(t, c, p)
    decreases e - p
  {
    if p < e {
      NoneBefore(t, c, p + 1, e);
    }
  }

  /** What the server gets for a parameter: the exact value if it fits both buffers, else nothing. */
  function Received(v: string, size: nat): Option<string>
  {
    if |Encode(v)| < ENCODED_SIZE && |v| < size then Some(v) else None
  }

  lemma EncodedParams(ps: seq<Param>)
    requires DistinctKeys(ps)
    ensures AllPlain(EncodeAll(ps))
  {
    forall i | 0 <= i < |ps|
      ensures PlainParam(EncodeAll(ps)[i])
    {
      NoAmpersand(ps[i].value);
    }
  }

  /** Whichever key is asked for, in any order, the server gets the client's value. */
  lemma QueryRoundTrip(ps: seq<Param>, i: nat, size: nat)
    requires ps != [] && DistinctKeys(ps) && i < |ps| && IsBytes(ps[i].value) && size > 0
    ensures QueryValue(QueryText(ps), ps[i].key, size) == Received(ps[i].value, size)
  {
    EncodedParams(ps);
    RawValueFound(EncodeAll(ps), i, ps[i].key);
    DecodeOfEncode(ps[i].value, size);
  }

  // ---------------------------------------------------------------- the client's endpoints

  /** char endpoint[1024] */
  const ENDPOINT_SIZE: nat := 1024

  /** char offset_text[64], size_text[64] in the handlers */
  const NUMBER_SIZE: nat := 64

  /** path=%s&offset=%lld&size=%zu */
  function ReadQuery(path: string, offset: int, size: nat): string
  {
    "path=" + Encode(path) + "&offset=" + Decimal(offset) + "&size=" + Decimal(size)
  }

  /** path=%s&offset=%lld */
  function WriteQuery(path: string, offset: int): string
  {
    "path=" + Encode(path) + "&offset=" + Decimal(offset)
  }

  /** path=%s */
  function SimpleQuery(path: string): string { "path=" + Encode(path) }

  function ReadEndpoint(path: string, offset: int, size: nat): Option<string>
  {
    var e := "/v1/read?" + ReadQuery(path, offset, size);
    if |e| < ENDPOINT_SIZE then Some(e) else None
  }

  function WriteEndpoint(path: string, offset: int): Option<string>
  {
    var e := "/v1/write?" + WriteQuery(path, offset);
    if |e| < ENDPOINT_SIZE then Some(e) else None
  }

  function SimpleEndpoint(prefix: string, path: string): Option<string>
  {
    var e := prefix + "?" + SimpleQuery(path);
    if |e| < ENDPOINT_SIZE then Some(e) else None
  }

  lemma {:induction false} UnreservedStays(s: string)
    requires forall i :: 0 <= i < |s| ==> Unreserved(s[i])
    ensures Encode(s) == s
  {
    if s != "" {
      UnreservedStays(s[..|s| - 1]);
      assert s == s[..|s| - 1] + [s[|s| - 1]];
    }
  }

  /** Printed numbers need no encoding. */
  lemma DecimalStays(n: int)
    ensures Encode(Decimal(n)) == Decimal(n) && IsBytes(Decimal(n))
  {
    var d := Digits(if n < 0 then -n else n);
    assert forall i :: 0 <= i < |d| ==> IsDigit(d[i]);
    assert forall i :: 0 <= i < |Decimal(n)| ==> Unreserved(Decimal(n)[i]);
    UnreservedStays(Decimal(n));
  }

  lemma {:induction false} EncodedLonger(f: char -> string, s: string)
    requires forall c :: |f(c)| >= 1
    ensures |s| <= |Flat(f, s)|
  {
    if s != "" {
      EncodedLonger(f, s[..|s| - 1]);
    }
  }

  lemma PathFits(path: string)
    requires |Encode(path)| < ENDPOINT_SIZE
    ensures Received(path, PATH_SIZE) == Some(path)
  {
    EncodedLonger(EncodeChar, path);
  }

  lemma NumberFits(n: int)
    requires LLONG_MIN <= n < 0x1_0000_0000_0000_0000
    ensures Received(Decimal(n), NUMBER_SIZE) == Some(Decimal(n))
  {
    DecimalStays(n);
    DecimalLength(n);
  }

  function Params(path: string, d: string, e: string): seq<Param>
  {
    [Param("path", path), Param("offset", d), Param("size", e)]
  }

  lemma ThreeSegments(path: string, d: string, e: string)
    ensures QueryText(Params(path, d, e)) == "path=" + Encode(path) + "&offset=" + Encode(d) + "&size=" + Encode(e)
  {
    var last, rest := [Param("size", Encode(e))], [Param("offset", Encode(d)), Param("size", Encode(e))];
    var all := [Param("path", Encode(path))] + rest;
    assert EncodeAll(Params(path, d, e)) == all;
    assert all[1..] == rest && rest[1..] == last;
    assert RawText(last) == Segment(last[0]);
    assert RawText(rest) == Segment(rest[0]) + "&" + RawText(last);
    assert "path" + "=" == "path=" && "&" + "offset" + "=" == "&offset=" && "&" + "size" + "=" == "&size=";
    Joined("path", Encode(path), "offset", Encode(d), "size", Encode(e));
  }

  lemma Joined(k: string, a: string, l: string, b: string, m: string, c: string)
    ensures (k + "=" + a) + "&" + ((l + "=" + b) + "&" + (m + "=" + c))
            == (k + "=") + a + ("&" + l + "=") + b + ("&" + m + "=") + c
  {
  }

  lemma ReadParams(path: string, offset: int, size: nat)
    ensures ReadQuery(path, offset, size) == QueryText(Params(path, Decimal(offset), Decimal(size)))
  {
    DecimalStays(offset);
    DecimalStays(size);
    ThreeSegments(path, Decimal(offset), Decimal(size));
  }

  lemma ParamsDistinct(path: string, d: string, e: string)
    ensures DistinctKeys(Params(path, d, e)) && DistinctKeys(Params(path, d, e)[..2])
  {
  }

  /** A read request whose endpoint fits its buffer: the handler gets the path and both numbers exactly. */
  lemma ReadQueryReceived(path: string, offset: int, size: nat)
    requires IsBytes(path) && ReadEndpoint(path, offset, size).Some?
    requires IsLong(offset) && size < 0x1_0000_0000_0000_0000
    ensures QueryValue(ReadQuery(path, offset, size), "path", PATH_SIZE) == Some(path)
    ensures QueryValue(ReadQuery(path, offset, size), "offset", NUMBER_SIZE) == Some(Decimal(offset))
    ensures QueryValue(ReadQuery(path, offset, size), "size", NUMBER_SIZE) == Some(Decimal(size))
  {
    var ps := Params(path, Decimal(offset), Decimal(size));
    ReadParams(path, offset, size);
    ParamsDistinct(path, Decimal(offset), Decimal(size));
    PathFits(path);
    NumberFits(offset);
    NumberFits(size);
    DecimalStays(offset);
    DecimalStays(size);
    QueryRoundTrip(ps, 0, PATH_SIZE);
    QueryRoundTrip(ps, 1, NUMBER_SIZE);
    QueryRoundTrip(ps, 2, NUMBER_SIZE);
  }

  lemma TwoSegments(path: string, d: string)
    ensures QueryText([Param("path", path), Param("offset", d)]) == "path=" + Encode(path) + "&offset=" + Encode(d)
  {
    var es := [Param("path", Encode(path)), Param("offset", Encode(d))];
    assert EncodeAll([Param("path", path), Param("offset", d)]) == es;
    assert es[1..] == [Param("offset", Encode(d))];
    assert RawText(es[1..]) == Segment(es[1]);
    assert RawText(es) == Segment(es[0]) + "&" + RawText(es[1..]);
    assert "path" + "=" == "path=" && "&" + "offset" + "=" == "&offset=";
    JoinedTwo("path", Encode(path), "offset", Encode(d));
  }

  lemma JoinedTwo(k: string, a: string, l: string, b: string)
    ensures (k + "=" + a) + "&" + (l + "=" + b) == (k + "=") + a + ("&" + l + "=") + b
  {
  }

  /** The same for a write request. */
  lemma WriteQueryReceived(path: string, offset: int)
    requires IsBytes(path) && WriteEndpoint(path, offset).Some? && IsLong(offset)
    ensures QueryValue(WriteQuery(path, offset), "path", PATH_SIZE) == Some(path)
    ensures QueryValue(WriteQuery(path, offset), "offset", NUMBER_SIZE) == Some(Decimal(offset))
  {
    var ps := [Param("path", path), Param("offset", Decimal(offset))];
    DecimalStays(offset);
    TwoSegments(path, Decimal(offset));
    PathFits(path);
    NumberFits(offset);
    QueryRoundTrip(ps, 0, PATH_SIZE);
    QueryRoundTrip(ps, 1, NUMBER_SIZE);
  }

  /** meta and list */
  lemma SimpleQueryReceived(prefix: string, path: string)
    requires IsBytes(path) && SimpleEndpoint(prefix, path).Some?
    ensures QueryValue(SimpleQuery(path), "path", PATH_SIZE) == Some(path)
  {
    assert EncodeAll([Param("path", path)]) == [Param("path", Encode(path))];
    assert SimpleQuery(path) == QueryText([Param("path", path)]);
    PathFits(path);
    QueryRoundTrip([Param("path", path)], 0, PATH_SIZE);
  }

  /** strtoll turns the received texts back into the numbers, saturating above LLONG_MAX. */
  lemma ReceivedNumber(n: int)
    requires IsLong(n)
    ensures Strtoll(Decimal(n)).0 == n
  {
    assert Decimal(n) + "" == Decimal(n);
    StrtollOfDecimal(n, "");
  }
}

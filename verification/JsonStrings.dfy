/**
  JSON strings as section 7 of RFC 8259 defines them, against both sides: what json_escape_string (src/json_utils.c)
  writes, and what json_get_string (demo/service_provider/c/httpfs_server.c) makes of any of them.
*/
module JsonStrings {
  import opened Base
  import opened CText
  import opened JsonBody

  /** The value of a hexadecimal digit, in either case. */
  function HexValue(c: char): Option<nat>
  {
    if '0' <= c <= '9' then Some(c as int - '0' as int)
    else if 'a' <= c <= 'f' then Some(c as int - 'a' as int + 10)
    else if 'A' <= c <= 'F' then Some(c as int - 'A' as int + 10)
    else None
  }

  /** The character that four hexadecimal digits stand for; halves of surrogate pairs are left out. */
  function CodeOf(h: string): Option<char>
    requires |h| == 4
  {
    var a, b, c, d := HexValue(h[0]), HexValue(h[1]), HexValue(h[2]), HexValue(h[3]);
    if a.None? || b.None? || c.None? || d.None? then None
    else
      var n := 4096 * a.value + 256 * b.value + 16 * c.value + d.value;
      if 0xd800 <= n < 0xe000 then None else Some(n as char)
  }

  /** The character that a backslash and this character stand for. */
  function Named(c: char): Option<char>
  {
    if c == '"' || c == '\\' || c == '/' then Some(c)
    else if c == 'b' then Some('\U{0008}')
    else if c == 'f' then Some('\U{000c}')
    else if c == 'n' then Some('\n')
    else if c == 'r' then Some('\r')
    else if c == 't' then Some('\t')
    else None
  }

  function Cons(c: Option<char>, rest: Option<string>): Option<string>
  {
    if c.None? || rest.None? then None else Some([c.value] + rest.value)
  }

  /** What the text between the quotes stands for, if it is that of a JSON string. */
  function Standard(raw: string): Option<string>
    decreases |raw|
  {
    if raw == "" then Some("")
    else if raw[0] < ' ' || raw[0] == '"' then None
    else if raw[0] != '\\' then Cons(Some(raw[0]), Standard(raw[1..]))
    else if |raw| < 2 then None
    else if raw[1] != 'u' then Cons(Named(raw[1]), Standard(raw[2..]))
    else if |raw| < 6 then None
    else Cons(CodeOf(raw[2..6]), Standard(raw[6..]))
  }

  // ---------------------------------------------------------------- what the client writes

  lemma CodeOfControl(c: char, h: string)
    requires c < ' ' && h == "00" + [HexDigit(c as int / 16), HexDigit(c as int % 16)]
    ensures CodeOf(h) == Some(c)
  {
    assert c as int / 16 == 0 || c as int / 16 == 1;
    HexDigitValue(c as int / 16);
    HexDigitValue(c as int % 16);
  }

  lemma HexDigitValue(d: nat)
    requires d < 16
    ensures HexValue(HexDigit(d)) == Some(d)
  {
  }

  lemma StandardPiece(c: char, rest: string)
    ensures Standard(EscapeChar(c) + rest) == Cons(Some(c), Standard(rest))
  {
    var piece, t := EscapeChar(c), EscapeChar(c) + rest;
    assert t[|piece|..] == rest;
    if |piece| == 6 {
      assert t[2..6] == "00" + [HexDigit(c as int / 16), HexDigit(c as int % 16)];
      CodeOfControl(c, t[2..6]);
    }
  }

  /** Whatever json_escape_string is given, what it writes is a JSON string that stands for it. */
  lemma {:induction false} EscapeIsStandard(s: string)
    ensures Standard(Escape(s)) == Some(s)
  {
    if s != "" {
      EscapeIsStandard(s[1..]);
      FlatCons(EscapeChar, s);
      StandardPiece(s[0], Escape(s[1..]));
      assert [s[0]] + s[1..] == s;
    }
  }

  // ---------------------------------------------------------------- what the server reads

  /** Without the escapes that json_get_string does not know. */
  predicate Readable(raw: string)
    decreases |raw|
  {
    if raw == "" then true
    else if raw[0] != '\\' then Readable(raw[1..])
    else |raw| >= 2 && raw[1] !in {'b', 'f', 'u'} && Readable(raw[2..])
  }

  /** The characters of one unit of the text: a plain one, a two-character escape, or a number. */
  function UnitLength(raw: string): nat
    requires raw != ""
  {
    if raw[0] != '\\' then 1 else if |raw| >= 2 && raw[1] == 'u' then 6 else 2
  }

  lemma AtUnit(t: string, raw: string, i: nat, n: nat)
    requires At(t, raw + "\"", i) && n <= |raw|
    ensures At(t, raw[n..] + "\"", i + n) && forall k :: 0 <= k < n ==> t[i + k] == raw[k]
  {
    assert raw + "\"" == raw[..n] + (raw[n..] + "\"");
    AtSplits(t, raw[..n], raw[n..] + "\"", i);
    forall k | 0 <= k < n
      ensures t[i + k] == raw[k]
    {
      assert t[i + k] == t[i..i + n][k];
    }
  }

  /**
    json_get_string on any JSON string, not only on those that the client writes: it yields what the string stands for,
    exactly if the string has none of the escapes that it does not know and what it stands for fits.
  */
  lemma {:induction false} ReadsStandard(t: string, raw: string, i: nat, out: string, size: nat)
    requires At(t, raw + "\"", i) && Standard(raw).Some?
    ensures Unescape(t, i, out, size) ==
            var v := Standard(raw).value;
            if Readable(raw) && (raw == "" || |out| + |v| + 1 < size) then Some(out + v) else None
    decreases |raw|
  {
    AtUnit(t, raw, i, 0);
    if raw == "" {
      assert out + "" == out && t[i] == (raw + "\"")[0];
    } else {
      var n := UnitLength(raw);
      if n < 6 {
        ReadsUnit(t, raw, i, out, size);
        var c, v := Standard(raw).value[0], Standard(raw[n..]).value;
        AtUnit(t, raw, i, n);
        ReadsStandard(t, raw[n..], i + n, out + [c], size);
        Regrouped(out, c, v);
      } else {
        AtUnit(t, raw, i, 2);
      }
    }
  }

  lemma Regrouped(out: string, c: char, v: string)
    ensures out + [c] + v == out + ([c] + v) && |out + [c]| + |v| == |out| + |[c] + v|
  {
  }

  /** One unit that is not a number. */
  lemma ReadsUnit(t: string, raw: string, i: nat, out: string, size: nat)
    requires At(t, raw + "\"", i) && Standard(raw).Some? && raw != "" && UnitLength(raw) < 6
    ensures var n := UnitLength(raw);
      && n <= |raw| && Standard(raw[n..]).Some?
      && Standard(raw).value == [Standard(raw).value[0]] + Standard(raw[n..]).value
      && Unescape(t, i, out, size) ==
         if (raw[0] == '\\' && raw[1] in {'b', 'f'}) || |out| + 2 >= size then None
         else Unescape(t, i + n, out + [Standard(raw).value[0]], size)
  {
    AtUnit(t, raw, i, UnitLength(raw));
  }
}

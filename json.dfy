/** Property values and their text as `JSON.stringify` writes it. String
    escaping follows QuoteJSONString, section 25.5.2.2 of ECMA-262; its partner
    is a reader for the escape sequences it emits (the JSON string grammar,
    whose escapes Cypher's double-quoted string literal also reads), and the
    two make a round trip. */
module Json {
  import opened Util
  import opened Decimal

  /** A property value. Numbers are integers only (see README). */
  datatype Value =
    | Null
    | Bool(b: bool)
    | Num(n: int)
    | Str(s: string)
    | Arr(items: seq<Value>)
    | Obj(fields: seq<(string, Value)>)

  /** A JavaScript object: its own keys with their values, in insertion order. */
  type Props = seq<(string, Value)>

  const Backspace: char := 8 as char
  const Tab: char := 9 as char
  const LineFeed: char := 10 as char
  const FormFeed: char := 12 as char
  const CarriageReturn: char := 13 as char

  function HexDigit(d: nat): char
    requires d < 16
  {
    ['0', '1', '2', '3', '4', '5', '6', '7', '8', '9', 'a', 'b', 'c', 'd', 'e', 'f'][d]
  }

  predicate IsHex(c: char)
  {
    '0' <= c <= '9' || 'a' <= c <= 'f' || 'A' <= c <= 'F'
  }

  function HexValue(c: char): (d: nat)
    requires IsHex(c)
    ensures d < 16
  {
    if '0' <= c <= '9' then (c as int - '0' as int) as nat
    else if 'a' <= c <= 'f' then (c as int - 'a' as int + 10) as nat
    else (c as int - 'A' as int + 10) as nat
  }

  lemma HexRoundTrip(d: nat)
    requires d < 16
    ensures IsHex(HexDigit(d)) && HexValue(HexDigit(d)) == d
  {
  }

  /** UnicodeEscape: `\u` and four lower-case hexadecimal digits. */
  function UnicodeEscape(n: nat): string
    requires n < 0x1_0000
  {
    ['\\', 'u', HexDigit(n / 0x1000), HexDigit(n / 0x100 % 16), HexDigit(n / 16 % 16), HexDigit(n % 16)]
  }

  /** The text QuoteJSONString writes for one character. */
  function EscapeChar(c: char): string
  {
    if c == Backspace then "\\b"
    else if c == Tab then "\\t"
    else if c == LineFeed then "\\n"
    else if c == FormFeed then "\\f"
    else if c == CarriageReturn then "\\r"
    else if c == '"' then "\\\""
    else if c == '\\' then "\\\\"
    else if c < ' ' then UnicodeEscape(c as nat)
    else [c]
  }

  function QuoteBody(s: string): string
  {
    if |s| == 0 then "" else EscapeChar(s[0]) + QuoteBody(s[1..])
  }

  /** QuoteJSONString: the string between double quotes with `"`, `\` and
      control characters escaped. */
  function Quote(s: string): (r: string)
    ensures |r| >= 2 && r[0] == '"' && r[|r| - 1] == '"'
  {
    "\"" + QuoteBody(s) + "\""
  }

  function Prepend(c: char, o: Option<string>): Option<string>
  {
    match o
    case None => None
    case Some(s) => Some([c] + s)
  }

  /** Reads the inside of a double-quoted string literal: escape sequences are
      decoded, a bare `"` or control character is an error. */
  function UnquoteBody(t: string): Option<string>
    decreases |t|
  {
    if |t| == 0 then Some("")
    else if t[0] == '\\' then
      if |t| < 2 then None
      else if t[1] == 'u' then
        if |t| < 6 || !(IsHex(t[2]) && IsHex(t[3]) && IsHex(t[4]) && IsHex(t[5])) then None
        else
          var n := HexValue(t[2]) * 0x1000 + HexValue(t[3]) * 0x100 + HexValue(t[4]) * 16 + HexValue(t[5]);
          if 0xD800 <= n < 0xE000 then None
          else Prepend(n as char, UnquoteBody(t[6..]))
      else
        var c := match t[1]
          case '"' => Some('"')
          case '\\' => Some('\\')
          case '/' => Some('/')
          case 'b' => Some(Backspace)
          case 'f' => Some(FormFeed)
          case 'n' => Some(LineFeed)
          case 'r' => Some(CarriageReturn)
          case 't' => Some(Tab)
          case _ => None;
        if c.None? then None else Prepend(c.value, UnquoteBody(t[2..]))
    else if t[0] == '"' || t[0] < ' ' then None
    else Prepend(t[0], UnquoteBody(t[1..]))
  }

  function Unquote(t: string): Option<string>
  {
    if |t| >= 2 && t[0] == '"' && t[|t| - 1] == '"' then UnquoteBody(t[1..|t| - 1]) else None
  }

  /** The two-character escapes read back. */
  lemma UnquoteShortEscape(c: char, rest: string)
    requires c == Backspace || c == Tab || c == LineFeed || c == FormFeed || c == CarriageReturn
             || c == '"' || c == '\\'
    ensures UnquoteBody(EscapeChar(c) + rest) == Prepend(c, UnquoteBody(rest))
  {
    var t := EscapeChar(c) + rest;
    assert |EscapeChar(c)| == 2 && EscapeChar(c)[0] == '\\';
    assert t[2..] == rest;
  }

  lemma ControlEscape(n: nat)
    requires n < 32
    ensures UnicodeEscape(n) == ['\\', 'u', '0', '0', HexDigit(n / 16), HexDigit(n % 16)]
  {
    assert n / 0x1000 == 0 && n / 0x100 % 16 == 0 && n / 16 % 16 == n / 16;
  }

  /** The `\u` escapes of the other control characters read back. */
  lemma UnquoteUnicodeEscape(c: char, rest: string)
    requires c < ' ' && c != Backspace && c != Tab && c != LineFeed && c != FormFeed && c != CarriageReturn
    ensures UnquoteBody(EscapeChar(c) + rest) == Prepend(c, UnquoteBody(rest))
  {
    var n := c as nat;
    var hi, lo := HexDigit(n / 16), HexDigit(n % 16);
    ControlEscape(n);
    assert EscapeChar(c) == ['\\', 'u', '0', '0', hi, lo];
    var t := EscapeChar(c) + rest;
    HexRoundTrip(n / 16);
    HexRoundTrip(n % 16);
    assert HexValue('0') == 0;
    assert t[2] == '0' && t[3] == '0' && t[4] == hi && t[5] == lo;
    assert HexValue(t[2]) * 0x1000 + HexValue(t[3]) * 0x100 + HexValue(t[4]) * 16 + HexValue(t[5]) == n;
    assert t[6..] == rest;
  }

  lemma UnquoteEscapeChar(c: char, rest: string)
    ensures UnquoteBody(EscapeChar(c) + rest) == Prepend(c, UnquoteBody(rest))
  {
    if c == Backspace || c == Tab || c == LineFeed || c == FormFeed || c == CarriageReturn
       || c == '"' || c == '\\' {
      UnquoteShortEscape(c, rest);
    } else if c < ' ' {
      UnquoteUnicodeEscape(c, rest);
    } else {
      var t := EscapeChar(c) + rest;
      assert EscapeChar(c) == [c];
      assert t[1..] == rest;
    }
  }

  lemma {:induction false} UnquoteQuoteBody(s: string)
    ensures UnquoteBody(QuoteBody(s)) == Some(s)
  {
    if |s| > 0 {
      assert QuoteBody(s) == EscapeChar(s[0]) + QuoteBody(s[1..]);
      UnquoteEscapeChar(s[0], QuoteBody(s[1..]));
      UnquoteQuoteBody(s[1..]);
      assert [s[0]] + s[1..] == s;
    }
  }

  /** Round trip: reading the quoted text gives back exactly the original
      string, whatever quotes, backslashes, backticks or control characters
      it holds. */
  lemma QuoteRoundTrip(s: string)
    ensures Unquote(Quote(s)) == Some(s)
  {
    var q := Quote(s);
    assert q[1..|q| - 1] == QuoteBody(s);
    UnquoteQuoteBody(s);
  }

  /** Different strings quote differently. */
  lemma QuoteInjective(s: string, t: string)
    ensures Quote(s) == Quote(t) <==> s == t
  {
    QuoteRoundTrip(s);
    QuoteRoundTrip(t);
  }

  /** `JSON.stringify(v)`. */
  function Stringify(v: Value): string
    decreases v
  {
    match v
    case Null => "null"
    case Bool(b) => if b then "true" else "false"
    case Num(n) => ShowInt(n)
    case Str(s) => Quote(s)
    case Arr(items) =>
      "[" + Join(",", seq(|items|, i requires 0 <= i < |items| => Stringify(items[i]))) + "]"
    case Obj(fields) =>
      "{" + Join(",", seq(|fields|, i requires 0 <= i < |fields| =>
                        Quote(fields[i].0) + ":" + Stringify(fields[i].1))) + "}"
  }

  /** The scalar cases of `JSON.stringify` read back to the value they came
      from: a string through the string-literal reader, a number through the
      decimal reader. */
  lemma StringifyScalarRoundTrip(v: Value)
    requires v.Str? || v.Num?
    ensures v.Str? ==> Unquote(Stringify(v)) == Some(v.s)
    ensures v.Num? ==> ParseInt(Stringify(v)) == Some(v.n)
  {
    if v.Str? {
      QuoteRoundTrip(v.s);
    } else {
      ParseShowInt(v.n);
    }
  }

  /** The object with every field named `key` taken out, as deleting a
      property does. */
  function Without(props: Props, key: string): (r: Props)
    ensures forall i :: 0 <= i < |r| ==> r[i].0 != key
    ensures forall p :: p in r <==> p in props && p.0 != key
  {
    if |props| == 0 then []
    else if props[0].0 == key then Without(props[1..], key)
    else [props[0]] + Without(props[1..], key)
  }

  /** Deleting a key the object does not have leaves it unchanged. */
  lemma {:induction false} WithoutAbsent(props: Props, key: string)
    requires forall i :: 0 <= i < |props| ==> props[i].0 != key
    ensures Without(props, key) == props
  {
    if |props| > 0 {
      WithoutAbsent(props[1..], key);
    }
  }

  /** `delete` works field by field. */
  lemma {:induction false} WithoutSplit(a: Props, b: Props, key: string)
    ensures Without(a + b, key) == Without(a, key) + Without(b, key)
  {
    if |a| > 0 {
      assert (a + b)[0] == a[0];
      assert (a + b)[1..] == a[1..] + b;
      WithoutSplit(a[1..], b, key);
    } else {
      assert a + b == b;
    }
  }

  /** Deleting a key held by one field takes out that field and keeps the
      others in their order. */
  lemma WithoutAt(props: Props, key: string, x: nat)
    requires x < |props| && props[x].0 == key
    requires forall i :: 0 <= i < |props| && i != x ==> props[i].0 != key
    ensures Without(props, key) == props[..x] + props[x + 1..]
  {
    var before, after := props[..x], props[x + 1..];
    assert props == before + ([props[x]] + after);
    assert forall i :: 0 <= i < |before| ==> before[i].0 != key by {
      forall i | 0 <= i < |before| ensures before[i].0 != key {
        assert before[i] == props[i];
      }
    }
    assert forall i :: 0 <= i < |after| ==> after[i].0 != key by {
      forall i | 0 <= i < |after| ensures after[i].0 != key {
        assert after[i] == props[x + 1 + i];
      }
    }
    WithoutSplit(before, [props[x]] + after, key);
    WithoutSplit([props[x]], after, key);
    WithoutAbsent(before, key);
    WithoutAbsent(after, key);
    assert Without([props[x]], key) == [];
  }
}

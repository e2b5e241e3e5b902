/** The property-map text `createParamString` writes (seraph-snapshot.js:37-40)
    read back: `{`key`:value,...}`, each key between backticks and each value
    as `JSON.stringify` writes it. Keys without a backtick and scalar values
    make a round trip; a key holding a backtick can close its quotes early, as
    a label can. */
module ParamText {
  import opened Util
  import opened Decimal
  import opened Json
  import opened Compiler

  /** The values whose text the reader below reads: null, booleans, integers
      and strings. */
  predicate Scalar(v: Value)
  {
    v.Null? || v.Bool? || v.Num? || v.Str?
  }

  /** The properties `ParamsRoundTrip` is about: no key holds a backtick and
      every value is a scalar. */
  predicate Plain(props: Props)
  {
    forall i :: 0 <= i < |props| ==> '`' !in props[i].0 && Scalar(props[i].1)
  }

  /** Length of the inside of a string literal: the text up to the first
      double quote that no backslash escapes, or all of `t`. */
  function ScanString(t: string): (k: nat)
    ensures k <= |t|
    decreases |t|
  {
    if |t| == 0 || t[0] == '"' then 0
    else if t[0] == '\\' && |t| >= 2 then 2 + ScanString(t[2..])
    else 1 + ScanString(t[1..])
  }

  /** Length of the run of minus signs and digits at the front of `t`. */
  function NumberRun(t: string): (k: nat)
    ensures k <= |t|
    decreases |t|
  {
    if |t| > 0 && (t[0] == '-' || IsDigit(t[0])) then 1 + NumberRun(t[1..]) else 0
  }

  /** Reads one scalar value at the front of `t`, with the length of its text. */
  function ReadValue(t: string): (r: Option<(Value, nat)>)
    ensures r.Some? ==> 0 < r.value.1 <= |t|
  {
    if |t| == 0 then None
    else if t[0] == '"' then
      var m := ScanString(t[1..]);
      if m == |t| - 1 then None
      else match Unquote(t[..m + 2])
        case None => None
        case Some(s) => Some((Str(s), m + 2))
    else if |t| >= 4 && t[..4] == "null" then Some((Null, 4))
    else if |t| >= 4 && t[..4] == "true" then Some((Bool(true), 4))
    else if |t| >= 5 && t[..5] == "false" then Some((Bool(false), 5))
    else
      var m := NumberRun(t);
      if m == 0 then None
      else match ParseInt(t[..m])
        case None => None
        case Some(n) => Some((Num(n), m))
  }

  /** Reads one `key`:value entry at the front of `t`, with the length of its
      text; the key ends at the first backtick. */
  function ReadEntry(t: string): (r: Option<((string, Value), nat)>)
    ensures r.Some? ==> 0 < r.value.1 <= |t|
  {
    if |t| == 0 || t[0] != '`' then None
    else
      var k := TickIndex(t[1..]);
      if k + 2 >= |t| || t[k + 2] != ':' then None
      else match ReadValue(t[k + 3..])
        case None => None
        case Some(vm) => Some(((t[1..k + 1], vm.0), k + 3 + vm.1))
  }

  /** Reads entries separated by commas up to the closing brace. */
  function ReadEntries(t: string): Option<Props>
    decreases |t|
  {
    match ReadEntry(t)
    case None => None
    case Some(em) =>
      var rest := t[em.1..];
      if rest == "}" then Some([em.0])
      else if |rest| > 0 && rest[0] == ',' then
        match ReadEntries(rest[1..])
        case None => None
        case Some(more) => Some([em.0] + more)
      else None
  }

  /** Reads a whole property map. */
  function ReadParams(t: string): Option<Props>
  {
    if t == "{}" then Some([])
    else if |t| > 0 && t[0] == '{' then ReadEntries(t[1..])
    else None
  }

  /** What may follow a value inside a property map. */
  predicate ValueEnd(rest: string)
  {
    |rest| == 0 || rest[0] == ',' || rest[0] == '}'
  }

  /** The scanner steps over characters that are neither quotes nor backslashes. */
  lemma {:induction false} ScanPlain(x: string, rest: string)
    requires forall i :: 0 <= i < |x| ==> x[i] != '"' && x[i] != '\\'
    ensures ScanString(x + rest) == |x| + ScanString(rest)
  {
    if |x| > 0 {
      assert (x + rest)[0] == x[0];
      assert (x + rest)[1..] == x[1..] + rest;
      ScanPlain(x[1..], rest);
    } else {
      assert x + rest == rest;
    }
  }

  /** The scanner steps over a two-character escape. */
  lemma ScanShortEscape(c: char, rest: string)
    requires c == Backspace || c == Tab || c == LineFeed || c == FormFeed || c == CarriageReturn
             || c == '"' || c == '\\'
    ensures ScanString(EscapeChar(c) + rest) == |EscapeChar(c)| + ScanString(rest)
  {
    var t := EscapeChar(c) + rest;
    assert |EscapeChar(c)| == 2 && EscapeChar(c)[0] == '\\';
    assert t[0] == '\\' && t[2..] == rest;
  }

  /** The scanner steps over the `\u` escape of a control character. */
  lemma ScanUnicodeEscape(c: char, rest: string)
    requires c < ' ' && c != Backspace && c != Tab && c != LineFeed && c != FormFeed && c != CarriageReturn
    ensures ScanString(EscapeChar(c) + rest) == |EscapeChar(c)| + ScanString(rest)
  {
    var n := c as nat;
    var digits := ['0', '0', HexDigit(n / 16), HexDigit(n % 16)];
    ControlEscape(n);
    assert UnicodeEscape(n) == ['\\', 'u'] + digits;
    assert EscapeChar(c) == UnicodeEscape(n);
    HexRoundTrip(n / 16);
    HexRoundTrip(n % 16);
    ScanBackslashU(digits, rest);
  }

  /** The scanner steps over a `\u` escape with four hexadecimal digits. */
  lemma ScanBackslashU(digits: string, rest: string)
    requires |digits| == 4 && forall i :: 0 <= i < 4 ==> IsHex(digits[i])
    ensures ScanString(['\\', 'u'] + digits + rest) == 6 + ScanString(rest)
  {
    var t := ['\\', 'u'] + digits + rest;
    assert t[0] == '\\' && t[2..] == digits + rest;
    ScanPlain(digits, rest);
  }

  /** The scanner steps over the whole escape of one character. */
  lemma ScanEscapeChar(c: char, rest: string)
    ensures ScanString(EscapeChar(c) + rest) == |EscapeChar(c)| + ScanString(rest)
  {
    if c == Backspace || c == Tab || c == LineFeed || c == FormFeed || c == CarriageReturn
       || c == '"' || c == '\\' {
      ScanShortEscape(c, rest);
    } else if c < ' ' {
      ScanUnicodeEscape(c, rest);
    } else {
      assert EscapeChar(c) == [c];
      ScanPlain([c], rest);
    }
  }

  /** The scanner steps over the whole quoted body of a string. */
  lemma {:induction false} ScanQuoteBody(s: string, rest: string)
    ensures ScanString(QuoteBody(s) + rest) == |QuoteBody(s)| + ScanString(rest)
  {
    if |s| > 0 {
      var e, b := EscapeChar(s[0]), QuoteBody(s[1..]);
      assert QuoteBody(s) == e + b;
      ScanEscapeChar(s[0], b + rest);
      ScanQuoteBody(s[1..], rest);
      AppendAssoc(e, b, rest);
    } else {
      assert QuoteBody(s) + rest == rest;
    }
  }

  lemma AppendAssoc(e: string, b: string, rest: string)
    ensures e + b + rest == e + (b + rest)
  {
  }

  /** A quoted string reads back as that string. */
  lemma ReadQuoted(s: string, rest: string)
    ensures ReadValue(Quote(s) + rest) == Some((Str(s), |Quote(s)|))
  {
    QuotedText(s, rest);
    ReadStringAt(Quote(s) + rest, |QuoteBody(s)|, s);
  }

  /** How the scanner and the unquoting see a quoted string at the front. */
  lemma QuotedText(s: string, rest: string)
    ensures var t, m := Quote(s) + rest, |QuoteBody(s)|;
      |Quote(s)| == m + 2 && t[0] == '"' && ScanString(t[1..]) == m && Unquote(t[..m + 2]) == Some(s)
  {
    var t := Quote(s) + rest;
    var b := QuoteBody(s);
    assert t[1..] == b + ("\"" + rest);
    ScanQuoteBody(s, "\"" + rest);
    assert t[..|b| + 2] == Quote(s);
    QuoteRoundTrip(s);
  }

  /** `ReadValue` on a string literal whose parts have already been read. */
  lemma ReadStringAt(t: string, m: nat, s: string)
    requires m + 2 <= |t| && t[0] == '"' && ScanString(t[1..]) == m && Unquote(t[..m + 2]) == Some(s)
    ensures ReadValue(t) == Some((Str(s), m + 2))
  {
  }

  lemma {:induction false} NumberRunOver(x: string, rest: string)
    requires forall i :: 0 <= i < |x| ==> x[i] == '-' || IsDigit(x[i])
    ensures NumberRun(x + rest) == |x| + NumberRun(rest)
  {
    if |x| > 0 {
      assert (x + rest)[0] == x[0];
      assert (x + rest)[1..] == x[1..] + rest;
      NumberRunOver(x[1..], rest);
    } else {
      assert x + rest == rest;
    }
  }

  /** An integer's text reads back as that integer when a separator follows. */
  lemma ReadNumber(n: int, rest: string)
    requires ValueEnd(rest)
    ensures ReadValue(ShowInt(n) + rest) == Some((Num(n), |ShowInt(n)|))
  {
    NumberText(n, rest);
    ReadNumberAt(ShowInt(n) + rest, |ShowInt(n)|, n);
  }

  /** How the number scanner and the integer parser see an integer's text. */
  lemma NumberText(n: int, rest: string)
    requires ValueEnd(rest)
    ensures var x := ShowInt(n); var t := x + rest;
      0 < |x| <= |t| && (t[0] == '-' || IsDigit(t[0])) && NumberRun(t) == |x| && ParseInt(t[..|x|]) == Some(n)
  {
    var x := ShowInt(n);
    var t := x + rest;
    assert forall i :: 0 <= i < |x| ==> x[i] == '-' || IsDigit(x[i]) by {
      if n < 0 {
        assert forall i :: 1 <= i < |x| ==> x[i] == ShowNat(-n)[i - 1];
      }
    }
    assert t[0] == x[0];
    NumberRunOver(x, rest);
    assert t[..|x|] == x;
    ParseShowInt(n);
  }

  /** `ReadValue` on a number whose parts have already been read. */
  lemma ReadNumberAt(t: string, m: nat, n: int)
    requires 0 < m <= |t| && (t[0] == '-' || IsDigit(t[0])) && NumberRun(t) == m && ParseInt(t[..m]) == Some(n)
    ensures ReadValue(t) == Some((Num(n), m))
  {
    if |t| >= 4 {
      assert t[..4][0] == t[0];
    }
    if |t| >= 5 {
      assert t[..5][0] == t[0];
    }
  }

  /** Every scalar value's `JSON.stringify` text reads back as that value. */
  lemma ReadValueStringify(v: Value, rest: string)
    requires Scalar(v) && ValueEnd(rest)
    ensures ReadValue(Stringify(v) + rest) == Some((v, |Stringify(v)|))
  {
    match v
    case Str(s) => ReadQuoted(s, rest);
    case Num(n) => ReadNumber(n, rest);
    case Null => assert (Stringify(v) + rest)[..4] == "null";
    case Bool(b) =>
      if b {
        assert (Stringify(v) + rest)[..4] == "true";
      } else {
        assert (Stringify(v) + rest)[..5] == "false";
      }
  }

  /** One entry with a backtick-free key and a scalar value reads back. */
  lemma ReadParam(p: (string, Value), rest: string)
    requires '`' !in p.0 && Scalar(p.1) && ValueEnd(rest)
    ensures ReadEntry(Param(p) + rest) == Some((p, |Param(p)|))
  {
    var sv := Stringify(p.1);
    ReadValueStringify(p.1, rest);
    ReadKeyed(p, sv, rest);
    assert Param(p) == "`" + p.0 + "`:" + sv;
  }

  /** A backtick-quoted key, a colon and the text of a value read back as that
      entry. */
  lemma ReadKeyed(p: (string, Value), sv: string, rest: string)
    requires '`' !in p.0 && ReadValue(sv + rest) == Some((p.1, |sv|))
    ensures ReadEntry("`" + p.0 + "`:" + sv + rest) == Some((p, |"`" + p.0 + "`:" + sv|))
  {
    var key := p.0;
    var t := "`" + key + "`:" + sv + rest;
    KeyedText(key, sv, rest);
    TickIndexAfter(key, ":" + sv + rest);
    ReadEntryAt(t, |key|, (p.1, |sv|));
  }

  /** Where the key, the colon and the value's text sit in an entry. */
  lemma KeyedText(key: string, sv: string, rest: string)
    ensures var t, k := "`" + key + "`:" + sv + rest, |key|;
      |t| > k + 2 && t[0] == '`' && t[1..] == key + "`" + (":" + sv + rest) && t[k + 2] == ':'
      && t[k + 3..] == sv + rest && t[1..k + 1] == key
  {
    var t := "`" + key + "`:" + sv + rest;
    var k := |key|;
    assert t[1..] == key + "`" + (":" + sv + rest);
    assert t[k + 3..] == sv + rest;
    assert t[1..k + 1] == key;
  }

  /** `ReadEntry` on text whose parts have already been read. */
  lemma ReadEntryAt(t: string, k: nat, vm: (Value, nat))
    requires |t| > k + 2 && t[0] == '`' && TickIndex(t[1..]) == k && t[k + 2] == ':'
    requires ReadValue(t[k + 3..]) == Some(vm)
    ensures ReadEntry(t) == Some(((t[1..k + 1], vm.0), k + 3 + vm.1))
  {
  }

  /** The entry list of a property map with one more property in front. */
  lemma {:induction false} ParamsCons(p: (string, Value), props: Props)
    ensures Params([p] + props) == [Param(p)] + Params(props)
    decreases |props|
  {
    var q := [p] + props;
    if |props| == 0 {
      assert q[..0] == [];
    } else {
      var n := |props|;
      assert q[..|q| - 1] == [p] + props[..n - 1];
      assert q[|q| - 1] == props[n - 1];
      ParamsCons(p, props[..n - 1]);
    }
  }

  lemma {:induction false} ParamsLength(props: Props)
    ensures |Params(props)| == |props|
    decreases |props|
  {
    if |props| > 0 {
      ParamsLength(props[..|props| - 1]);
    }
  }

  /** The entries joined by commas, then the closing brace, read back. */
  lemma {:induction false} ReadEntriesJoin(props: Props)
    requires |props| > 0 && Plain(props)
    ensures ReadEntries(Join(",", Params(props)) + "}") == Some(props)
    decreases |props|
  {
    JoinFront(props);
    PlainTail(props);
    var p, tail := props[0], props[1..];
    var x := Param(p);
    if |props| == 1 {
      ReadParam(p, "}");
      ReadLastEntry(x, p);
    } else {
      var more := Join(",", Params(tail));
      var rest := "," + more + "}";
      assert rest[1..] == more + "}";
      ReadParam(p, rest);
      ReadEntriesJoin(tail);
      ReadEntriesStep(x, rest, p, tail);
    }
  }

  /** The properties after the first of a plain property map are plain. */
  lemma PlainTail(props: Props)
    requires |props| > 0 && Plain(props)
    ensures '`' !in props[0].0 && Scalar(props[0].1) && Plain(props[1..])
  {
    var tail := props[1..];
    forall i | 0 <= i < |tail|
      ensures '`' !in tail[i].0 && Scalar(tail[i].1)
    {
      assert tail[i] == props[i + 1];
    }
  }

  /** The joined entries of a non-empty property map, split after the first. */
  lemma JoinFront(props: Props)
    requires |props| > 0
    ensures props == [props[0]] + props[1..] && (|props| == 1 ==> props == [props[0]])
    ensures |props| == 1 ==> Join(",", Params(props)) + "}" == Param(props[0]) + "}"
    ensures |props| > 1 ==> Join(",", Params(props)) + "}" == Param(props[0]) + ("," + Join(",", Params(props[1..])) + "}")
  {
    var tail := props[1..];
    assert props == [props[0]] + tail;
    ParamsCons(props[0], tail);
    ParamsLength(tail);
    JoinCons(Param(props[0]), Params(tail));
  }

  lemma JoinCons(x: string, ys: seq<string>)
    ensures |ys| == 0 ==> Join(",", [x] + ys) + "}" == x + "}"
    ensures |ys| > 0 ==> Join(",", [x] + ys) + "}" == x + ("," + Join(",", ys) + "}")
  {
    var xs := [x] + ys;
    assert xs[0] == x && xs[1..] == ys;
    if |ys| > 0 {
      var j := Join(",", ys);
      assert Join(",", xs) == x + "," + j;
      CommaBrace(x, j);
    }
  }

  lemma CommaBrace(x: string, j: string)
    ensures x + "," + j + "}" == x + ("," + j + "}")
  {
  }

  /** The last entry, then the closing brace. */
  lemma ReadLastEntry(x: string, p: (string, Value))
    requires ReadEntry(x + "}") == Some((p, |x|))
    ensures ReadEntries(x + "}") == Some([p])
  {
    assert (x + "}")[|x|..] == "}";
  }

  /** `ReadEntries` when the first entry is followed by a comma. */
  lemma ReadEntriesStep(x: string, rest: string, p: (string, Value), tail: Props)
    requires ReadEntry(x + rest) == Some((p, |x|))
    requires |rest| >= 2 && rest[0] == ','
    requires ReadEntries(rest[1..]) == Some(tail)
    ensures ReadEntries(x + rest) == Some([p] + tail)
  {
    assert (x + rest)[|x|..] == rest;
  }

  /** Round trip: a property map whose keys hold no backtick and whose values
      are scalars reads back as exactly those properties, in order. */
  lemma ParamsRoundTrip(props: Props)
    requires Plain(props)
    ensures ReadParams(ParamString(props)) == Some(props)
  {
    var t := ParamString(props);
    if |props| == 0 {
      assert Params(props) == [];
    } else {
      JoinFront(props);
      var j := Join(",", Params(props));
      assert |j| >= |Param(props[0])| > 0;
      assert t[1..] == j + "}";
      ReadEntriesJoin(props);
    }
  }

  /** Keys are written unescaped: a key holding a backtick can close its quotes
      early, so one property can give the same text as two. */
  lemma ParamKeyCollision(a: string, b: string, v: Value, w: Value)
    ensures [(a + "`:" + Stringify(v) + ",`" + b, w)] != [(a, v), (b, w)]
    ensures ParamString([(a + "`:" + Stringify(v) + ",`" + b, w)]) == ParamString([(a, v), (b, w)])
  {
    var one: Props := [(a + "`:" + Stringify(v) + ",`" + b, w)];
    var two: Props := [(a, v), (b, w)];
    assert one[..0] == [] && two[..1] == [two[0]] && two[..1][..0] == [];
    assert Params(one) == [Param(one[0])];
    assert Params(two) == [Param(two[0]), Param(two[1])];
    assert Join(",", Params(two)) == Param(two[0]) + "," + Param(two[1]);
    CollisionText(a, b, Stringify(v), Stringify(w));
  }

  lemma CollisionText(a: string, b: string, sv: string, sw: string)
    ensures "`" + (a + "`:" + sv + ",`" + b) + "`:" + sw == ("`" + a + "`:" + sv) + "," + ("`" + b + "`:" + sw)
  {
  }
}

/** Decimal text of integers, as JavaScript writes an integral Number in a
    template literal and in `JSON.stringify`, with the reading back
    that shows the text determines the number. */
module Decimal {
  import opened Util

  function DigitChar(d: nat): (c: char)
    requires d < 10
  {
    ['0', '1', '2', '3', '4', '5', '6', '7', '8', '9'][d]
  }

  predicate IsDigit(c: char)
  {
    '0' <= c <= '9'
  }

  function DigitValue(c: char): (d: nat)
    requires IsDigit(c)
    ensures d < 10
  {
    (c as int - '0' as int) as nat
  }

  lemma DigitRoundTrip(d: nat)
    requires d < 10
    ensures IsDigit(DigitChar(d)) && DigitValue(DigitChar(d)) == d
  {
  }

  /** Decimal digits of a natural number, most significant first, no leading zero. */
  function ShowNat(n: nat): (s: string)
    ensures |s| > 0 && forall i :: 0 <= i < |s| ==> IsDigit(s[i])
  {
    DigitRoundTrip(n % 10);
    if n < 10 then [DigitChar(n)] else ShowNat(n / 10) + [DigitChar(n % 10)]
  }

  /** `String(n)` for an integral number: a minus sign before a negative one. */
  function ShowInt(n: int): (s: string)
    ensures |s| > 0
  {
    if n < 0 then "-" + ShowNat(-n) else ShowNat(n)
  }

  /** Reads a non-empty run of decimal digits. */
  function ParseNat(s: string): Option<nat>
  {
    if |s| == 0 || !IsDigit(s[|s| - 1]) then None
    else if |s| == 1 then Some(DigitValue(s[0]))
    else match ParseNat(s[..|s| - 1])
      case None => None
      case Some(m) => Some(m * 10 + DigitValue(s[|s| - 1]))
  }

  function ParseInt(s: string): Option<int>
  {
    if |s| > 0 && s[0] == '-' then
      match ParseNat(s[1..])
      case None => None
      case Some(m) => Some(-(m as int))
    else
      match ParseNat(s)
      case None => None
      case Some(m) => Some(m as int)
  }

  lemma {:induction false} ParseShowNat(n: nat)
    ensures ParseNat(ShowNat(n)) == Some(n)
  {
    DigitRoundTrip(n % 10);
    if n >= 10 {
      var s := ShowNat(n);
      assert s[..|s| - 1] == ShowNat(n / 10);
      ParseShowNat(n / 10);
    }
  }

  /** A minus sign and a digit run read back as the negated number. */
  lemma ParseShowNegative(m: nat)
    ensures ParseInt("-" + ShowNat(m)) == Some(-(m as int))
  {
    assert ("-" + ShowNat(m))[1..] == ShowNat(m);
    ParseShowNat(m);
  }

  /** A digit run never starts with a minus sign, so it reads back as itself. */
  lemma ParseShowNonNegative(m: nat)
    ensures ParseInt(ShowNat(m)) == Some(m)
  {
    assert IsDigit(ShowNat(m)[0]);
    ParseShowNat(m);
  }

  /** The decimal text of an integer reads back as that integer. */
  lemma ParseShowInt(n: int)
    ensures ParseInt(ShowInt(n)) == Some(n)
  {
    if n < 0 {
      ParseShowNegative(-n);
    } else {
      ParseShowNonNegative(n);
    }
  }

  /** Different numbers have different decimal texts. */
  lemma ShowNatInjective(a: nat, b: nat)
    ensures ShowNat(a) == ShowNat(b) <==> a == b
  {
    ParseShowNat(a);
    ParseShowNat(b);
  }

  lemma ShowIntInjective(a: int, b: int)
    ensures ShowInt(a) == ShowInt(b) <==> a == b
  {
    ParseShowInt(a);
    ParseShowInt(b);
  }

  /** `prefix + ShowNat(i)` determines both parts when the prefix holds no digit
      at its end: this is why the synthetic names `node0`, `rel12`, ... never
      collide. */
  lemma NamesDistinct(p: string, q: string, a: nat, b: nat)
    requires |p| > 0 && |q| > 0 && p[0] != q[0]
    ensures p + ShowNat(a) != q + ShowNat(b)
  {
    assert (p + ShowNat(a))[0] == p[0];
    assert (q + ShowNat(b))[0] == q[0];
  }

  lemma SamePrefixNames(p: string, a: nat, b: nat)
    ensures p + ShowNat(a) == p + ShowNat(b) <==> a == b
  {
    if p + ShowNat(a) == p + ShowNat(b) {
      assert ShowNat(a) == (p + ShowNat(a))[|p|..];
      assert ShowNat(b) == (p + ShowNat(b))[|p|..];
      ShowNatInjective(a, b);
    }
  }

  lemma SamePrefixInts(p: string, a: int, b: int)
    ensures p + ShowInt(a) == p + ShowInt(b) <==> a == b
  {
    if p + ShowInt(a) == p + ShowInt(b) {
      assert ShowInt(a) == (p + ShowInt(a))[|p|..];
      assert ShowInt(b) == (p + ShowInt(b))[|p|..];
      ShowIntInjective(a, b);
    }
  }
}

/** Decimal integer payloads for `Constr`: a printer and a parser of
    optionally signed digit strings, standing in for the `Display` and
    `FromStr` of the source's `f64`. The module proves that this pair meets
    `Constraints.PayloadCodec` at every integer, so every grammar property
    stated under a codec assumption holds of all decimal constraints. */
module Decimal {
  import opened Wrappers
  import C = Constraints

  predicate IsDigit(c: char) {
    '0' <= c <= '9'
  }

  predicate AllDigits(s: string) {
    forall i :: 0 <= i < |s| ==> IsDigit(s[i])
  }

  function DigitChar(d: nat): (c: char)
    requires d < 10
    ensures IsDigit(c) && DigitVal(c) == d
  {
    (('0' as int) + d) as char
  }

  function DigitVal(c: char): nat
    requires IsDigit(c)
  {
    (c as int) - ('0' as int)
  }

  /** Shortest decimal text of a natural number. */
  function ShowNat(n: nat): (s: string)
    ensures |s| > 0 && AllDigits(s)
  {
    if n < 10 then [DigitChar(n)] else ShowNat(n / 10) + [DigitChar(n % 10)]
  }

  /** Value of a digit string, most significant digit first. */
  function DigitsValue(s: string): nat
    requires AllDigits(s)
  {
    if |s| == 0 then 0 else DigitsValue(s[..|s| - 1]) * 10 + DigitVal(s[|s| - 1])
  }

  function ParseNat(s: string): Option<nat> {
    if |s| > 0 && AllDigits(s) then Some(DigitsValue(s)) else Option.None
  }

  function ShowInt(i: int): string {
    if i < 0 then "-" + ShowNat(-i) else ShowNat(i)
  }

  /** An optional minus sign followed by one or more digits. */
  function ParseInt(s: string): Option<int> {
    if |s| > 0 && s[0] == '-' then
      match ParseNat(s[1..])
      case Some(n) => Some(-(n as int))
      case None => Option.None
    else
      match ParseNat(s)
      case Some(n) => Some(n as int)
      case None => Option.None
  }

  lemma {:induction false} DigitsValueShowNat(n: nat)
    ensures DigitsValue(ShowNat(n)) == n
  {
    var s := ShowNat(n);
    if n >= 10 {
      assert s[..|s| - 1] == ShowNat(n / 10);
      DigitsValueShowNat(n / 10);
    }
  }

  /** Parsing a printed integer gives it back. */
  lemma ParseShowInt(i: int)
    ensures ParseInt(ShowInt(i)) == Some(i)
  {
    if i < 0 {
      DigitsValueShowNat(-i);
      assert ShowInt(i)[1..] == ShowNat(-i);
    } else {
      DigitsValueShowNat(i);
    }
  }

  /** Decimal integers meet everything the constraint grammar asks of a
      payload codec. */
  lemma IntCodec()
    ensures C.PayloadCodec(ParseInt, ShowInt)
  {
    forall v: int
      ensures C.CodecAt(ParseInt, ShowInt, v)
    {
      ParseShowInt(v);
      var t := ShowInt(v);
      assert forall i :: 0 <= i < |t| ==> IsDigit(t[i]) || t[i] == '-';
    }
  }

  /** Every decimal constraint survives printing and parsing. */
  lemma IntRoundTrip(c: C.Constr<int>)
    ensures C.Parse(C.Print(c, ShowInt), ParseInt) == Ok(c)
  {
    IntCodec();
    C.CodecEverywhere(ParseInt, ShowInt, c);
    C.PrintParseRoundTrip(c, ParseInt, ShowInt);
  }
}

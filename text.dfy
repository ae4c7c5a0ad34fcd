/**
 * Text forms of the scalar components, as written by ci::toString (a
 * std::ostream insertion) and read back by JsonTree::getValue<T>.
 *
 * int and bool are written out: decimal with a leading '-' for negative
 * numbers, and "1"/"0" for booleans (the stream has no boolalpha).
 * float formatting is numerics the model does not see: it is a parameter,
 * a FloatText pair, and which floats survive the round trip is stated per
 * value, with the predicate ReadsBack.
 */
module Text {
  import opened Wrappers

  /** A C++ int: 32 bits, two's complement range. */
  type Int32 = x: int | -0x8000_0000 <= x < 0x8000_0000

  /** The float text conversion pair (ci::toString / getValue<float>). */
  datatype FloatText = FloatText(show: real -> string, parse: string -> Option<real>)

  /** Each of xs reads back as itself from the text ci::toString writes for it. */
  predicate ReadsBack(ft: FloatText, xs: seq<real>) {
    forall i :: 0 <= i < |xs| ==> ft.parse(ft.show(xs[i])) == Some(xs[i])
  }

  predicate IsDigit(c: char) {
    '0' <= c <= '9'
  }

  function DigitChar(d: nat): (c: char)
    requires d < 10
    ensures IsDigit(c) && c as int - '0' as int == d
  {
    ('0' as int + d) as char
  }

  /** Decimal digits of n, most significant first, no leading zeros. */
  function ShowNat(n: nat): (s: string)
    ensures |s| > 0 && forall i :: 0 <= i < |s| ==> IsDigit(s[i])
    ensures |s| > 1 ==> s[0] != '0'
    decreases n
  {
    if n < 10 then [DigitChar(n)] else ShowNat(n / 10) + [DigitChar(n % 10)]
  }

  /** ci::toString on an int. */
  function ShowInt(i: Int32): string {
    if i < 0 then "-" + ShowNat(-(i as int)) else ShowNat(i)
  }

  /** ci::toString on a bool. */
  function ShowBool(b: bool): string {
    if b then "1" else "0"
  }

  /** The value of a non-empty run of decimal digits. */
  function ParseDigits(s: string): (r: Option<nat>)
    ensures r.Some? <==> |s| > 0 && forall i :: 0 <= i < |s| ==> IsDigit(s[i])
    decreases |s|
  {
    if |s| == 0 then None
    else if !IsDigit(s[|s| - 1]) then None
    else if |s| == 1 then Some(s[0] as int - '0' as int)
    else
      match ParseDigits(s[..|s| - 1])
      case None => None
      case Some(high) => Some(high * 10 + (s[|s| - 1] as int - '0' as int))
  }

  /**
   * getValue<int>: an optional sign followed by decimal digits, and the
   * number must fit in an int; anything else is not convertible.
   */
  function ParseInt(s: string): (r: Option<Int32>)
    ensures r.Some? ==> |s| > 0
  {
    if |s| > 0 && (s[0] == '-' || s[0] == '+') then
      match ParseDigits(s[1..])
      case None => None
      case Some(n) =>
        var v: int := if s[0] == '-' then -(n as int) else n;
        if -0x8000_0000 <= v < 0x8000_0000 then Some(v) else None
    else
      match ParseDigits(s)
      case None => None
      case Some(n) => if n < 0x8000_0000 then Some(n) else None
  }

  /** getValue<bool>: exactly "1" or "0". */
  function ParseBool(s: string): (r: Option<bool>)
    ensures r.Some? <==> s == "1" || s == "0"
    ensures r.Some? ==> (r.value <==> s == "1")
  {
    if s == "1" then Some(true) else if s == "0" then Some(false) else None
  }

  lemma {:induction false} ParseShowNat(n: nat)
    ensures ParseDigits(ShowNat(n)) == Some(n)
    decreases n
  {
    if n >= 10 {
      var high := ShowNat(n / 10);
      var s := high + [DigitChar(n % 10)];
      assert s[..|s| - 1] == high;
      ParseShowNat(n / 10);
    }
  }

  /** Reading back what ci::toString wrote for an int gives the same int. */
  lemma ParseShowInt(i: Int32)
    ensures ParseInt(ShowInt(i)) == Some(i)
  {
    ParseShowNat(if i < 0 then -(i as int) else i);
    if i < 0 {
      var s := "-" + ShowNat(-(i as int));
      assert s[1..] == ShowNat(-(i as int));
    }
  }

  /** Reading back what ci::toString wrote for a bool gives the same bool. */
  lemma ParseShowBool(b: bool)
    ensures ParseBool(ShowBool(b)) == Some(b)
  {
  }
}

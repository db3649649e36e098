/**
  The table key of a pixel: the click counter stores each pixel under the
  string "x,y", built from the decimal renderings of its two integer
  coordinates. This module models that rendering and proves that the
  encoding is injective, by giving a parser that inverts it.
 */
module PixelKeys {

  datatype Option<T> = None | Some(value: T)

  predicate IsDigit(c: char) {
    '0' <= c <= '9'
  }

  predicate AllDigits(s: string) {
    forall i :: 0 <= i < |s| ==> IsDigit(s[i])
  }

  function DigitChar(d: nat): (c: char)
    requires d < 10
    ensures IsDigit(c)
  {
    ('0' as int + d) as char
  }

  function DigitValue(c: char): (d: nat)
    requires IsDigit(c)
    ensures d < 10
  {
    c as int - '0' as int
  }

  /** Decimal rendering of a non-negative integer, as a number is formatted
      into a template literal: no sign, no leading zeros. */
  function NatToString(n: nat): (s: string)
    ensures |s| >= 1 && AllDigits(s)
    decreases n
  {
    if n < 10 then [DigitChar(n)]
    else NatToString(n / 10) + [DigitChar(n % 10)]
  }

  /** Decimal rendering of any integer: a leading '-' for negatives. */
  function IntToString(i: int): (s: string)
    ensures |s| >= 1 && ',' !in s
  {
    if i < 0 then "-" + NatToString(-i) else NatToString(i)
  }

  /** The table key of pixel (x, y): the renderings of its coordinates
      joined by a comma. The first comma of the key is the one right after
      the rendering of x, so splitting there recovers the two halves. */
  function Key(x: int, y: int): (k: string)
    ensures IndexOf(k, ',') == |IntToString(x)| < |k|
  {
    var sx := IntToString(x);
    var k := sx + "," + IntToString(y);
    assert k[|sx|] == ',' && k[..|sx|] == sx;
    k
  }

  /** Value of a string of decimal digits (the empty string reads as 0). */
  function ParseNat(s: string): nat
    requires AllDigits(s)
  {
    if s == [] then 0 else ParseNat(s[..|s| - 1]) * 10 + DigitValue(s[|s| - 1])
  }

  /** Inverse of IntToString: an optional '-' followed by at least one digit. */
  function ParseInt(s: string): (r: Option<int>)
    ensures r.Some? ==> |s| >= 1 && ',' !in s
  {
    if |s| > 1 && s[0] == '-' && AllDigits(s[1..]) then Some(-(ParseNat(s[1..]) as int))
    else if |s| >= 1 && AllDigits(s) then Some(ParseNat(s))
    else None
  }

  /** Position of the first occurrence of c in s, or |s| when there is none. */
  function IndexOf(s: string, c: char): (r: nat)
    ensures r <= |s|
    ensures r < |s| ==> s[r] == c
    ensures forall j :: 0 <= j < r ==> s[j] != c
  {
    if s == [] then 0
    else if s[0] == c then 0
    else 1 + IndexOf(s[1..], c)
  }

  /** Splits a key at its first comma and reads both halves as integers. */
  function ParseKey(k: string): (r: Option<(int, int)>)
    ensures r.Some? ==> ',' in k
  {
    var i := IndexOf(k, ',');
    if i == |k| then None
    else
      match (ParseInt(k[..i]), ParseInt(k[i + 1..]))
      case (Some(x), Some(y)) => Some((x, y))
      case _ => None
  }

  /** The rendering has no leading zero: it starts with '0' only for 0
      itself, whose rendering is exactly "0". */
  lemma {:induction false} NoLeadingZero(n: nat)
    ensures NatToString(n)[0] == '0' <==> n == 0
    ensures n == 0 ==> NatToString(n) == "0"
    decreases n
  {
    if n >= 10 {
      NoLeadingZero(n / 10);
    }
  }

  /** A rendering starts with '-' exactly when the integer is negative. */
  lemma SignOfRendering(i: int)
    ensures IntToString(i)[0] == '-' <==> i < 0
  {
  }

  lemma {:induction false} ParseNatToString(n: nat)
    ensures ParseNat(NatToString(n)) == n
    decreases n
  {
    var s := NatToString(n);
    if n < 10 {
      assert s[..|s| - 1] == [];
    } else {
      assert s[..|s| - 1] == NatToString(n / 10);
      ParseNatToString(n / 10);
    }
  }

  lemma ParseIntToString(i: int)
    ensures ParseInt(IntToString(i)) == Some(i)
  {
    var s := IntToString(i);
    if i < 0 {
      var digits := NatToString(-i);
      assert s[0] == '-' && s[1..] == digits;
      ParseNatToString(-i);
      assert ParseInt(s) == Some(-(ParseNat(digits) as int));
    } else {
      assert IsDigit(s[0]);
      ParseNatToString(i);
      assert ParseInt(s) == Some(ParseNat(s));
    }
  }

  /** Decoding a key gives back the pixel it was built from. */
  lemma KeyRoundTrip(x: int, y: int)
    ensures ParseKey(Key(x, y)) == Some((x, y))
  {
    var sx, sy := IntToString(x), IntToString(y);
    var k := Key(x, y);
    assert k[..|sx|] == sx;
    assert k[|sx| + 1..] == sy;
    ParseIntToString(x);
    ParseIntToString(y);
  }

  /** Distinct pixels are stored under distinct keys. */
  lemma KeyInjective(x: int, y: int, u: int, v: int)
    ensures Key(x, y) == Key(u, v) <==> (x, y) == (u, v)
  {
    KeyRoundTrip(x, y);
    KeyRoundTrip(u, v);
  }
}

/**
 * The texture index of an object record: a string starting with "0x" is read as
 * hexadecimal (ushort.Parse with NumberStyles.HexNumber on the rest), any other string
 * as decimal (ushort.Parse with the default NumberStyles.Integer). Both forms allow
 * white space around the digits; the decimal form also allows a leading sign.
 */
module TextureIndex {
  import opened Wrappers
  import opened Raster

  /** The exceptions ushort.Parse throws. */
  datatype ParseError =
    | Format     // FormatException: no digits, or a character that is not allowed
    | Overflow   // OverflowException: the value is negative or above 65535

  /** The white space number parsing skips: tab, line feed, vertical tab, form feed, carriage return, space. */
  predicate IsWhite(c: char)
  {
    c == ' ' || '\t' <= c <= '\r'
  }

  /** Every character of w is white space. */
  predicate AllWhite(w: string)
  {
    forall i :: 0 <= i < |w| ==> IsWhite(w[i])
  }

  /** s without its leading white space. */
  function TrimStart(s: string): (r: string)
    ensures |r| <= |s|
    ensures r == [] || !IsWhite(r[0])
  {
    if |s| > 0 && IsWhite(s[0]) then TrimStart(s[1..]) else s
  }

  /** s without its trailing white space. */
  function TrimEnd(s: string): (r: string)
    ensures |r| <= |s|
    ensures r == [] || !IsWhite(r[|r| - 1])
  {
    if |s| > 0 && IsWhite(s[|s| - 1]) then TrimEnd(s[..|s| - 1]) else s
  }

  function Trim(s: string): string
  {
    TrimEnd(TrimStart(s))
  }

  /** TrimStart keeps a suffix of s and drops only white space. */
  lemma {:induction false} TrimStartDropsWhite(s: string)
    ensures var r := TrimStart(s); r == s[|s| - |r|..] && AllWhite(s[..|s| - |r|])
    decreases |s|
  {
    if |s| > 0 && IsWhite(s[0]) {
      TrimStartDropsWhite(s[1..]);
      var r := TrimStart(s[1..]);
      var k := |s| - |r|;
      assert s[1..][k - 1..] == s[k..];
      assert s[..k] == [s[0]] + s[1..][..k - 1];
    }
  }

  /** TrimEnd keeps a prefix of s and drops only white space. */
  lemma {:induction false} TrimEndDropsWhite(s: string)
    ensures var r := TrimEnd(s); r == s[..|r|] && AllWhite(s[|r|..])
    decreases |s|
  {
    if |s| > 0 && IsWhite(s[|s| - 1]) {
      var s' := s[..|s| - 1];
      TrimEndDropsWhite(s');
      var r := TrimEnd(s');
      assert s'[..|r|] == s[..|r|];
      assert s[|r|..] == s'[|r|..] + [s[|s| - 1]];
    }
  }

  /** A string that does not start with white space is its own TrimStart. */
  lemma TrimStartKeeps(s: string)
    requires s == [] || !IsWhite(s[0])
    ensures TrimStart(s) == s
  {
  }

  /** A string that does not end with white space is its own TrimEnd. */
  lemma TrimEndKeeps(s: string)
    requires s == [] || !IsWhite(s[|s| - 1])
    ensures TrimEnd(s) == s
  {
  }

  /** TrimStart removes exactly a white prefix in front of a string that does not start with white space. */
  lemma {:induction false} TrimStartWhite(w: string, r: string)
    requires AllWhite(w) && (r == [] || !IsWhite(r[0]))
    ensures TrimStart(w + r) == r
    decreases |w|
  {
    if w == [] {
      assert w + r == r;
      TrimStartKeeps(r);
    } else {
      assert (w + r)[1..] == w[1..] + r;
      TrimStartWhite(w[1..], r);
    }
  }

  /** TrimEnd removes exactly a white suffix behind a string that does not end with white space. */
  lemma {:induction false} TrimEndWhite(r: string, w: string)
    requires AllWhite(w) && (r == [] || !IsWhite(r[|r| - 1]))
    ensures TrimEnd(r + w) == r
    decreases |w|
  {
    if w == [] {
      assert r + w == r;
      TrimEndKeeps(r);
    } else {
      var w' := w[..|w| - 1];
      assert (r + w)[..|r + w| - 1] == r + w';
      TrimEndWhite(r, w');
    }
  }

  /** Trim strips white space on both sides of a string with no white space at either end. */
  lemma TrimAround(w1: string, d: string, w2: string)
    requires AllWhite(w1) && AllWhite(w2)
    requires |d| > 0 && !IsWhite(d[0]) && !IsWhite(d[|d| - 1])
    ensures Trim(w1 + d + w2) == d
  {
    assert w1 + d + w2 == w1 + (d + w2);
    TrimStartWhite(w1, d + w2);
    TrimEndWhite(d, w2);
  }

  function Radix(hex: bool): nat
  {
    if hex then 16 else 10
  }

  /** The value of one digit character: 0-9, and a-f or A-F in hexadecimal. */
  function DigitValue(c: char, hex: bool): (d: Option<nat>)
    ensures d.Some? ==> d.value < Radix(hex)
  {
    if '0' <= c <= '9' then Some(c as int - '0' as int)
    else if hex && 'a' <= c <= 'f' then Some(c as int - 'a' as int + 10)
    else if hex && 'A' <= c <= 'F' then Some(c as int - 'A' as int + 10)
    else None
  }

  /** The value of a non-empty run of digits, most significant first; None if it is empty or holds a non-digit. */
  function DigitsValue(ds: string, hex: bool): Option<nat>
    decreases |ds|
  {
    if ds == [] then None
    else
      var last := DigitValue(ds[|ds| - 1], hex);
      if last.None? then None
      else if |ds| == 1 then last
      else match DigitsValue(ds[..|ds| - 1], hex)
        case None => None
        case Some(v) => Some(v * Radix(hex) + last.value)
  }

  function InRange(v: int): Result<UShort, ParseError>
  {
    if 0 <= v < UShortRange then Ok(v) else Err(Overflow)
  }

  /** ushort.Parse(s, NumberStyles.HexNumber). */
  function ParseHex(s: string): Result<UShort, ParseError>
  {
    match DigitsValue(Trim(s), true)
    case None => Err(Format)
    case Some(v) => InRange(v)
  }

  /** ushort.Parse(s): optional sign, decimal digits; "-0" is 0, any other negative value overflows. */
  function ParseDecimal(s: string): Result<UShort, ParseError>
  {
    var t := Trim(s);
    var signed := |t| > 0 && (t[0] == '-' || t[0] == '+');
    var negative := |t| > 0 && t[0] == '-';
    match DigitsValue(if signed then t[1..] else t, false)
    case None => Err(Format)
    case Some(v) => if negative && v != 0 then Err(Overflow) else InRange(v)
  }

  predicate StartsWith(s: string, prefix: string)
  {
    |prefix| <= |s| && s[..|prefix|] == prefix
  }

  /** The Index element of a texture: hexadecimal after a "0x" prefix, decimal otherwise. */
  function ParseTextureIndex(s: string): Result<UShort, ParseError>
  {
    if StartsWith(s, "0x") then ParseHex(s[2..]) else ParseDecimal(s)
  }

  /** The character of a digit value, lower-case in hexadecimal as the "x" format writes it. */
  function DigitChar(d: nat): char
    requires d < 16
  {
    if d < 10 then ('0' as int + d) as char else ('a' as int + d - 10) as char
  }

  /** A value written in base 10 or 16 without leading zeros. */
  function FormatDigits(v: nat, hex: bool): (s: string)
    ensures |s| > 0
    ensures forall i :: 0 <= i < |s| ==> DigitValue(s[i], hex).Some?
    decreases v
  {
    if v < Radix(hex) then [DigitChar(v)]
    else FormatDigits(v / Radix(hex), hex) + [DigitChar(v % Radix(hex))]
  }

  /** Reading back a formatted value gives the value. */
  lemma {:induction false} FormatDigitsParses(v: nat, hex: bool)
    ensures DigitsValue(FormatDigits(v, hex), hex) == Some(v)
    decreases v
  {
    var s := FormatDigits(v, hex);
    if v >= Radix(hex) {
      FormatDigitsParses(v / Radix(hex), hex);
      assert s[..|s| - 1] == FormatDigits(v / Radix(hex), hex);
    }
  }

  /** A run of digits has no white space to trim. */
  lemma TrimDigits(s: string, hex: bool)
    requires |s| > 0 && forall i :: 0 <= i < |s| ==> DigitValue(s[i], hex).Some?
    ensures Trim(s) == s
  {
    assert DigitValue(s[0], hex).Some? && DigitValue(s[|s| - 1], hex).Some?;
    TrimStartKeeps(s);
    TrimEndKeeps(s);
  }

  /** A string of digits only reads as its digits' value, range-checked. */
  lemma ParseDigitsOnly(s: string, hex: bool)
    requires |s| > 0 && forall i :: 0 <= i < |s| ==> DigitValue(s[i], hex).Some?
    ensures hex ==> ParseHex(s) == if DigitsValue(s, true).Some? then InRange(DigitsValue(s, true).value) else Err(Format)
    ensures !hex ==> ParseDecimal(s) == if DigitsValue(s, false).Some? then InRange(DigitsValue(s, false).value) else Err(Format)
  {
    TrimDigits(s, hex);
    assert s[0] != '-' && s[0] != '+' by {
      assert DigitValue(s[0], hex).Some?;
    }
  }

  /** A decimal string never starts with "0x". */
  lemma DecimalIsNotHex(v: nat)
    ensures !StartsWith(FormatDigits(v, false), "0x")
  {
    var s := FormatDigits(v, false);
    if |s| >= 2 {
      assert s[..2][1] == s[1];
    }
  }

  /** "0x" followed by a value in lower-case hexadecimal reads back as that value. */
  lemma HexRoundTrip(v: UShort)
    ensures ParseTextureIndex("0x" + FormatDigits(v, true)) == Ok(v)
  {
    var h := FormatDigits(v, true);
    var s := "0x" + h;
    assert s[..2] == "0x" && s[2..] == h;
    ParseDigitsOnly(h, true);
    FormatDigitsParses(v, true);
  }

  /** A value in decimal reads back as that value. */
  lemma DecimalRoundTrip(v: UShort)
    ensures ParseTextureIndex(FormatDigits(v, false)) == Ok(v)
  {
    DecimalIsNotHex(v);
    ParseDigitsOnly(FormatDigits(v, false), false);
    FormatDigitsParses(v, false);
  }

  /** Values beyond 65535 overflow in either notation. */
  lemma ParseOverflows(v: nat)
    requires v >= UShortRange
    ensures ParseTextureIndex("0x" + FormatDigits(v, true)) == Err(Overflow)
    ensures ParseTextureIndex(FormatDigits(v, false)) == Err(Overflow)
  {
    var h := FormatDigits(v, true);
    assert ("0x" + h)[..2] == "0x" && ("0x" + h)[2..] == h;
    ParseDigitsOnly(h, true);
    FormatDigitsParses(v, true);
    DecimalIsNotHex(v);
    ParseDigitsOnly(FormatDigits(v, false), false);
    FormatDigitsParses(v, false);
  }

  /** A sign before a run of digits leaves nothing to trim. */
  lemma TrimSigned(d: string, hex: bool)
    requires |d| > 0 && forall i :: 0 <= i < |d| ==> DigitValue(d[i], hex).Some?
    ensures Trim("-" + d) == "-" + d
  {
    var m := "-" + d;
    TrimStartKeeps(m);
    assert m[|m| - 1] == d[|d| - 1];
    assert DigitValue(d[|d| - 1], hex).Some?;
    TrimEndKeeps(m);
  }

  /** A minus sign makes every value but zero overflow. */
  lemma NegativeOverflows(v: nat)
    ensures ParseTextureIndex("-" + FormatDigits(v, false)) == if v == 0 then Ok(0) else Err(Overflow)
  {
    var d := FormatDigits(v, false);
    var m := "-" + d;
    assert !StartsWith(m, "0x") by {
      assert m[..2][0] == '-';
    }
    TrimSigned(d, false);
    assert m[1..] == d;
    FormatDigitsParses(v, false);
  }

  /** The upper-case form of a hexadecimal letter; every other character is kept. */
  function Upper(c: char): char
  {
    if 'a' <= c <= 'f' then (c as int - 32) as char else c
  }

  /** A digit string with its hexadecimal letters in upper case. */
  function UpperHex(s: string): (r: string)
    ensures |r| == |s|
  {
    seq(|s|, i requires 0 <= i < |s| => Upper(s[i]))
  }

  /** Upper-casing a hexadecimal digit does not change its value. */
  lemma DigitValueUpper(c: char)
    ensures DigitValue(Upper(c), true) == DigitValue(c, true)
  {
  }

  /** Hexadecimal digits are read without regard to case. */
  lemma {:induction false} UpperHexSameValue(ds: string)
    ensures DigitsValue(UpperHex(ds), true) == DigitsValue(ds, true)
    decreases |ds|
  {
    if |ds| > 0 {
      var u := UpperHex(ds);
      assert u[|u| - 1] == Upper(ds[|ds| - 1]);
      DigitValueUpper(ds[|ds| - 1]);
      if |ds| > 1 {
        assert u[..|u| - 1] == UpperHex(ds[..|ds| - 1]);
        UpperHexSameValue(ds[..|ds| - 1]);
      }
    }
  }

  /** A string whose first two characters are not "0" and "x" is read as decimal. */
  lemma NotHexPrefix(s: string)
    requires |s| < 2 || s[0] != '0' || s[1] != 'x'
    ensures ParseTextureIndex(s) == ParseDecimal(s)
  {
    if |s| >= 2 {
      assert s[..2][0] == s[0] && s[..2][1] == s[1];
    }
  }

  /** A string after "0x" is read as hexadecimal. */
  lemma HexPrefixed(rest: string)
    ensures ParseTextureIndex("0x" + rest) == ParseHex(rest)
  {
    assert ("0x" + rest)[..2] == "0x" && ("0x" + rest)[2..] == rest;
  }

  /** Upper-casing a hexadecimal digit string keeps it a digit string of the same value. */
  lemma UpperHexDigits(h: string)
    requires |h| > 0 && forall i :: 0 <= i < |h| ==> DigitValue(h[i], true).Some?
    ensures |UpperHex(h)| > 0 && forall i :: 0 <= i < |UpperHex(h)| ==> DigitValue(UpperHex(h)[i], true).Some?
    ensures DigitsValue(UpperHex(h), true) == DigitsValue(h, true)
  {
    UpperHexSameValue(h);
    var u := UpperHex(h);
    forall i | 0 <= i < |u|
      ensures DigitValue(u[i], true).Some?
    {
      DigitValueUpper(h[i]);
    }
  }

  /** Hexadecimal digits worth v, with white space around them after "0x", read back as v. */
  lemma HexWithWhiteSpace(h: string, v: UShort, w1: string, w2: string)
    requires AllWhite(w1) && AllWhite(w2)
    requires |h| > 0 && forall i :: 0 <= i < |h| ==> DigitValue(h[i], true).Some?
    requires DigitsValue(h, true) == Some(v)
    ensures ParseTextureIndex("0x" + w1 + h + w2) == Ok(v)
  {
    var rest := w1 + h + w2;
    assert "0x" + w1 + h + w2 == "0x" + rest;
    HexPrefixed(rest);
    assert DigitValue(h[0], true).Some? && DigitValue(h[|h| - 1], true).Some?;
    TrimAround(w1, h, w2);
  }

  /** Decimal digits worth v, with white space around them, read back as v. */
  lemma DecimalWithWhiteSpace(d: string, v: UShort, w1: string, w2: string)
    requires AllWhite(w1) && AllWhite(w2)
    requires |d| > 0 && forall i :: 0 <= i < |d| ==> DigitValue(d[i], false).Some?
    requires DigitsValue(d, false) == Some(v)
    ensures ParseTextureIndex(w1 + d + w2) == Ok(v)
  {
    var s := w1 + d + w2;
    assert DigitValue(d[0], false).Some? && DigitValue(d[|d| - 1], false).Some?;
    if |s| >= 2 {
      if |w1| > 0 {
        assert s[0] == w1[0];
      } else if |d| >= 2 {
        assert s[1] == d[1] && DigitValue(d[1], false).Some?;
      } else {
        assert s[1] == w2[0];
      }
    }
    NotHexPrefix(s);
    TrimAround(w1, d, w2);
  }

  /**
   * White space around the digits is skipped in both notations, also between "0x"
   * and the digits, and hexadecimal digits may be written in either case.
   */
  lemma ParseSkipsWhiteSpace(v: UShort, w1: string, w2: string)
    requires AllWhite(w1) && AllWhite(w2)
    ensures ParseTextureIndex(w1 + FormatDigits(v, false) + w2) == Ok(v)
    ensures ParseTextureIndex("0x" + w1 + FormatDigits(v, true) + w2) == Ok(v)
    ensures ParseTextureIndex("0x" + w1 + UpperHex(FormatDigits(v, true)) + w2) == Ok(v)
  {
    FormatDigitsParses(v, false);
    DecimalWithWhiteSpace(FormatDigits(v, false), v, w1, w2);
    var h := FormatDigits(v, true);
    FormatDigitsParses(v, true);
    HexWithWhiteSpace(h, v, w1, w2);
    UpperHexDigits(h);
    HexWithWhiteSpace(UpperHex(h), v, w1, w2);
  }

  /** A string with no digits, a bare "0x", or a "0x" after white space is a format error. */
  lemma ParseRejectsMalformed()
    ensures ParseTextureIndex("") == Err(Format)
    ensures ParseTextureIndex("0x") == Err(Format)
    ensures ParseTextureIndex(" 0x10") == Err(Format)
  {
    assert "0x"[..2] == "0x" && "0x"[2..] == "";
    var s := " 0x10";
    assert !StartsWith(s, "0x") by {
      assert s[0] == ' ';
    }
    assert TrimStart(s) == "0x10" by {
      assert s[1..] == "0x10";
    }
    assert "0x10"[..3] == "0x1";
    assert "0x1"[..2] == "0x";
  }
}

/** The small part of JavaScript's string library the components rely on:
    `trim`, the white-space and digit classes of regular expressions, decimal
    rendering of integers (`String(n)`, `n.toString()`), `parseInt(s, 10)`,
    `padStart`, ASCII lower-casing and `String.prototype.length`, which counts
    UTF-16 code units. */
module Text {
  import opened Optional

  /* ----- Character classes ----- */

  /** The regular-expression class `\d`. */
  predicate IsDigit(c: char) {
    '0' <= c <= '9'
  }

  predicate IsDigits(s: string) {
    forall i :: 0 <= i < |s| ==> IsDigit(s[i])
  }

  /** WhiteSpace and LineTerminator of ECMA-262: what `trim`, `parseInt` and
      the regular-expression class `\s` skip. */
  predicate IsJsWhitespace(c: char) {
    || c == '\t' || c == '\n' || c == '\U{000B}' || c == '\U{000C}' || c == '\r'
    || c == ' ' || c == '\U{00A0}' || c == '\U{1680}'
    || ('\U{2000}' <= c <= '\U{200A}')
    || c == '\U{2028}' || c == '\U{2029}' || c == '\U{202F}' || c == '\U{205F}'
    || c == '\U{3000}' || c == '\U{FEFF}'
  }

  function DigitValue(c: char): (d: nat)
    requires IsDigit(c)
    ensures d < 10
  {
    c as int - '0' as int
  }

  function DigitChar(d: nat): (c: char)
    requires d < 10
    ensures IsDigit(c) && DigitValue(c) == d
  {
    ('0' as int + d) as char
  }

  /* ----- Decimal numbers ----- */

  /** The value of a string of decimal digits; the empty string reads as 0. */
  function ParseNat(s: string): nat
    requires IsDigits(s)
  {
    if |s| == 0 then 0 else ParseNat(s[..|s| - 1]) * 10 + DigitValue(s[|s| - 1])
  }

  /** `String(n)` for a non-negative integer: its shortest decimal numeral. */
  function NatToString(n: nat): (r: string)
    ensures |r| >= 1 && IsDigits(r)
    ensures ParseNat(r) == n
    ensures r[0] == '0' ==> n == 0
    ensures n < 10 <==> |r| == 1
    ensures n < 100 ==> |r| <= 2
  {
    if n < 10 then [DigitChar(n)]
    else
      var r := NatToString(n / 10) + [DigitChar(n % 10)];
      assert r[..|r| - 1] == NatToString(n / 10);
      r
  }

  /** `String(n)` for any integer. */
  function IntToString(n: int): (r: string)
    ensures n >= 0 ==> r == NatToString(n)
    ensures n < 0 ==> r == "-" + NatToString(-n)
  {
    if n < 0 then "-" + NatToString(-n) else NatToString(n)
  }

  /** `k` copies of `c`. */
  function Repeat(c: char, k: nat): (r: string)
    ensures |r| == k
    ensures forall i :: 0 <= i < k ==> r[i] == c
  {
    if k == 0 then "" else [c] + Repeat(c, k - 1)
  }

  /** Leading zeros do not change the value of a numeral. */
  lemma {:induction false} ParseNatZeroPrefix(k: nat, s: string)
    requires IsDigits(s)
    ensures IsDigits(Repeat('0', k) + s)
    ensures ParseNat(Repeat('0', k) + s) == ParseNat(s)
  {
    if k > 0 {
      var rest := Repeat('0', k - 1) + s;
      assert Repeat('0', k) == "0" + Repeat('0', k - 1);
      assert Repeat('0', k) + s == "0" + rest;
      ParseNatZeroPrefix(k - 1, s);
      ParseNatOneZero(rest);
    } else {
      assert Repeat('0', k) + s == s;
    }
  }

  lemma {:induction false} ParseNatOneZero(s: string)
    requires IsDigits(s)
    ensures IsDigits("0" + s) && ParseNat("0" + s) == ParseNat(s)
  {
    if |s| > 0 {
      var t := "0" + s;
      assert t[..|t| - 1] == "0" + s[..|s| - 1];
      ParseNatOneZero(s[..|s| - 1]);
    } else {
      assert ("0" + s)[..0] == "";
    }
  }

  /** `s.padStart(width, fill)` with a one-character fill string. */
  function PadStart(s: string, width: nat, fill: char): (r: string)
    ensures |r| == if |s| >= width then |s| else width
    ensures r[|r| - |s|..] == s
    ensures forall i :: 0 <= i < |r| - |s| ==> r[i] == fill
  {
    if |s| >= width then s else Repeat(fill, width - |s|) + s
  }

  /** `String(n).padStart(2, "0")`: at least two digits, reading back as `n`. */
  function TwoDigits(n: nat): (r: string)
    ensures IsDigits(r) && |r| >= 2 && ParseNat(r) == n
    ensures n < 100 ==> |r| == 2
  {
    var s := NatToString(n);
    var r := PadStart(s, 2, '0');
    assert r == Repeat('0', |r| - |s|) + s;
    ParseNatZeroPrefix(|r| - |s|, s);
    r
  }

  /** The longest prefix of `s` made of decimal digits. */
  function LeadingDigits(s: string): (r: string)
    ensures |r| <= |s| && IsDigits(r) && r == s[..|r|]
    ensures |r| == |s| || !IsDigit(s[|r|])
  {
    if |s| == 0 || !IsDigit(s[0]) then "" else [s[0]] + LeadingDigits(s[1..])
  }

  /* ----- White space ----- */

  function TrimStart(s: string): (r: string)
    ensures |r| <= |s| && r == s[|s| - |r|..]
    ensures r == "" || !IsJsWhitespace(r[0])
    ensures forall i :: 0 <= i < |s| - |r| ==> IsJsWhitespace(s[i])
  {
    if |s| > 0 && IsJsWhitespace(s[0]) then TrimStart(s[1..]) else s
  }

  function TrimEnd(s: string): (r: string)
    ensures |r| <= |s| && r == s[..|r|]
    ensures r == "" || !IsJsWhitespace(r[|r| - 1])
    ensures forall i :: |r| <= i < |s| ==> IsJsWhitespace(s[i])
  {
    if |s| > 0 && IsJsWhitespace(s[|s| - 1]) then TrimEnd(s[..|s| - 1]) else s
  }

  /** `String.prototype.trim`. */
  function Trim(s: string): string {
    TrimStart(TrimEnd(s))
  }

  /** A string trims to the empty string exactly when it is all white space. */
  lemma TrimEmptyIff(s: string)
    ensures Trim(s) == "" <==> forall i :: 0 <= i < |s| ==> IsJsWhitespace(s[i])
  {
    var e := TrimEnd(s);
    if Trim(s) == "" {
      forall i | 0 <= i < |s|
        ensures IsJsWhitespace(s[i])
      {
        if i < |e| {
          assert IsJsWhitespace(e[i]);
        }
      }
    } else {
      var t := Trim(s);
      assert !IsJsWhitespace(t[0]);
      assert t[0] == e[|e| - |t|];
    }
  }

  /** A string that neither starts nor ends with white space is its own trim. */
  lemma TrimNoOp(s: string)
    requires s == "" || (!IsJsWhitespace(s[0]) && !IsJsWhitespace(s[|s| - 1]))
    ensures Trim(s) == s
  {
  }

  /* ----- parseInt(s, 10) ----- */

  /** `parseInt(s, 10)`: skip leading white space, read an optional sign and
      then the longest run of decimal digits; no digit at all gives `NaN`,
      modelled as `None`. */
  function ParseInt(s: string): Option<int> {
    ParseSigned(TrimStart(s))
  }

  /** The signed-numeral part of `parseInt`, after the white space. */
  function ParseSigned(t: string): Option<int> {
    var negative := |t| > 0 && t[0] == '-';
    var body := if |t| > 0 && (t[0] == '-' || t[0] == '+') then t[1..] else t;
    var digits := LeadingDigits(body);
    if |digits| == 0 then None else Some(Signed(negative, ParseNat(digits)))
  }

  function Signed(negative: bool, n: nat): int {
    var v: int := n;
    if negative then -v else v
  }

  lemma TrimStartNoOp(s: string)
    requires s == "" || !IsJsWhitespace(s[0])
    ensures TrimStart(s) == s
  {
  }

  /** `parseInt` reads back what `String` writes, whatever non-digit text
      follows the numeral. */
  lemma ParseIntOfNumeral(n: int, tail: string)
    requires tail == "" || !IsDigit(tail[0])
    ensures ParseInt(IntToString(n) + tail) == Some(n)
  {
    var m: nat := if n < 0 then -n else n;
    var d := NatToString(m);
    NumeralSplit(n, tail);
    SignedNumeralParses(n < 0, d, tail);
  }

  /** The text `String(n) + tail` as sign, digits and tail. */
  lemma NumeralSplit(n: int, tail: string)
    ensures var m: nat := if n < 0 then -n else n;
      IntToString(n) + tail == (if n < 0 then "-" else "") + (NatToString(m) + tail)
  {
    if n >= 0 {
      assert "" + (NatToString(n) + tail) == NatToString(n) + tail;
    }
  }

  /** A sign, digits, then text that does not start with a digit parse as
      the signed value of the digits. */
  lemma SignedNumeralParses(negative: bool, d: string, tail: string)
    requires |d| > 0 && IsDigits(d)
    requires tail == "" || !IsDigit(tail[0])
    ensures ParseInt((if negative then "-" else "") + (d + tail)) == Some(Signed(negative, ParseNat(d)))
  {
    var sign := if negative then "-" else "";
    var s := sign + (d + tail);
    LeadingDigitsOfNumeral(d, tail);
    NumeralStart(sign, d, tail);
    TrimStartNoOp(s);
    ParseSignedNumeral(negative, d, tail);
  }

  /** A signed numeral does not start with white space. */
  lemma NumeralStart(sign: string, d: string, tail: string)
    requires sign == "" || sign == "-"
    requires |d| > 0 && IsDigits(d)
    ensures !IsJsWhitespace((sign + (d + tail))[0])
  {
    var c := (sign + (d + tail))[0];
    assert c == '-' || c == d[0];
  }

  lemma ParseSignedNumeral(negative: bool, d: string, tail: string)
    requires |d| > 0 && IsDigits(d)
    requires LeadingDigits(d + tail) == d
    ensures ParseSigned((if negative then "-" else "") + (d + tail)) == Some(Signed(negative, ParseNat(d)))
  {
    var t := (if negative then "-" else "") + (d + tail);
    if negative {
      assert t[0] == '-' && t[1..] == d + tail;
    } else {
      assert t == d + tail;
      assert t[0] == d[0] && IsDigit(d[0]);
      assert t[0] != '-' && t[0] != '+';
    }
  }

  lemma {:induction false} LeadingDigitsOfNumeral(d: string, tail: string)
    requires IsDigits(d)
    requires tail == "" || !IsDigit(tail[0])
    ensures LeadingDigits(d + tail) == d
  {
    if |d| > 0 {
      assert (d + tail)[1..] == d[1..] + tail;
      LeadingDigitsOfNumeral(d[1..], tail);
    } else {
      assert d + tail == tail;
    }
  }

  /** `parseInt` is `NaN` exactly when no digit follows the white space and
      the optional sign. */
  lemma ParseIntNaN(s: string)
    ensures ParseInt(s).None? <==>
      var t := TrimStart(s);
      var body := if |t| > 0 && (t[0] == '-' || t[0] == '+') then t[1..] else t;
      body == "" || !IsDigit(body[0])
  {
  }

  /* ----- Case and length ----- */

  /** ASCII lower-casing of one character. */
  function LowerAscii(c: char): (r: char)
    ensures 'A' <= c <= 'Z' ==> r as int == c as int + 32
    ensures !('A' <= c <= 'Z') ==> r == c
  {
    if 'A' <= c <= 'Z' then (c as int + 32) as char else c
  }

  function LowerAsciiString(s: string): (r: string)
    ensures |r| == |s| && forall i :: 0 <= i < |s| ==> r[i] == LowerAscii(s[i])
  {
    seq(|s|, i requires 0 <= i < |s| => LowerAscii(s[i]))
  }

  predicate StartsWith(s: string, prefix: string) {
    |prefix| <= |s| && s[..|prefix|] == prefix
  }

  /** `String.prototype.length`: characters outside the Basic Multilingual
      Plane take two UTF-16 code units. */
  function Utf16Length(s: string): (r: nat)
    ensures |s| <= r <= 2 * |s|
  {
    if |s| == 0 then 0
    else (if s[0] as int > 0xFFFF then 2 else 1) + Utf16Length(s[1..])
  }

  /** For text in the Basic Multilingual Plane (all ASCII phone numbers, for
      instance) the UTF-16 length is the number of characters. */
  lemma {:induction false} Utf16LengthBmp(s: string)
    requires forall i :: 0 <= i < |s| ==> s[i] as int <= 0xFFFF
    ensures Utf16Length(s) == |s|
  {
    if |s| > 0 {
      Utf16LengthBmp(s[1..]);
    }
  }
}

/**
  Field values as the generator sees them through reflection, and their text
  as Convert.ToString and DateTime.ToString(format) produce it under the
  invariant culture.  The integer, decimal, Guid and sortable DateTime texts
  have a reference reading beside them (DigitsValue, ParseNumeral,
  ParseGuidText, the DateTime field lemmas) with a lemma that the reading
  gives the value back; the general DateTime text and the Boolean text have
  no such reading.
 */
module DotNetValues {
  import opened Wrappers

  // ---------------------------------------------------------------------------
  // Decimal digits

  predicate IsDigit(c: char)
  {
    '0' <= c <= '9'
  }

  predicate AllDigits(s: string)
  {
    forall i :: 0 <= i < |s| ==> IsDigit(s[i])
  }

  function DigitChar(d: nat): (c: char)
    requires d < 10
    ensures IsDigit(c) && c as int - '0' as int == d
  {
    ('0' as int + d) as char
  }

  function Pow10(k: nat): (p: nat)
    ensures p >= 1
  {
    if k == 0 then 1 else 10 * Pow10(k - 1)
  }

  /** Reference reading of a digit string as a natural number. */
  function DigitsValue(s: string): nat
    requires AllDigits(s)
    decreases |s|
  {
    if s == [] then 0 else DigitsValue(s[..|s| - 1]) * 10 + (s[|s| - 1] as int - '0' as int)
  }

  /** The decimal text of a natural number: digits only, no leading zero. */
  function NatText(n: nat): (r: string)
    ensures |r| > 0 && AllDigits(r)
    ensures |r| > 1 ==> r[0] != '0'
    decreases n
  {
    if n < 10 then [DigitChar(n)] else NatText(n / 10) + [DigitChar(n % 10)]
  }

  lemma {:induction false} NatTextValue(n: nat)
    ensures DigitsValue(NatText(n)) == n
    decreases n
  {
    if n >= 10 {
      var r := NatText(n);
      assert r[..|r| - 1] == NatText(n / 10);
      NatTextValue(n / 10);
    }
  }

  /** A number below 10^k has at most k digits. */
  lemma {:induction false} NatTextLength(n: nat, k: nat)
    requires k >= 1 && n < Pow10(k)
    ensures |NatText(n)| <= k
    decreases k
  {
    if n >= 10 {
      NatTextLength(n / 10, k - 1);
    }
  }

  function Zeros(k: nat): (r: string)
    ensures |r| == k && AllDigits(r)
  {
    seq(k, _ => '0')
  }

  /** Zero padding on the left to at least `width` characters ("00" custom format specifiers). */
  function ZeroPad(s: string, width: nat): (r: string)
    requires AllDigits(s)
    ensures AllDigits(r)
    ensures |r| == if |s| >= width then |s| else width
  {
    if |s| >= width then s else Zeros(width - |s|) + s
  }

  lemma {:induction false} ZerosValue(k: nat)
    ensures DigitsValue(Zeros(k)) == 0
  {
    if k > 0 {
      assert Zeros(k)[..k - 1] == Zeros(k - 1);
      ZerosValue(k - 1);
    }
  }

  lemma {:induction false} LeadingZerosValue(k: nat, s: string)
    requires AllDigits(s)
    ensures DigitsValue(Zeros(k) + s) == DigitsValue(s)
    decreases |s|
  {
    if s == [] {
      assert Zeros(k) + s == Zeros(k);
      ZerosValue(k);
    } else {
      var t := Zeros(k) + s;
      assert t[..|t| - 1] == Zeros(k) + s[..|s| - 1];
      LeadingZerosValue(k, s[..|s| - 1]);
    }
  }

  /** Padding never changes the number a digit string denotes. */
  lemma ZeroPadValue(s: string, width: nat)
    requires AllDigits(s)
    ensures DigitsValue(ZeroPad(s, width)) == DigitsValue(s)
  {
    if |s| < width {
      assert ZeroPad(s, width) == Zeros(width - |s|) + s;
      LeadingZerosValue(width - |s|, s);
    }
  }

  // ---------------------------------------------------------------------------
  // Integers and fixed-point numbers

  /** Int16/Int32/Int64.ToString(): an optional minus sign and the digits. */
  function IntText(i: int): string
  {
    if i < 0 then "-" + NatText(-i) else NatText(i)
  }

  /** Decimal.ToString() of units / 10^scale: the scale is kept, so 11.00m reads "11.00". */
  function DecimalText(units: int, scale: nat): string
  {
    if scale == 0 then IntText(units)
    else (if units < 0 then "-" else "") + FixedText(Magnitude(units), scale)
  }

  /** The unsigned digits of a decimal with a non-zero scale: the whole part, a
      point, and exactly `scale` fraction digits. */
  function FixedText(magnitude: nat, scale: nat): string
    requires scale > 0
  {
    NatText(WholePart(magnitude, scale)) + "." + ZeroPad(NatText(FractionPart(magnitude, scale)), scale)
  }

  function Magnitude(units: int): nat
  {
    if units < 0 then -units else units
  }

  /** The digits before the decimal point: magnitude / 10^scale. */
  function WholePart(magnitude: nat, scale: nat): nat
  {
    Quotient(magnitude, Pow10(scale))
  }

  function Quotient(a: nat, b: nat): nat
    requires b > 0
  {
    a / b
  }

  /** The digits after the decimal point: magnitude % 10^scale. */
  function FractionPart(magnitude: nat, scale: nat): (f: nat)
    ensures f < Pow10(scale)
  {
    magnitude % Pow10(scale)
  }

  predicate IsNumeralChar(c: char)
  {
    IsDigit(c) || c == '-' || c == '.'
  }

  /** Position of the first occurrence of c, or |s| when there is none. */
  function IndexOf(s: string, c: char): (k: nat)
    ensures k <= |s|
    ensures forall i :: 0 <= i < k ==> s[i] != c
    ensures k < |s| ==> s[k] == c
    decreases |s|
  {
    if s == [] then 0 else if s[0] == c then 0 else 1 + IndexOf(s[1..], c)
  }

  /** n * 10^k: the value of n followed by k zero digits. */
  function Shift(n: nat, k: nat): nat
  {
    n * Pow10(k)
  }

  /** Reference reading of a numeral: an optional '-', digits, and an optional
      '.' followed by digits; gives back units and scale. */
  function ParseNumeral(t: string): Option<(int, nat)>
  {
    if |t| > 0 && t[0] == '-' then
      match ParseUnsigned(t[1..])
      case Some((magnitude, scale)) => Some((-(magnitude as int), scale))
      case None => None
    else
      match ParseUnsigned(t)
      case Some((magnitude, scale)) => Some((magnitude as int, scale))
      case None => None
  }

  /** Digits with an optional '.'-fraction: the magnitude and the number of fraction digits. */
  function ParseUnsigned(body: string): Option<(nat, nat)>
  {
    var dot := IndexOf(body, '.');
    var whole := body[..dot];
    var fraction := if dot < |body| then body[dot + 1..] else "";
    if whole != [] && AllDigits(whole) && AllDigits(fraction) && (dot < |body| ==> fraction != []) then
      Some((Shift(DigitsValue(whole), |fraction|) + DigitsValue(fraction), |fraction|))
    else
      None
  }

  /** A digit string followed by an optional '.'-fraction splits at its first '.'. */
  lemma IndexOfAfterDigits(whole: string, rest: string)
    requires AllDigits(whole)
    requires rest == [] || rest[0] == '.'
    ensures IndexOf(whole + rest, '.') == |whole|
  {
    var s := whole + rest;
    assert forall i :: 0 <= i < |whole| ==> s[i] == whole[i];
    assert |s| > |whole| ==> s[|whole|] == '.';
  }

  lemma ParseWholeOnly(whole: string)
    requires whole != [] && AllDigits(whole)
    ensures ParseUnsigned(whole) == Some((DigitsValue(whole), 0))
  {
    IndexOfAfterDigits(whole, "");
    assert whole + "" == whole;
    assert whole[..|whole|] == whole;
  }

  lemma ParseWholeAndFraction(whole: string, fraction: string)
    requires whole != [] && AllDigits(whole)
    requires fraction != [] && AllDigits(fraction)
    ensures ParseUnsigned(whole + "." + fraction)
      == Some((Shift(DigitsValue(whole), |fraction|) + DigitsValue(fraction), |fraction|))
  {
    var body := whole + ("." + fraction);
    assert whole + "." + fraction == body;
    IndexOfAfterDigits(whole, "." + fraction);
    var dot := IndexOf(body, '.');
    assert dot == |whole|;
    assert dot < |body|;
    assert body[..dot] == whole;
    assert body[dot + 1..] == fraction;
  }

  /** A leading '-' negates what the rest reads as. */
  lemma ParseSigned(negative: bool, body: string, magnitude: nat, scale: nat)
    requires ParseUnsigned(body) == Some((magnitude, scale))
    requires |body| > 0 && body[0] != '-'
    ensures ParseNumeral((if negative then "-" else "") + body)
      == Some((if negative then -(magnitude as int) else magnitude as int, scale))
  {
    if negative {
      assert ("-" + body)[1..] == body;
    } else {
      assert "" + body == body;
    }
  }

  /** Decimal text reads back as the value it was made from. */
  lemma DecimalTextRoundTrip(units: int, scale: nat)
    ensures ParseNumeral(DecimalText(units, scale)) == Some((units, scale))
  {
    if scale == 0 {
      IntTextRoundTrip(units);
    } else {
      FractionalTextRoundTrip(units, scale);
    }
  }

  /** Integer text reads back as the integer, with scale 0. */
  lemma IntTextRoundTrip(i: int)
    ensures ParseNumeral(IntText(i)) == Some((i, 0))
  {
    var magnitude := Magnitude(i);
    NatTextValue(magnitude);
    ParseWholeOnly(NatText(magnitude));
    assert Shift(magnitude, 0) == magnitude;
    ParseSigned(i < 0, NatText(magnitude), magnitude, 0);
  }

  lemma FractionalTextRoundTrip(units: int, scale: nat)
    requires scale > 0
    ensures ParseNumeral(DecimalText(units, scale)) == Some((units, scale))
  {
    var magnitude := Magnitude(units);
    UnsignedDecimalText(magnitude, scale);
    ParseSigned(units < 0, FixedText(magnitude, scale), magnitude, scale);
  }

  /** The unsigned part of a fractional decimal's text reads back as its magnitude. */
  lemma UnsignedDecimalText(magnitude: nat, scale: nat)
    requires scale > 0
    ensures |FixedText(magnitude, scale)| > 0 && FixedText(magnitude, scale)[0] != '-'
    ensures ParseUnsigned(FixedText(magnitude, scale)) == Some((magnitude, scale))
  {
    var whole := NatText(WholePart(magnitude, scale));
    FractionDigits(magnitude, scale);
    var fraction := ZeroPad(NatText(FractionPart(magnitude, scale)), scale);
    NatTextValue(WholePart(magnitude, scale));
    ParseWholeAndFraction(whole, fraction);
    DivModParts(magnitude, scale);
  }

  /** Kept apart from its callers: in their context the solver cannot afford
      the division facts. */
  lemma DivModParts(magnitude: nat, scale: nat)
    ensures Shift(WholePart(magnitude, scale), scale) + FractionPart(magnitude, scale) == magnitude
  {
  }

  /** The fraction is written with exactly `scale` digits, leading zeros kept. */
  lemma FractionDigits(magnitude: nat, scale: nat)
    requires scale > 0
    ensures var fraction := ZeroPad(NatText(FractionPart(magnitude, scale)), scale);
      && fraction != [] && AllDigits(fraction) && |fraction| == scale
      && DigitsValue(fraction) == FractionPart(magnitude, scale)
  {
    NatTextLength(FractionPart(magnitude, scale), scale);
    ZeroPadValue(NatText(FractionPart(magnitude, scale)), scale);
    NatTextValue(FractionPart(magnitude, scale));
  }


  /** Numerals hold only digits, '-' and '.', and are never empty. */
  lemma DecimalTextChars(units: int, scale: nat)
    ensures |DecimalText(units, scale)| > 0
    ensures forall i :: 0 <= i < |DecimalText(units, scale)| ==> IsNumeralChar(DecimalText(units, scale)[i])
  {
  }

  // ---------------------------------------------------------------------------
  // DateTime

  datatype DateTime = DateTime(year: int, month: int, day: int, hour: int, minute: int, second: int)

  predicate IsLeapYear(year: int)
  {
    year % 4 == 0 && (year % 100 != 0 || year % 400 == 0)
  }

  function DaysInMonth(year: int, month: int): int
    requires 1 <= month <= 12
  {
    if month == 2 then (if IsLeapYear(year) then 29 else 28)
    else if month == 4 || month == 6 || month == 9 || month == 11 then 30
    else 31
  }

  /** The range of System.DateTime, to the second. */
  predicate ValidDateTime(d: DateTime)
  {
    && 1 <= d.year <= 9999
    && 1 <= d.month <= 12
    && 1 <= d.day <= DaysInMonth(d.year, d.month)
    && 0 <= d.hour < 24
    && 0 <= d.minute < 60
    && 0 <= d.second < 60
  }

  function Pad(n: int, width: nat): (r: string)
    requires n >= 0
    ensures AllDigits(r)
  {
    ZeroPad(NatText(n), width)
  }

  /** DateTime.ToString("yyyy-MM-dd HH:mm:ss"). */
  function SortableText(d: DateTime): (r: string)
    requires ValidDateTime(d)
    ensures |r| == 19
  {
    assert Pow10(2) == 100 && Pow10(4) == 10000 by {
      assert Pow10(1) == 10;
      assert Pow10(3) == 1000;
    }
    PadExact(d.year, 4);
    PadExact(d.month, 2);
    PadExact(d.day, 2);
    PadExact(d.hour, 2);
    PadExact(d.minute, 2);
    PadExact(d.second, 2);
    Pad(d.year, 4) + "-" + Pad(d.month, 2) + "-" + Pad(d.day, 2) + " "
    + Pad(d.hour, 2) + ":" + Pad(d.minute, 2) + ":" + Pad(d.second, 2)
  }

  /** A width-w pad of a number below 10^w has exactly w digits and keeps its value. */
  lemma PadExact(n: nat, width: nat)
    requires width >= 1 && n < Pow10(width)
    ensures |Pad(n, width)| == width
    ensures DigitsValue(Pad(n, width)) == n
  {
    NatTextLength(n, width);
    ZeroPadValue(NatText(n), width);
    NatTextValue(n);
  }

  /** The sortable text is always 19 characters, with each component at a fixed
      place and reading back as that component. */
  lemma SortableTextFields(d: DateTime)
    requires ValidDateTime(d)
    ensures var t := SortableText(d);
      && |t| == 19
      && t[4] == '-' && t[7] == '-' && t[10] == ' ' && t[13] == ':' && t[16] == ':'
      && AllDigits(t[..4]) && DigitsValue(t[..4]) == d.year
      && AllDigits(t[5..7]) && DigitsValue(t[5..7]) == d.month
      && AllDigits(t[8..10]) && DigitsValue(t[8..10]) == d.day
      && AllDigits(t[11..13]) && DigitsValue(t[11..13]) == d.hour
      && AllDigits(t[14..16]) && DigitsValue(t[14..16]) == d.minute
      && AllDigits(t[17..19]) && DigitsValue(t[17..19]) == d.second
  {
    assert Pow10(2) == 100 && Pow10(4) == 10000 by {
      assert Pow10(1) == 10;
      assert Pow10(3) == 1000;
    }
    PadExact(d.year, 4);
    PadExact(d.month, 2);
    PadExact(d.day, 2);
    PadExact(d.hour, 2);
    PadExact(d.minute, 2);
    PadExact(d.second, 2);
    SortableLayout(Pad(d.year, 4), Pad(d.month, 2), Pad(d.day, 2), Pad(d.hour, 2), Pad(d.minute, 2), Pad(d.second, 2));
  }

  /** Where each field of "yyyy-MM-dd HH:mm:ss" sits. */
  lemma SortableLayout(y: string, mo: string, dd: string, h: string, mi: string, s: string)
    requires |y| == 4 && |mo| == 2 && |dd| == 2 && |h| == 2 && |mi| == 2 && |s| == 2
    ensures var t := y + "-" + mo + "-" + dd + " " + h + ":" + mi + ":" + s;
      && |t| == 19
      && t[4] == '-' && t[7] == '-' && t[10] == ' ' && t[13] == ':' && t[16] == ':'
      && t[..4] == y && t[5..7] == mo && t[8..10] == dd
      && t[11..13] == h && t[14..16] == mi && t[17..19] == s
  {
    var date := y + "-" + mo + "-" + dd;
    var time := h + ":" + mi + ":" + s;
    assert |date| == 10 && date[..4] == y && date[4] == '-' && date[5..7] == mo && date[7] == '-' && date[8..10] == dd;
    assert |time| == 8 && time[..2] == h && time[2] == ':' && time[3..5] == mi && time[5] == ':' && time[6..8] == s;
    var t := date + " " + time;
    assert y + "-" + mo + "-" + dd + " " + h + ":" + mi + ":" + s == t;
    assert t[..10] == date && t[11..] == time;
  }

  /** Convert.ToString(DateTime) under the invariant culture: "MM/dd/yyyy HH:mm:ss". */
  function GeneralText(d: DateTime): (r: string)
    requires ValidDateTime(d)
    ensures |r| == 19
    ensures r[2] == '/' && r[5] == '/' && r[10] == ' ' && r[13] == ':' && r[16] == ':'
  {
    assert Pow10(2) == 100 && Pow10(4) == 10000 by {
      assert Pow10(1) == 10;
      assert Pow10(3) == 1000;
    }
    PadExact(d.year, 4);
    PadExact(d.month, 2);
    PadExact(d.day, 2);
    PadExact(d.hour, 2);
    PadExact(d.minute, 2);
    PadExact(d.second, 2);
    Pad(d.month, 2) + "/" + Pad(d.day, 2) + "/" + Pad(d.year, 4) + " "
    + Pad(d.hour, 2) + ":" + Pad(d.minute, 2) + ":" + Pad(d.second, 2)
  }

  // ---------------------------------------------------------------------------
  // Guid

  type Nibble = n: nat | n < 16

  /** A Guid as its 32 hexadecimal digits, in display order. */
  type Guid = g: seq<Nibble> | |g| == 32 witness seq(32, _ => 0)

  function HexChar(n: Nibble): char
  {
    "0123456789abcdef"[n]
  }

  predicate IsHexChar(c: char)
  {
    '0' <= c <= '9' || 'a' <= c <= 'f'
  }

  function HexValue(c: char): Nibble
    requires IsHexChar(c)
  {
    if c <= '9' then c as int - '0' as int else c as int - 'a' as int + 10
  }

  function HexText(g: seq<Nibble>): (r: string)
    ensures |r| == |g|
  {
    seq(|g|, i requires 0 <= i < |g| => HexChar(g[i]))
  }

  /** Guid.ToString(), the "D" format: 8-4-4-4-12 lower-case hexadecimal digits. */
  function GuidText(g: Guid): string
  {
    HexText(g[..8]) + "-" + HexText(g[8..12]) + "-" + HexText(g[12..16]) + "-"
    + HexText(g[16..20]) + "-" + HexText(g[20..])
  }

  /** Reference reading of the "D" format. */
  function ParseGuidText(t: string): Option<Guid>
  {
    if |t| == 36 && t[8] == '-' && t[13] == '-' && t[18] == '-' && t[23] == '-' then
      var digits := t[..8] + t[9..13] + t[14..18] + t[19..23] + t[24..];
      if forall i :: 0 <= i < |digits| ==> IsHexChar(digits[i]) then
        Some(seq(32, i requires 0 <= i < 32 => HexValue(digits[i])))
      else
        None
    else
      None
  }

  lemma HexCharValue(n: Nibble)
    ensures IsHexChar(HexChar(n)) && HexValue(HexChar(n)) == n
  {
  }

  /** Guid text is 36 characters, holds no quote, and reads back as the Guid. */
  lemma GuidTextRoundTrip(g: Guid)
    ensures |GuidText(g)| == 36
    ensures '\'' !in GuidText(g)
    ensures ParseGuidText(GuidText(g)) == Some(g)
  {
    var a, b, c, d, e := HexText(g[..8]), HexText(g[8..12]), HexText(g[12..16]), HexText(g[16..20]), HexText(g[20..]);
    GuidLayout(a, b, c, d, e);
    HexTextAppend(g[..8], g[8..12]);
    HexTextAppend(g[..8] + g[8..12], g[12..16]);
    HexTextAppend(g[..8] + g[8..12] + g[12..16], g[16..20]);
    HexTextAppend(g[..8] + g[8..12] + g[12..16] + g[16..20], g[20..]);
    assert g[..8] + g[8..12] + g[12..16] + g[16..20] + g[20..] == g;
    var digits := HexText(g);
    assert digits == a + b + c + d + e;
    forall i | 0 <= i < 32
      ensures IsHexChar(digits[i]) && HexValue(digits[i]) == g[i]
    {
      HexCharValue(g[i]);
    }
    assert seq(32, i requires 0 <= i < 32 => HexValue(digits[i])) == g;
    assert '\'' !in digits;
  }

  lemma HexTextAppend(x: seq<Nibble>, y: seq<Nibble>)
    ensures HexText(x + y) == HexText(x) + HexText(y)
  {
  }

  /** Where the five groups of "xxxxxxxx-xxxx-xxxx-xxxx-xxxxxxxxxxxx" sit. */
  lemma GuidLayout(a: string, b: string, c: string, d: string, e: string)
    requires |a| == 8 && |b| == 4 && |c| == 4 && |d| == 4 && |e| == 12
    ensures var t := a + "-" + b + "-" + c + "-" + d + "-" + e;
      && |t| == 36 && t[8] == '-' && t[13] == '-' && t[18] == '-' && t[23] == '-'
      && t[..8] + t[9..13] + t[14..18] + t[19..23] + t[24..] == a + b + c + d + e
      && forall x :: x in t ==> x == '-' || x in a + b + c + d + e
  {
    var t := a + "-" + b + "-" + c + "-" + d + "-" + e;
    assert t[..8] == a && t[9..13] == b && t[14..18] == c && t[19..23] == d && t[24..] == e;
  }

  // ---------------------------------------------------------------------------
  // Values

  /** A non-null value held by a property. */
  datatype Value =
    | Text(text: string)               // a string, or any value whose Convert.ToString is this text
    | Uuid(guid: Guid)                 // System.Guid
    | Moment(dateTime: DateTime)       // System.DateTime
    | Integer(integer: int)            // System.Int16, Int32, Int64
    | Number(units: int, scale: nat)   // System.Decimal or System.Double: units / 10^scale
    | Boolean(truth: bool)             // System.Boolean

  predicate ValidValue(v: Value)
  {
    v.Moment? ==> ValidDateTime(v.dateTime)
  }

  /** Convert.ToString(value) under the invariant culture. */
  function ConvertToString(v: Value): (r: string)
    requires ValidValue(v)
    ensures v.Text? ==> r == v.text
    ensures v.Uuid? ==> |r| == 36 && ParseGuidText(r) == Some(v.guid)
    ensures v.Integer? ==> ParseNumeral(r) == Some((v.integer, 0))
    ensures v.Number? ==> ParseNumeral(r) == Some((v.units, v.scale))
  {
    match v
    case Text(s) => s
    case Uuid(g) => GuidTextRoundTrip(g); GuidText(g)
    case Moment(d) => GeneralText(d)
    case Integer(i) => IntTextRoundTrip(i); IntText(i)
    case Number(units, scale) => DecimalTextRoundTrip(units, scale); DecimalText(units, scale)
    case Boolean(b) => if b then "True" else "False"
  }
}

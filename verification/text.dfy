/**
 String helpers with the Python semantics the program relies on, over ASCII:
 `str.lower`/`str.upper`, `str.strip`, `str.split(sep)`, `str(int)`,
 and the subset of `int(s)`/`float(s)` numerals made of ASCII digits.
 */
module Text {
  import opened Wrappers

  predicate IsDigit(c: char) {
    '0' <= c <= '9'
  }

  predicate AllDigits(s: string) {
    forall i :: 0 <= i < |s| ==> IsDigit(s[i])
  }

  /** The ASCII characters for which Python's `str.isspace()` holds. */
  predicate IsSpace(c: char) {
    c == ' ' || 9 <= c as int <= 13 || 28 <= c as int <= 31
  }

  function LowerChar(c: char): char {
    if 'A' <= c <= 'Z' then (c as int + 32) as char else c
  }

  function UpperChar(c: char): char {
    if 'a' <= c <= 'z' then (c as int - 32) as char else c
  }

  function Lower(s: string): (r: string)
    ensures |r| == |s|
    ensures forall i :: 0 <= i < |s| ==> r[i] == LowerChar(s[i])
  {
    seq(|s|, i requires 0 <= i < |s| => LowerChar(s[i]))
  }

  function Upper(s: string): (r: string)
    ensures |r| == |s|
    ensures forall i :: 0 <= i < |s| ==> r[i] == UpperChar(s[i])
  {
    seq(|s|, i requires 0 <= i < |s| => UpperChar(s[i]))
  }

  /** Case folding forgets the case a string had, in either direction. */
  lemma CaseFolds(s: string)
    ensures Upper(Lower(s)) == Upper(s)
    ensures Lower(Upper(s)) == Lower(s)
  {
  }

  /** `s.lstrip()` */
  function StripLeft(s: string): (r: string)
    ensures |r| <= |s| && r == s[|s| - |r|..]
    ensures |r| > 0 ==> !IsSpace(r[0])
  {
    if |s| > 0 && IsSpace(s[0]) then StripLeft(s[1..]) else s
  }

  /** `s.rstrip()` */
  function StripRight(s: string): (r: string)
    ensures |r| <= |s| && r == s[..|r|]
    ensures |r| > 0 ==> !IsSpace(r[|r| - 1])
  {
    if |s| > 0 && IsSpace(s[|s| - 1]) then StripRight(s[..|s| - 1]) else s
  }

  /** `s.strip()`: the longest slice of `s` that neither starts nor ends with whitespace. */
  function Strip(s: string): (r: string)
    ensures |r| <= |s|
    ensures |r| > 0 ==> !IsSpace(r[0]) && !IsSpace(r[|r| - 1])
    ensures forall c :: c in r ==> c in s
  {
    var l := StripLeft(s);
    assert forall c :: c in l ==> c in s;
    StripRight(l)
  }

  /** A string that neither starts nor ends with whitespace is its own `strip()`. */
  lemma StripTrimmed(s: string)
    requires |s| > 0 ==> !IsSpace(s[0]) && !IsSpace(s[|s| - 1])
    ensures Strip(s) == s
  {
  }

  /** The position of the first `c` in `s`, if any. */
  function IndexOf(s: string, c: char): (r: Option<nat>)
    ensures r.Some? ==> r.value < |s| && s[r.value] == c && c !in s[..r.value]
    ensures r.None? ==> c !in s
  {
    if |s| == 0 then None
    else if s[0] == c then Some(0)
    else match IndexOf(s[1..], c)
      case None => None
      case Some(i) => assert s[..i + 1] == [s[0]] + s[1..][..i]; Some(i + 1)
  }

  /** `s.split(sep)`: the pieces between the occurrences of `sep`; never empty. */
  function SplitOn(s: string, sep: char): (parts: seq<string>)
    ensures |parts| >= 1
    decreases |s|
  {
    match IndexOf(s, sep)
    case None => [s]
    case Some(i) => [s[..i]] + SplitOn(s[i + 1..], sep)
  }

  /** `sep.join(parts)` */
  function Join(parts: seq<string>, sep: char): string
    requires |parts| >= 1
  {
    if |parts| == 1 then parts[0] else parts[0] + [sep] + Join(parts[1..], sep)
  }

  /** Splitting loses nothing: joining the pieces again gives back the string. */
  lemma {:induction false} SplitJoin(s: string, sep: char)
    ensures Join(SplitOn(s, sep), sep) == s
    decreases |s|
  {
    match IndexOf(s, sep)
    case None =>
    case Some(i) =>
      var rest := SplitOn(s[i + 1..], sep);
      SplitJoin(s[i + 1..], sep);
      var parts := [s[..i]] + rest;
      assert SplitOn(s, sep) == parts;
      assert parts[0] == s[..i] && parts[1..] == rest;
      assert Join(parts, sep) == s[..i] + [sep] + Join(rest, sep);
      assert s == s[..i] + [sep] + s[i + 1..];
  }

  /** No piece of a split contains the separator. */
  lemma {:induction false} SplitPieces(s: string, sep: char)
    ensures forall j :: 0 <= j < |SplitOn(s, sep)| ==> sep !in SplitOn(s, sep)[j]
    decreases |s|
  {
    match IndexOf(s, sep)
    case None =>
    case Some(i) =>
      SplitPieces(s[i + 1..], sep);
      var rest := SplitOn(s[i + 1..], sep);
      assert SplitOn(s, sep) == [s[..i]] + rest;
  }

  /** `needle in hay` for strings (substring test). */
  predicate Contains(hay: string, needle: string)
    decreases |hay|
  {
    (|needle| <= |hay| && hay[..|needle|] == needle) || (|hay| > 0 && Contains(hay[1..], needle))
  }

  function DigitChar(d: nat): char
    requires d < 10
  {
    ('0' as int + d) as char
  }

  /** The number written by a string of decimal digits (most significant first). */
  function DigitsValue(ds: string): nat
    requires AllDigits(ds)
  {
    if |ds| == 0 then 0 else DigitsValue(ds[..|ds| - 1]) * 10 + (ds[|ds| - 1] as int - '0' as int)
  }

  function NatToString(n: nat): (s: string)
    ensures |s| > 0 && AllDigits(s)
  {
    if n < 10 then [DigitChar(n)] else NatToString(n / 10) + [DigitChar(n % 10)]
  }

  /** `str(i)` for a Python int. */
  function IntToString(i: int): (s: string)
    ensures |s| > 0 && !IsSpace(s[0]) && !IsSpace(s[|s| - 1])
  {
    if i < 0 then "-" + NatToString(-i) else NatToString(i)
  }

  /** `str(i)` is an optional minus sign and digits: it holds no dot and no letter. */
  lemma IntToStringShape(i: int)
    ensures forall j :: 0 <= j < |IntToString(i)| ==> IntToString(i)[j] == '-' || IsDigit(IntToString(i)[j])
    ensures '.' !in IntToString(i)
  {
  }

  lemma {:induction false} NatToStringValue(n: nat)
    ensures DigitsValue(NatToString(n)) == n
  {
    if n >= 10 {
      NatToStringValue(n / 10);
      var s := NatToString(n);
      assert s[..|s| - 1] == NatToString(n / 10);
    }
  }

  /**
   `int(s)`: surrounding whitespace, an optional sign, then one or more ASCII
   digits; anything else is the `ValueError` case (None).
   */
  function ParseInt(s: string): Option<int> {
    var t := Strip(s);
    if |t| > 0 && (t[0] == '+' || t[0] == '-') then
      if |t| > 1 && AllDigits(t[1..]) then
        var n: int := DigitsValue(t[1..]);
        Some(if t[0] == '-' then -n else n)
      else None
    else if |t| > 0 && AllDigits(t) then Some(DigitsValue(t))
    else None
  }

  /** What `int()` accepts: after stripping, every character but a leading sign is a digit. */
  lemma ParseIntShape(s: string)
    ensures ParseInt(s).Some? ==> forall i :: 0 < i < |Strip(s)| ==> IsDigit(Strip(s)[i])
  {
  }

  /** `int("1.5")` raises: a fraction is not an integer literal. */
  lemma ParseIntRejectsFraction()
    ensures ParseInt("1.5").None?
  {
    ParseIntShape("1.5");
    StripTrimmed("1.5");
    assert !IsDigit(Strip("1.5")[1]);
  }

  /** `int(str(i)) == i`: the integer parser inverts the integer printer. */
  lemma ParseIntToString(i: int)
    ensures ParseInt(IntToString(i)) == Some(i)
  {
    var s := IntToString(i);
    StripTrimmed(s);
    if i < 0 {
      NatToStringValue(-i);
      assert s[1..] == NatToString(-i);
    } else {
      NatToStringValue(i);
    }
  }

  function Pow10(e: nat): (p: nat)
    ensures p >= 1
  {
    if e == 0 then 1 else 10 * Pow10(e - 1)
  }

  /** Multiplication by ten to the power `e` (any sign). */
  function Scale(m: real, e: int): real {
    if e >= 0 then m * Pow10(e) as real else m / Pow10(-e) as real
  }

  /** The exponent part after `e`/`E`: an optional sign and one or more digits. */
  function ParseExponent(x: string): Option<int> {
    if |x| > 0 && (x[0] == '+' || x[0] == '-') then
      if |x| > 1 && AllDigits(x[1..]) then
        var n: int := DigitsValue(x[1..]);
        Some(if x[0] == '-' then -n else n)
      else None
    else if |x| > 0 && AllDigits(x) then Some(DigitsValue(x))
    else None
  }

  /** A mantissa `digits[.digits]` with at least one digit; the result is exact. */
  function ParseMantissa(m: string): Option<real> {
    match IndexOf(m, '.')
    case None => if |m| > 0 && AllDigits(m) then Some(DigitsValue(m) as real) else None
    case Some(i) => ParseFraction(m[..i], m[i + 1..])
  }

  /** The digits before and after the decimal point. */
  function ParseFraction(ip: string, fp: string): Option<real> {
    if |ip| + |fp| > 0 && AllDigits(ip) && AllDigits(fp) then
      assert AllDigits(ip + fp);
      Some(Scale(DigitsValue(ip + fp) as real, -|fp|))
    else None
  }

  /** The first exponent marker, `e` or `E`. */
  function ExponentMark(body: string): (r: Option<nat>)
    ensures r.Some? ==> r.value < |body|
  {
    match IndexOf(body, 'e')
    case Some(i) => Some(i)
    case None => IndexOf(body, 'E')
  }

  /** An unsigned numeral: a mantissa and an optional exponent. */
  function ParseUnsigned(body: string): Option<real> {
    match ExponentMark(body)
    case None => ParseMantissa(body)
    case Some(i) =>
      match ParseMantissa(body[..i])
      case None => None
      case Some(m) =>
        match ParseExponent(body[i + 1..])
        case None => None
        case Some(x) => Some(Scale(m, x))
  }

  /**
   `float(s)` for decimal numerals: surrounding whitespace, an optional sign, a
   mantissa and an optional exponent. The value is the exact decimal, not its
   nearest binary double.
   */
  function ParseFloat(s: string): Option<real> {
    var t := Strip(s);
    if |t| > 0 && t[0] == '-' then
      match ParseUnsigned(t[1..])
      case None => None
      case Some(v) => Some(-v)
    else if |t| > 0 && t[0] == '+' then ParseUnsigned(t[1..])
    else ParseUnsigned(t)
  }

  lemma NoCharInDigits(s: string, c: char)
    requires AllDigits(s) && !IsDigit(c)
    ensures IndexOf(s, c).None?
  {
  }

  lemma MantissaDigits(s: string)
    requires |s| > 0 && AllDigits(s)
    ensures ParseMantissa(s) == Some(DigitsValue(s) as real)
  {
    NoCharInDigits(s, '.');
  }

  /** A plain digit string reads the same through `float()` as through `int()`. */
  lemma ParseFloatDigits(s: string)
    requires |s| > 0 && AllDigits(s)
    ensures ParseFloat(s) == Some(DigitsValue(s) as real)
    ensures ParseInt(s) == Some(DigitsValue(s))
  {
    assert !IsSpace(s[0]) && !IsSpace(s[|s| - 1]);
    StripTrimmed(s);
    assert !(s[0] == '+' || s[0] == '-');
    NoCharInDigits(s, 'e');
    NoCharInDigits(s, 'E');
    MantissaDigits(s);
  }
}

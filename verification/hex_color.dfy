/**
 Hexadecimal color parsing, as done by `hexToRgb` in Colorgrill.jsx.

 The source accepts the two patterns `^#?([a-f\d])([a-f\d])([a-f\d])$` and
 `^#?([a-f\d]{2})([a-f\d]{2})([a-f\d]{2})$`, both case-insensitive. It first
 rewrites a shorthand string to its six-digit form by doubling every digit
 (dropping any `#`), then matches the six-digit pattern and reads each digit
 pair with `parseInt(_, 16)`. Anything else yields `null`, here `None`.
 */
module HexColor {
  import opened Wrappers

  /** The `[r, g, b]` array returned on success. */
  datatype Rgb = Rgb(red: int, green: int, blue: int)

  /** `[a-f\d]` under the `i` flag: an ASCII digit or a letter a-f in either case. */
  predicate IsHexDigit(c: char) {
    '0' <= c <= '9' || 'a' <= c <= 'f' || 'A' <= c <= 'F'
  }

  predicate AllHex(ds: string) {
    forall k :: 0 <= k < |ds| ==> IsHexDigit(ds[k])
  }

  function DigitValue(c: char): (v: nat)
    requires IsHexDigit(c)
    ensures v < 16
    ensures '0' <= c <= '9' ==> v < 10
    ensures !('0' <= c <= '9') ==> 10 <= v
  {
    if '0' <= c <= '9' then c as int - '0' as int
    else if 'a' <= c <= 'f' then c as int - 'a' as int + 10
    else c as int - 'A' as int + 10
  }

  /** The optional leading `#` of both patterns. */
  function StripHash(s: string): string {
    if |s| > 0 && s[0] == '#' then s[1..] else s
  }

  /** `s` matches `^#?` followed by exactly `n` hex digits. Since `#` is not a
      hex digit, at most one leading `#` can be consumed. */
  predicate HexOfLength(s: string, n: nat) {
    var d := StripHash(s);
    |d| == n && AllHex(d)
  }

  /** The shorthand pattern of line 44. */
  predicate IsShorthand(s: string) {
    HexOfLength(s, 3)
  }

  /** The six-digit pattern of line 48. */
  predicate IsFullForm(s: string) {
    HexOfLength(s, 6)
  }

  function Pow16(k: nat): (p: nat)
    ensures p >= 1
  {
    if k == 0 then 1 else 16 * Pow16(k - 1)
  }

  /** `parseInt(ds, 16)` on a string of hex digits: the base-16 value of the
      digits, most significant first. The empty string, which the parser never
      passes here, is given 0, where `parseInt` would give `NaN`. */
  function ParseHex(ds: string): (n: nat)
    requires AllHex(ds)
    ensures n < Pow16(|ds|)
    decreases |ds|
  {
    if |ds| == 0 then 0
    else 16 * ParseHex(ds[..|ds| - 1]) + DigitValue(ds[|ds| - 1])
  }

  /** The value of a two-digit channel written as `hi lo`. */
  function PairValue(hi: char, lo: char): nat
    requires IsHexDigit(hi) && IsHexDigit(lo)
  {
    16 * DigitValue(hi) + DigitValue(lo)
  }

  lemma ParseTwoDigits(ds: string)
    requires |ds| == 2 && AllHex(ds)
    ensures ParseHex(ds) == PairValue(ds[0], ds[1])
  {
    assert ds[..1][..0] == [];
  }

  /** The `replace` of lines 45-47: a shorthand string becomes its six doubled
      digits without `#`; every other string is returned unchanged. */
  function ExpandShorthand(s: string): (t: string)
    ensures IsShorthand(s) ==> |t| == 6 && AllHex(t)
    ensures IsShorthand(s) ==> forall k :: 0 <= k < 6 ==> t[k] == StripHash(s)[k / 2]
    ensures !IsShorthand(s) ==> t == s
  {
    if IsShorthand(s) then
      var d := StripHash(s);
      [d[0], d[0], d[1], d[1], d[2], d[2]]
    else s
  }

  /** The `exec` of line 48: the three two-digit capture groups, or no match. */
  function MatchFullForm(s: string): (m: Option<(string, string, string)>)
    ensures m.Some? <==> IsFullForm(s)
    ensures m.Some? ==> StripHash(s) == m.value.0 + m.value.1 + m.value.2
    ensures m.Some? ==> |m.value.0| == |m.value.1| == |m.value.2| == 2
  {
    if IsFullForm(s) then
      var d := StripHash(s);
      Some((d[0..2], d[2..4], d[4..6]))
    else None
  }

  predicate InByteRange(c: Rgb) {
    0 <= c.red < 256 && 0 <= c.green < 256 && 0 <= c.blue < 256
  }

  /** `hexToRgb` (lines 43-54). It succeeds exactly on the two patterns. A
      six-digit string gives each channel as the value of its digit pair. A
      shorthand string gives each channel as its digit doubled, i.e. 17 times
      the digit. Every channel is a byte. */
  function HexToRgb(hex: string): (r: Option<Rgb>)
    ensures r.Some? <==> IsShorthand(hex) || IsFullForm(hex)
    ensures IsFullForm(hex) ==>
      var d := StripHash(hex);
      r == Some(Rgb(PairValue(d[0], d[1]), PairValue(d[2], d[3]), PairValue(d[4], d[5])))
    ensures IsShorthand(hex) ==>
      var d := StripHash(hex);
      r == Some(Rgb(17 * DigitValue(d[0]), 17 * DigitValue(d[1]), 17 * DigitValue(d[2])))
    ensures r.Some? ==> InByteRange(r.value)
  {
    var t := ExpandShorthand(hex);
    match MatchFullForm(t)
    case None => None
    case Some((hi, mid, lo)) =>
      assert AllHex(hi) && AllHex(mid) && AllHex(lo) by {
        assert StripHash(t) == hi + mid + lo;
        forall k | 0 <= k < 2
          ensures hi[k] == StripHash(t)[k] && mid[k] == StripHash(t)[2 + k] && lo[k] == StripHash(t)[4 + k]
        {
        }
      }
      ParseTwoDigits(hi);
      ParseTwoDigits(mid);
      ParseTwoDigits(lo);
      Some(Rgb(ParseHex(hi), ParseHex(mid), ParseHex(lo)))
  }

  /** Doubling the digits of a shorthand color does not change what it parses
      to: `#abc` and `aabbcc` give the same channels. */
  lemma ShorthandAgreesWithExpansion(s: string)
    requires IsShorthand(s)
    ensures IsFullForm(ExpandShorthand(s))
    ensures HexToRgb(s) == HexToRgb(ExpandShorthand(s))
    ensures HexToRgb(s) == HexToRgb("#" + ExpandShorthand(s))
  {
    var t := ExpandShorthand(s);
    assert StripHash(t) == t;
    assert StripHash("#" + t) == t;
  }

  /** The widget's initial color parses to its three channels. */
  lemma ParseInitialColorExample()
    ensures HexToRgb("#FFB1FF") == Some(Rgb(255, 177, 255))
  {
    var d := StripHash("#FFB1FF");
    assert d == "FFB1FF";
    assert IsFullForm("#FFB1FF");
  }

  /** A shorthand color parses like its doubled form. */
  lemma ParseShorthandExample()
    ensures HexToRgb("#abc") == Some(Rgb(170, 187, 204))
    ensures HexToRgb("aabbcc") == Some(Rgb(170, 187, 204))
  {
    assert StripHash("#abc") == "abc";
    assert IsShorthand("#abc");
    assert StripHash("aabbcc") == "aabbcc";
    assert IsFullForm("aabbcc");
  }

  /** Strings of neither pattern are rejected. */
  lemma ParseRejectExamples()
    ensures HexToRgb("not-a-color") == None
    ensures HexToRgb("#abcd") == None
    ensures HexToRgb("##abc") == None
  {
    assert StripHash("not-a-color") == "not-a-color";
    assert StripHash("#abcd") == "abcd";
    assert StripHash("##abc") == "#abc";
    assert !IsHexDigit("#abc"[0]);
  }

  /** The lower-case hex digit for `v`. */
  function HexChar(v: nat): (c: char)
    requires v < 16
    ensures IsHexDigit(c) && DigitValue(c) == v
  {
    if v < 10 then ('0' as int + v) as char else ('a' as int + v - 10) as char
  }

  /** The `#rrggbb` string a color picker reports for a color. */
  function PickerHex(c: Rgb): (s: string)
    requires InByteRange(c)
  {
    ['#', HexChar(c.red / 16), HexChar(c.red % 16),
     HexChar(c.green / 16), HexChar(c.green % 16),
     HexChar(c.blue / 16), HexChar(c.blue % 16)]
  }

  /** Every color a picker reports in `#rrggbb` form parses back to itself. */
  lemma PickerHexRoundTrip(c: Rgb)
    requires InByteRange(c)
    ensures HexToRgb(PickerHex(c)) == Some(c)
  {
    var s := PickerHex(c);
    assert StripHash(s) == s[1..];
    assert IsFullForm(s);
  }
}

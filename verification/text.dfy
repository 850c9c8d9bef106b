/** The parts of .NET string handling the importer relies on: `char.IsWhiteSpace`,
    `Trim`, ordinal-ignore-case comparison, substring tests, decimal rendering of
    integers and `int.Parse` / `int.TryParse` with `NumberStyles.Integer`. */
module Text {
  import opened Wrappers

  /** The culture-dependent library parsers, left uninterpreted:
      `decimal.TryParse`, `long.TryParse` and `DateTime.TryParse` in the current
      culture, and the invariant-culture decimal re-render of a number cell
      (`decimal.TryParse(s, Float, Invariant)` followed by `ToString(Invariant)`,
      `None` when the parse fails). */
  datatype Culture = Culture(
    isDecimal: string -> bool,
    isLong: string -> bool,
    isDateTime: string -> bool,
    invariantDecimal: string -> Option<string>)

  const Int32Min: int := -0x8000_0000
  const Int32Max: int := 0x7FFF_FFFF

  /** `char.IsWhiteSpace`: the characters of the Unicode White_Space property. */
  predicate IsWhiteSpace(c: char) {
    var n := c as int;
    (0x09 <= n <= 0x0D) || n == 0x20 || n == 0x85 || n == 0xA0 || n == 0x1680
    || (0x2000 <= n <= 0x200A) || n == 0x2028 || n == 0x2029 || n == 0x202F
    || n == 0x205F || n == 0x3000
  }

  /** `string.IsNullOrWhiteSpace` on a non-null string. */
  predicate IsBlank(s: string) {
    forall i :: 0 <= i < |s| ==> IsWhiteSpace(s[i])
  }

  /** The first position at or after `i` that does not hold white space, or
      `|s|` when there is none. */
  function SkipBlank(s: string, i: nat): (a: nat)
    requires i <= |s|
    ensures i <= a <= |s|
    ensures forall k :: i <= k < a ==> IsWhiteSpace(s[k])
    ensures a < |s| ==> !IsWhiteSpace(s[a])
    decreases |s| - i
  {
    if i < |s| && IsWhiteSpace(s[i]) then SkipBlank(s, i + 1) else i
  }

  /** The end of `s[lo..j]` once its trailing white space is dropped. */
  function BackBlank(s: string, lo: nat, j: nat): (e: nat)
    requires lo <= j <= |s|
    ensures lo <= e <= j
    ensures forall k :: e <= k < j ==> IsWhiteSpace(s[k])
    ensures e > lo ==> !IsWhiteSpace(s[e - 1])
  {
    if lo < j && IsWhiteSpace(s[j - 1]) then BackBlank(s, lo, j - 1) else j
  }

  /** The number of leading white-space characters `Trim` removes. */
  function LeadingBlank(s: string): (a: nat)
    ensures a <= |s|
  {
    SkipBlank(s, 0)
  }

  /** Where the text `Trim` keeps ends. */
  function TrimmedEnd(s: string): (e: nat)
    ensures LeadingBlank(s) <= e <= |s|
  {
    BackBlank(s, LeadingBlank(s), |s|)
  }

  /** `Trim()`: `s` with its leading and trailing white space removed. What is
      kept is the slice from `LeadingBlank(s)` to `TrimmedEnd(s)`; everything
      before and after it is white space, and it neither starts nor ends with
      white space. */
  function Trim(s: string): (r: string)
    ensures r == s[LeadingBlank(s)..TrimmedEnd(s)]
    ensures forall i :: 0 <= i < LeadingBlank(s) ==> IsWhiteSpace(s[i])
    ensures forall i :: TrimmedEnd(s) <= i < |s| ==> IsWhiteSpace(s[i])
    ensures |r| > 0 ==> !IsWhiteSpace(r[0]) && !IsWhiteSpace(r[|r| - 1])
  {
    s[LeadingBlank(s)..TrimmedEnd(s)]
  }

  /** Trimming leaves nothing exactly when the string is blank. */
  lemma {:induction false} TrimEmptyIffBlank(s: string)
    ensures Trim(s) == [] <==> IsBlank(s)
  {
    var a := LeadingBlank(s);
    if Trim(s) != [] {
      assert s[a] == Trim(s)[0];
    }
  }

  /** A string that neither starts nor ends with white space is its own trim. */
  lemma {:induction false} TrimClean(s: string)
    requires |s| > 0 ==> !IsWhiteSpace(s[0]) && !IsWhiteSpace(s[|s| - 1])
    ensures Trim(s) == s
  {
    assert LeadingBlank(s) == 0;
    assert TrimmedEnd(s) == |s|;
    assert s[0..|s|] == s;
  }

  /** Trimming twice is trimming once. */
  lemma {:induction false} TrimIdempotent(s: string)
    ensures Trim(Trim(s)) == Trim(s)
  {
    TrimClean(Trim(s));
  }

  /** The UTF-16 code units a character takes: two (a surrogate pair) beyond
      the Basic Multilingual Plane, one otherwise. */
  function Utf16Units(c: char): nat {
    if c as int > 0xFFFF then 2 else 1
  }

  /** `string.Length`: the number of UTF-16 code units, which exceeds the number
      of characters by one for each character beyond U+FFFF. */
  function Utf16Length(s: string): (n: nat)
    ensures |s| <= n <= 2 * |s|
  {
    if |s| == 0 then 0 else Utf16Length(s[..|s| - 1]) + Utf16Units(s[|s| - 1])
  }

  /** Text within the Basic Multilingual Plane has one code unit per
      character; each character beyond it adds one. */
  lemma {:induction false} Utf16LengthCounts(s: string)
    ensures (forall i :: 0 <= i < |s| ==> s[i] as int <= 0xFFFF) <==> Utf16Length(s) == |s|
  {
    if |s| > 0 {
      var init := s[..|s| - 1];
      Utf16LengthCounts(init);
      if forall i :: 0 <= i < |s| ==> s[i] as int <= 0xFFFF {
        assert forall i :: 0 <= i < |init| ==> init[i] == s[i];
      }
    }
  }

  /** A character beyond U+FFFF counts twice: "\U{1F600}\U{1F600}" is four code
      units long. */
  lemma AstralCountsTwice()
    ensures Utf16Length("\U{1F600}\U{1F600}") == 4
  {
    assert "\U{1F600}\U{1F600}"[..1] == "\U{1F600}";
  }

  /** ASCII upper-casing of one character. */
  function UpperChar(c: char): char {
    if 'a' <= c <= 'z' then (c as int - 32) as char else c
  }

  /** Upper-casing of a string, character by character. */
  function Upper(s: string): (r: string)
    ensures |r| == |s|
  {
    seq(|s|, i requires 0 <= i < |s| => UpperChar(s[i]))
  }

  /** `StringComparison.OrdinalIgnoreCase` equality. */
  predicate EqualsIgnoreCase(a: string, b: string) {
    Upper(a) == Upper(b)
  }

  predicate StartsWith(s: string, prefix: string) {
    |prefix| <= |s| && s[..|prefix|] == prefix
  }

  predicate EndsWith(s: string, suffix: string) {
    |suffix| <= |s| && s[|s| - |suffix|..] == suffix
  }

  /** `s.Contains(t)`: `t` occurs in `s` as a contiguous substring. */
  predicate Contains(s: string, t: string) {
    StartsWith(s, t) || (|t| < |s| && Contains(s[1..], t))
  }

  predicate IsDigit(c: char) {
    '0' <= c <= '9'
  }

  predicate AllDigits(s: string) {
    forall i :: 0 <= i < |s| ==> IsDigit(s[i])
  }

  function DigitChar(d: nat): (c: char)
    requires d < 10
    ensures IsDigit(c)
  {
    ('0' as int + d) as char
  }

  /** The decimal rendering of a natural number, as `int.ToString()` prints it. */
  function NatToString(n: nat): (r: string)
    ensures |r| > 0 && AllDigits(r)
  {
    if n < 10 then [DigitChar(n)] else NatToString(n / 10) + [DigitChar(n % 10)]
  }

  /** The value of a string of decimal digits, most significant first. */
  function DigitsValue(s: string): nat
    requires AllDigits(s)
  {
    if |s| == 0 then 0
    else DigitsValue(s[..|s| - 1]) * 10 + (s[|s| - 1] as int - '0' as int)
  }

  /** Reading back a rendered number gives the number. */
  lemma {:induction false} NatToStringRoundTrip(n: nat)
    ensures DigitsValue(NatToString(n)) == n
  {
    if n >= 10 {
      var s := NatToString(n);
      assert s[..|s| - 1] == NatToString(n / 10);
      NatToStringRoundTrip(n / 10);
    }
  }

  /** White space that `NumberStyles.AllowLeadingWhite/AllowTrailingWhite` skip. */
  predicate IsNumberWhite(c: char) {
    c == ' ' || '\t' <= c <= '\r'
  }

  function SkipNumberWhite(s: string): (r: string)
    ensures |r| <= |s| && r == s[|s| - |r|..]
    ensures |r| > 0 ==> !IsNumberWhite(r[0])
  {
    if |s| > 0 && IsNumberWhite(s[0]) then SkipNumberWhite(s[1..]) else s
  }

  function DropNumberWhite(s: string): (r: string)
    ensures |r| <= |s| && r == s[..|r|]
    ensures |r| > 0 ==> !IsNumberWhite(r[|r| - 1])
  {
    if |s| > 0 && IsNumberWhite(s[|s| - 1]) then DropNumberWhite(s[..|s| - 1]) else s
  }

  /** `int.TryParse(s, out v)` with `NumberStyles.Integer`: optional surrounding
      white space, an optional sign, at least one digit, and a value that fits in
      a 32-bit signed integer. `int.Parse` throws exactly when this is `None`. */
  function ParseInt32(s: string): (r: Option<int>)
    ensures r.Some? ==> Int32Min <= r.value <= Int32Max
  {
    var t := DropNumberWhite(SkipNumberWhite(s));
    var negative := |t| > 0 && t[0] == '-';
    var digits := if |t| > 0 && (t[0] == '-' || t[0] == '+') then t[1..] else t;
    if |digits| == 0 || !AllDigits(digits) then None
    else
      var d: int := DigitsValue(digits);
      var v := if negative then -d else d;
      if Int32Min <= v <= Int32Max then Some(v) else None
  }

  /** Parsing the rendering of any 32-bit non-negative integer gives it back. */
  lemma ParseRenderedNat(n: nat)
    requires n <= Int32Max
    ensures ParseInt32(NatToString(n)) == Some(n)
  {
    var s := NatToString(n);
    assert !IsNumberWhite(s[0]) && !IsNumberWhite(s[|s| - 1]);
    assert SkipNumberWhite(s) == s;
    assert DropNumberWhite(s) == s;
    NatToStringRoundTrip(n);
  }
}

/**
 * String helpers with the exact semantics of the Go and TypeScript library
 * calls the blog relies on: decimal rendering (`%d`, `strconv.Itoa`,
 * `String(n)`), `strconv.ParseUint`/`ParseInt` in base 10 with 64-bit range
 * checks, `strings.Split`, `strings.TrimSpace` / `String.prototype.trim`
 * (whose whitespace sets differ), and ASCII case mapping.
 */
module Text {
  import opened Common

  const MaxUint64: nat := 0xFFFF_FFFF_FFFF_FFFF
  const MaxInt64: int := 0x7FFF_FFFF_FFFF_FFFF
  const MinInt64: int := -0x8000_0000_0000_0000

  // ---------------------------------------------------------------------------
  // Decimal numbers
  // ---------------------------------------------------------------------------

  predicate IsDigit(c: char) { '0' <= c <= '9' }

  predicate AllDigits(s: string) {
    forall i :: 0 <= i < |s| ==> IsDigit(s[i])
  }

  function DigitValue(c: char): nat
    requires IsDigit(c)
  {
    (c as int) - ('0' as int)
  }

  function DigitChar(d: nat): char
    requires d < 10
  {
    (('0' as int) + d) as char
  }

  /** The value of a string of decimal digits, most significant first. */
  function DigitsValue(s: string): nat
    requires AllDigits(s)
    decreases |s|
  {
    if |s| == 0 then 0 else DigitsValue(s[..|s| - 1]) * 10 + DigitValue(s[|s| - 1])
  }

  /** Decimal rendering of a natural number, without leading zeros. */
  function NatToString(n: nat): (s: string)
    ensures 1 <= |s| && AllDigits(s)
    ensures n > 0 ==> s[0] != '0'
    decreases n
  {
    if n < 10 then [DigitChar(n)] else NatToString(n / 10) + [DigitChar(n % 10)]
  }

  /** Decimal rendering of an integer: Go's `%d` and `strconv.Itoa`, JavaScript's `String(n)`. */
  function IntToString(i: int): string {
    if i < 0 then "-" + NatToString(-i) else NatToString(i)
  }

  /** `strconv.ParseUint(s, 10, 64)`: digits only, no sign, at most 2^64 - 1. */
  function ParseUint64(s: string): (r: Option<nat>)
    ensures r.Some? ==> r.value <= MaxUint64 && |s| > 0 && s[0] != '+' && s[0] != '-'
  {
    if |s| > 0 && AllDigits(s) && DigitsValue(s) <= MaxUint64 then Some(DigitsValue(s)) else None
  }

  /**
   * `strconv.ParseInt(s, 10, 64)`: an optional `+` or `-` followed by at
   * least one digit, with the value inside the int64 range.
   */
  function ParseInt64(s: string): (r: Option<int>)
    ensures r.Some? ==> MinInt64 <= r.value <= MaxInt64
    ensures r.Some? && r.value < 0 ==> |s| > 0 && s[0] == '-'
  {
    if |s| == 0 then None
    else
      var neg := s[0] == '-';
      var digits := if s[0] == '+' || s[0] == '-' then s[1..] else s;
      if |digits| == 0 || !AllDigits(digits) then None
      else
        var u: int := DigitsValue(digits);
        if neg then (if u <= -MinInt64 then Some(-u) else None)
        else (if u <= MaxInt64 then Some(u) else None)
  }

  /** Reading back a rendered natural number gives the number itself. */
  lemma {:induction false} DigitsValueOfNatToString(n: nat)
    ensures DigitsValue(NatToString(n)) == n
    decreases n
  {
    var s := NatToString(n);
    if n >= 10 {
      DigitsValueOfNatToString(n / 10);
      assert s[..|s| - 1] == NatToString(n / 10);
    }
  }

  /** Rendering is injective: distinct numbers render differently. */
  lemma NatToStringInjective(a: nat, b: nat)
    requires NatToString(a) == NatToString(b)
    ensures a == b
  {
    DigitsValueOfNatToString(a);
    DigitsValueOfNatToString(b);
  }

  /** `ParseUint` accepts every `%d` rendering of an in-range value and returns it. */
  lemma ParseUint64OfNatToString(n: nat)
    requires n <= MaxUint64
    ensures ParseUint64(NatToString(n)) == Some(n)
  {
    DigitsValueOfNatToString(n);
  }

  /** `ParseInt` accepts every `%d` rendering of an int64 and returns it. */
  lemma ParseInt64OfIntToString(i: int)
    requires MinInt64 <= i <= MaxInt64
    ensures ParseInt64(IntToString(i)) == Some(i)
  {
    if i < 0 {
      DigitsValueOfNatToString(-i);
      assert IntToString(i)[1..] == NatToString(-i);
    } else {
      DigitsValueOfNatToString(i);
    }
  }

  // ---------------------------------------------------------------------------
  // strings.Split / strings.Join on a one-character separator
  // ---------------------------------------------------------------------------

  /** `strings.Split(s, sep)`: the pieces between separators; `""` splits to `[""]`. */
  function Split(s: string, sep: char): (parts: seq<string>)
    ensures |parts| >= 1
    ensures forall i :: 0 <= i < |parts| ==> sep !in parts[i]
  {
    if |s| == 0 then [""]
    else if s[0] == sep then [""] + Split(s[1..], sep)
    else
      var rest := Split(s[1..], sep);
      [[s[0]] + rest[0]] + rest[1..]
  }

  /** `strings.Join(parts, sep)`. */
  function Join(parts: seq<string>, sep: char): string
    requires |parts| >= 1
  {
    if |parts| == 1 then parts[0] else parts[0] + [sep] + Join(parts[1..], sep)
  }

  /** Joining the pieces of a split restores the original string. */
  lemma {:induction false} JoinSplit(s: string, sep: char)
    ensures Join(Split(s, sep), sep) == s
  {
    if |s| > 0 {
      JoinSplit(s[1..], sep);
      if s[0] != sep {
        var rest := Split(s[1..], sep);
        if |rest| > 1 {
          assert Join(rest, sep) == rest[0] + [sep] + Join(rest[1..], sep);
        }
      }
    }
  }

  /** A leading piece free of the separator splits off as one part. */
  lemma {:induction false} SplitPrefix(a: string, sep: char, b: string)
    requires sep !in a
    ensures Split(a + [sep] + b, sep) == [a] + Split(b, sep)
  {
    if |a| == 0 {
      assert a + [sep] + b == [sep] + b;
      assert ([sep] + b)[1..] == b;
    } else {
      SplitPrefix(a[1..], sep, b);
      assert (a + [sep] + b)[1..] == a[1..] + [sep] + b;
      assert [a[0]] + a[1..] == a;
    }
  }

  /** A string free of the separator is a single part. */
  lemma {:induction false} SplitNoSep(s: string, sep: char)
    requires sep !in s
    ensures Split(s, sep) == [s]
  {
    if |s| > 0 {
      SplitNoSep(s[1..], sep);
      assert [s[0]] + s[1..] == s;
    }
  }

  /** Splitting a join of separator-free pieces gives the pieces back. */
  lemma {:induction false} SplitJoin(parts: seq<string>, sep: char)
    requires |parts| >= 1
    requires forall i :: 0 <= i < |parts| ==> sep !in parts[i]
    ensures Split(Join(parts, sep), sep) == parts
  {
    if |parts| == 1 {
      SplitNoSep(parts[0], sep);
    } else {
      SplitJoin(parts[1..], sep);
      SplitPrefix(parts[0], sep, Join(parts[1..], sep));
    }
  }

  // ---------------------------------------------------------------------------
  // Prefixes, suffixes and case
  // ---------------------------------------------------------------------------

  predicate HasPrefix(s: string, p: string) {
    |p| <= |s| && s[..|p|] == p
  }

  predicate HasSuffix(s: string, p: string) {
    |p| <= |s| && s[|s| - |p|..] == p
  }

  /** A string ends with whatever was appended to it. */
  lemma AppendedSuffix(a: string, b: string)
    ensures HasSuffix(a + b, b)
  {
    assert (a + b)[|a|..] == b;
  }

  predicate IsUpperAscii(c: char) { 'A' <= c <= 'Z' }

  predicate IsLowerAscii(c: char) { 'a' <= c <= 'z' }

  function LowerChar(c: char): char {
    if IsUpperAscii(c) then ((c as int) + 32) as char else c
  }

  function UpperChar(c: char): char {
    if IsLowerAscii(c) then ((c as int) - 32) as char else c
  }

  /** `strings.ToLower` / `toLowerCase` restricted to ASCII letters. */
  function ToLower(s: string): (r: string)
    ensures |r| == |s|
    ensures forall i :: 0 <= i < |s| ==> r[i] == LowerChar(s[i])
  {
    if |s| == 0 then "" else [LowerChar(s[0])] + ToLower(s[1..])
  }

  /** `strings.EqualFold` restricted to ASCII case folding. */
  predicate EqualFold(a: string, b: string) {
    ToLower(a) == ToLower(b)
  }

  // ---------------------------------------------------------------------------
  // Whitespace trimming
  // ---------------------------------------------------------------------------

  /** Which language's notion of whitespace a trim uses. */
  datatype Spaces = GoSpaces | JsSpaces

  /** `unicode.IsSpace`, the set `strings.TrimSpace` removes. */
  predicate IsGoSpace(c: char) {
    c == '\t' || c == '\n' || c == '\U{000B}' || c == '\U{000C}' || c == '\r' || c == ' '
    || c == '\U{0085}' || c == '\U{00A0}' || c == '\U{1680}'
    || ('\U{2000}' <= c <= '\U{200A}') || c == '\U{2028}' || c == '\U{2029}'
    || c == '\U{202F}' || c == '\U{205F}' || c == '\U{3000}'
  }

  /** ECMAScript WhiteSpace and LineTerminator, the set `String.prototype.trim` removes. */
  predicate IsJsSpace(c: char) {
    c == '\t' || c == '\n' || c == '\U{000B}' || c == '\U{000C}' || c == '\r' || c == ' '
    || c == '\U{00A0}' || c == '\U{FEFF}' || c == '\U{1680}'
    || ('\U{2000}' <= c <= '\U{200A}') || c == '\U{2028}' || c == '\U{2029}'
    || c == '\U{202F}' || c == '\U{205F}' || c == '\U{3000}'
  }

  predicate IsSpace(sp: Spaces, c: char) {
    match sp
    case GoSpaces => IsGoSpace(c)
    case JsSpaces => IsJsSpace(c)
  }

  function TrimLeft(sp: Spaces, s: string): string {
    if |s| > 0 && IsSpace(sp, s[0]) then TrimLeft(sp, s[1..]) else s
  }

  function TrimRight(sp: Spaces, s: string): string {
    if |s| > 0 && IsSpace(sp, s[|s| - 1]) then TrimRight(sp, s[..|s| - 1]) else s
  }

  /** `strings.TrimSpace` (Go) or `trim()` (JavaScript). */
  function Trim(sp: Spaces, s: string): string {
    TrimRight(sp, TrimLeft(sp, s))
  }

  function GoTrim(s: string): string { Trim(GoSpaces, s) }

  function JsTrim(s: string): string { Trim(JsSpaces, s) }

  predicate AllSpace(sp: Spaces, s: string) {
    forall i :: 0 <= i < |s| ==> IsSpace(sp, s[i])
  }

  lemma {:induction false} TrimLeftSpec(sp: Spaces, s: string)
    ensures var r := TrimLeft(sp, s);
      HasSuffix(s, r) && AllSpace(sp, s[..|s| - |r|]) && (|r| > 0 ==> !IsSpace(sp, r[0]))
  {
    if |s| > 0 && IsSpace(sp, s[0]) {
      TrimLeftSpec(sp, s[1..]);
      var r := TrimLeft(sp, s[1..]);
      assert s[|s| - |r|..] == s[1..][|s[1..]| - |r|..];
      forall i | 0 <= i < |s| - |r| ensures IsSpace(sp, s[i]) {
        if i > 0 { assert s[i] == s[1..][..|s[1..]| - |r|][i - 1]; }
      }
    }
  }

  lemma {:induction false} TrimRightSpec(sp: Spaces, s: string)
    ensures var r := TrimRight(sp, s);
      HasPrefix(s, r) && AllSpace(sp, s[|r|..]) && (|r| > 0 ==> !IsSpace(sp, r[|r| - 1]))
  {
    if |s| > 0 && IsSpace(sp, s[|s| - 1]) {
      var t := s[..|s| - 1];
      TrimRightSpec(sp, t);
      var r := TrimRight(sp, t);
      assert s[..|r|] == t[..|r|];
      forall i | |r| <= i < |s| ensures IsSpace(sp, s[i]) {
        if i < |s| - 1 { assert s[i] == t[|r|..][i - |r|]; }
      }
    }
  }

  /**
   * Trimming removes whitespace only from the two ends: the result is a
   * contiguous piece of the input, everything cut off is whitespace, and the
   * result neither starts nor ends with whitespace.
   */
  lemma TrimSpec(sp: Spaces, s: string)
    ensures var r := Trim(sp, s);
      exists i :: 0 <= i <= |s| - |r| && s[i..i + |r|] == r
        && AllSpace(sp, s[..i]) && AllSpace(sp, s[i + |r|..])
        && (|r| > 0 ==> !IsSpace(sp, r[0]) && !IsSpace(sp, r[|r| - 1]))
  {
    var l := TrimLeft(sp, s);
    TrimLeftSpec(sp, s);
    TrimRightSpec(sp, l);
    var r := TrimRight(sp, l);
    var i := |s| - |l|;
    assert s[i..i + |r|] == l[..|r|];
    assert s[i + |r|..] == l[|r|..];
  }

  /** A string with no whitespace at either end is its own trim. */
  lemma {:induction false} TrimOfTrimmed(sp: Spaces, s: string)
    requires |s| > 0 ==> !IsSpace(sp, s[0]) && !IsSpace(sp, s[|s| - 1])
    ensures Trim(sp, s) == s
  {
  }

  /** Trimming twice is trimming once. */
  lemma TrimIdempotent(sp: Spaces, s: string)
    ensures Trim(sp, Trim(sp, s)) == Trim(sp, s)
  {
    TrimSpec(sp, s);
    TrimOfTrimmed(sp, Trim(sp, s));
  }
}

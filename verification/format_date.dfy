/**
 * `formatDate`: a format string whose tokens `YYYY`, `MM`, `DD`, `HH`,
 * `mm`, `ss` and `SSS` are replaced, one token kind after the other and
 * every occurrence of each, by the fields of a date in local time.
 */
module FormatDate {
  import opened Common
  import opened Text

  /**
   * The local-time fields of a valid date, as the `Date` getters return
   * them; `month` is zero-based like `getMonth`.
   */
  datatype Fields = Fields(year: int, month: nat, day: nat, hours: nat, minutes: nat, seconds: nat, millis: nat)

  /** The token kinds, in the order their replacements run. */
  datatype Token = Year | Month | Day | Hours | Minutes | Seconds | Millis

  const Order: seq<Token> := [Year, Month, Day, Hours, Minutes, Seconds, Millis]

  function Rank(k: Token): (r: nat)
    ensures r < |Order| && Order[r] == k
  {
    match k
    case Year => 0
    case Month => 1
    case Day => 2
    case Hours => 3
    case Minutes => 4
    case Seconds => 5
    case Millis => 6
  }

  /** The single letter a token repeats. */
  function Letter(k: Token): char {
    match k
    case Year => 'Y'
    case Month => 'M'
    case Day => 'D'
    case Hours => 'H'
    case Minutes => 'm'
    case Seconds => 's'
    case Millis => 'S'
  }

  /** How many times the letter is repeated. */
  function Width(k: Token): nat {
    match k
    case Year => 4
    case Millis => 3
    case _ => 2
  }

  function Repeat(c: char, n: nat): (r: string)
    ensures |r| == n && forall i :: 0 <= i < n ==> r[i] == c
  {
    if n == 0 then "" else [c] + Repeat(c, n - 1)
  }

  /** The token as it is written in a format string. */
  function Key(k: Token): (r: string)
    ensures |r| > 0 && r[0] == Letter(k)
  {
    Repeat(Letter(k), Width(k))
  }

  /** `padStart(width, "0")`: zeros in front up to the width; a longer string is kept whole. */
  function PadStart(s: string, width: nat): (r: string)
    ensures |r| == if |s| < width then width else |s|
    ensures HasSuffix(r, s) && forall i :: 0 <= i < |r| - |s| ==> r[i] == '0'
  {
    if |s| < width then Repeat('0', width - |s|) + s else s
  }

  /** The text a token stands for: the year as is, the month one-based, the rest zero-padded. */
  function Value(d: Fields, k: Token): string {
    match k
    case Year => IntToString(d.year)
    case Month => PadStart(NatToString(d.month + 1), 2)
    case Day => PadStart(NatToString(d.day), 2)
    case Hours => PadStart(NatToString(d.hours), 2)
    case Minutes => PadStart(NatToString(d.minutes), 2)
    case Seconds => PadStart(NatToString(d.seconds), 2)
    case Millis => PadStart(NatToString(d.millis), 3)
  }

  /** `s.replace(new RegExp(key, "g"), value)` for a key without special characters: every occurrence, left to right, none overlapping. */
  function ReplaceAll(s: string, key: string, value: string): string
    requires |key| > 0
    decreases |s|
  {
    if |s| == 0 then ""
    else if HasPrefix(s, key) then value + ReplaceAll(s[|key|..], key, value)
    else [s[0]] + ReplaceAll(s[1..], key, value)
  }

  /** The text for each token kind. */
  type Values = Token -> string

  /** The fields of a date, as `formatDate` builds its table of replacements. */
  function FieldValues(d: Fields): Values {
    (k: Token) => Value(d, k)
  }

  /** The replacements from the `j`-th token kind on, in order. */
  function Pass(s: string, vals: Values, j: nat): string
    requires j <= |Order|
    decreases |Order| - j
  {
    if j == |Order| then s
    else Pass(ReplaceAll(s, Key(Order[j]), vals(Order[j])), vals, j + 1)
  }

  const DefaultFormat: string := "YYYY-MM-DD HH:mm:ss"

  /** `formatDate`: an invalid date (`None`) gives the empty string. Parsing the input into a date is not modelled. */
  function Format(date: Option<Fields>, format: string): (r: string)
    ensures date.None? ==> r == ""
  {
    match date
    case None => ""
    case Some(d) => Pass(format, FieldValues(d), 0)
  }

  // ---------------------------------------------------------------------------
  // Replacement
  // ---------------------------------------------------------------------------

  /** A key at the front is replaced and the scan goes on after it. */
  lemma ReplaceHead(key: string, b: string, value: string)
    requires |key| > 0
    ensures ReplaceAll(key + b, key, value) == value + ReplaceAll(b, key, value)
  {
    assert HasPrefix(key + b, key);
    assert (key + b)[|key|..] == b;
  }

  /** Text without the key's first letter is kept as it is. */
  lemma {:induction false} ReplaceSkip(a: string, b: string, key: string, value: string)
    requires |key| > 0 && key[0] !in a
    ensures ReplaceAll(a + b, key, value) == a + ReplaceAll(b, key, value)
    decreases |a|
  {
    if |a| > 0 {
      assert key[0] !in a[1..] by {
        forall i | 0 <= i < |a[1..]| ensures a[1..][i] != key[0] {
          assert a[1..][i] == a[i + 1];
        }
      }
      ReplaceSkip(a[1..], b, key, value);
      ReplaceMiss(a, b, key, value);
    } else {
      assert a + b == b;
    }
  }

  /** A first character that does not start the key is copied, and the scan moves on by one. */
  lemma ReplaceMiss(a: string, b: string, key: string, value: string)
    requires |key| > 0 && |a| > 0 && a[0] != key[0]
    ensures ReplaceAll(a + b, key, value) == [a[0]] + ReplaceAll(a[1..] + b, key, value)
  {
    var s := a + b;
    assert s[0] == a[0];
    assert !HasPrefix(s, key) by {
      if |key| <= |s| {
        assert s[..|key|][0] == s[0];
      }
    }
    assert s[1..] == a[1..] + b;
  }

  /** A format without the key's first letter is returned unchanged. */
  lemma ReplaceAbsent(s: string, key: string, value: string)
    requires |key| > 0 && key[0] !in s
    ensures ReplaceAll(s, key, value) == s
  {
    ReplaceSkip(s, "", key, value);
    assert s + "" == s;
  }

  // ---------------------------------------------------------------------------
  // Formats as token sequences
  // ---------------------------------------------------------------------------

  /** A letter that some token is made of. */
  predicate TokenLetter(c: char) {
    c == 'Y' || c == 'M' || c == 'D' || c == 'H' || c == 'm' || c == 's' || c == 'S'
  }

  /** A piece of a format: a literal character or a token. */
  datatype Part = Lit(c: char) | Tok(k: Token)

  /** The literals are no token letters, so the format reads as these parts and no others. */
  predicate Plain(t: seq<Part>) {
    forall i :: 0 <= i < |t| ==> t[i].Lit? ==> !TokenLetter(t[i].c)
  }

  /** How a part is written in a format string. */
  function PartSpelling(x: Part): string {
    match x
    case Lit(c) => [c]
    case Tok(k) => Key(k)
  }

  /** The format string the parts spell. */
  function Spell(t: seq<Part>): string {
    if |t| == 0 then "" else PartSpelling(t[0]) + Spell(t[1..])
  }

  /** What a part should become: a literal is kept, a token replaced by its value. */
  function PartRendering(x: Part, vals: Values): string {
    match x
    case Lit(c) => [c]
    case Tok(k) => vals(k)
  }

  function Render(t: seq<Part>, vals: Values): string {
    if |t| == 0 then "" else PartRendering(t[0], vals) + Render(t[1..], vals)
  }

  /** The text of a part once the first `j` token kinds have been replaced. */
  function PartAfter(x: Part, vals: Values, j: nat): string {
    match x
    case Lit(c) => [c]
    case Tok(k) => if Rank(k) < j then vals(k) else Key(k)
  }

  function After(t: seq<Part>, vals: Values, j: nat): string {
    if |t| == 0 then "" else PartAfter(t[0], vals, j) + After(t[1..], vals, j)
  }

  lemma {:induction false} AfterNone(t: seq<Part>, vals: Values)
    ensures After(t, vals, 0) == Spell(t)
  {
    if |t| > 0 {
      AfterNone(t[1..], vals);
    }
  }

  lemma {:induction false} AfterAll(t: seq<Part>, vals: Values)
    ensures After(t, vals, |Order|) == Render(t, vals)
  {
    if |t| > 0 {
      AfterAll(t[1..], vals);
    }
  }

  /** No value contains a token letter. */
  predicate Clean(vals: Values) {
    forall k: Token, c: char :: TokenLetter(c) ==> c !in vals(k)
  }

  /** The rendered fields are digits, with a minus sign for a year before year 0. */
  lemma ValueHasNoLetter(d: Fields, k: Token, c: char)
    requires TokenLetter(c)
    ensures c !in Value(d, k)
  {
    var v := Value(d, k);
    if k == Year && d.year < 0 {
      assert v == "-" + NatToString(-d.year);
      forall i | 0 <= i < |v| ensures v[i] != c {
        if i > 0 {
          assert v[i] == NatToString(-d.year)[i - 1];
        }
      }
    } else if k == Year {
      assert AllDigits(v);
    } else {
      var s := match k
        case Month => NatToString(d.month + 1)
        case Day => NatToString(d.day)
        case Hours => NatToString(d.hours)
        case Minutes => NatToString(d.minutes)
        case Seconds => NatToString(d.seconds)
        case _ => NatToString(d.millis);
      assert HasSuffix(v, s);
      forall i | 0 <= i < |v| ensures v[i] != c {
        if i >= |v| - |s| {
          assert v[i] == s[i - (|v| - |s|)];
        }
      }
    }
  }

  lemma FieldValuesClean(d: Fields)
    ensures Clean(FieldValues(d))
  {
    forall k: Token, c: char | TokenLetter(c) ensures c !in FieldValues(d)(k) {
      ValueHasNoLetter(d, k, c);
    }
  }

  /** A part other than the `j`-th token holds no letter of that token. */
  lemma PartKeepsOut(x: Part, vals: Values, j: nat)
    requires j < |Order| && Plain([x]) && x != Tok(Order[j]) && Clean(vals)
    ensures Letter(Order[j]) !in PartAfter(x, vals, j)
  {
    assert TokenLetter(Letter(Order[j]));
    assert [x][0] == x;
    match x
    case Lit(c) =>
      assert !TokenLetter(c);
    case Tok(k) =>
      if Rank(k) >= j {
        assert Letter(k) != Letter(Order[j]);
      }
  }

  /** The `j`-th token kind has rank `j`. */
  lemma RankOfOrder(j: nat)
    requires j < |Order|
    ensures Rank(Order[j]) == j
  {
  }

  /** One part in front of the rest: replaced when it is the `j`-th token, kept otherwise. */
  lemma PassPart(x: Part, rest: string, vals: Values, j: nat)
    requires j < |Order| && Plain([x]) && Clean(vals)
    ensures ReplaceAll(PartAfter(x, vals, j) + rest, Key(Order[j]), vals(Order[j]))
      == PartAfter(x, vals, j + 1) + ReplaceAll(rest, Key(Order[j]), vals(Order[j]))
  {
    var key := Key(Order[j]);
    var value := vals(Order[j]);
    if x == Tok(Order[j]) {
      RankOfOrder(j);
      ReplaceHead(key, rest, value);
    } else {
      PartKeepsOut(x, vals, j);
      ReplaceSkip(PartAfter(x, vals, j), rest, key, value);
      assert PartAfter(x, vals, j) == PartAfter(x, vals, j + 1);
    }
  }

  /** The `j`-th replacement turns exactly the tokens of that kind into their values. */
  lemma {:induction false} PassStep(t: seq<Part>, vals: Values, j: nat)
    requires j < |Order| && Plain(t) && Clean(vals)
    ensures ReplaceAll(After(t, vals, j), Key(Order[j]), vals(Order[j])) == After(t, vals, j + 1)
  {
    if |t| > 0 {
      assert Plain(t[1..]) by {
        forall i | 0 <= i < |t[1..]| ensures t[1..][i].Lit? ==> !TokenLetter(t[1..][i].c) {
          assert t[1..][i] == t[i + 1];
        }
      }
      assert Plain([t[0]]);
      PassStep(t[1..], vals, j);
      PassPart(t[0], After(t[1..], vals, j), vals, j);
    }
  }

  lemma {:induction false} PassFrom(t: seq<Part>, vals: Values, j: nat)
    requires j <= |Order| && Plain(t) && Clean(vals)
    ensures Pass(After(t, vals, j), vals, j) == Render(t, vals)
    decreases |Order| - j
  {
    if j == |Order| {
      AfterAll(t, vals);
    } else {
      PassStep(t, vals, j);
      PassFrom(t, vals, j + 1);
    }
  }

  /**
   * Every token of the format is replaced by its field and every other
   * character is kept, in place, as long as the literal characters are no
   * token letters.
   */
  lemma FormatRendersTokens(t: seq<Part>, d: Fields)
    requires Plain(t)
    ensures Format(Some(d), Spell(t)) == Render(t, FieldValues(d))
  {
    FieldValuesClean(d);
    AfterNone(t, FieldValues(d));
    PassFrom(t, FieldValues(d), 0);
  }

  /** The parts of a format made of literal characters only. */
  function Literals(s: string): (t: seq<Part>)
    ensures |t| == |s| && forall i :: 0 <= i < |s| ==> t[i] == Lit(s[i])
  {
    if |s| == 0 then [] else [Lit(s[0])] + Literals(s[1..])
  }

  /** A format without any token letter comes back unchanged. */
  lemma FormatKeepsLiterals(format: string, d: Fields)
    requires forall i :: 0 <= i < |format| ==> !TokenLetter(format[i])
    ensures Format(Some(d), format) == format
  {
    var t := Literals(format);
    assert Plain(t);
    SpellLiterals(format);
    RenderLiterals(format, FieldValues(d));
    FormatRendersTokens(t, d);
  }

  lemma {:induction false} SpellLiterals(s: string)
    ensures Spell(Literals(s)) == s
  {
    if |s| > 0 {
      SpellLiterals(s[1..]);
      assert Literals(s)[1..] == Literals(s[1..]);
      assert s == [s[0]] + s[1..];
    }
  }

  lemma {:induction false} RenderLiterals(s: string, vals: Values)
    ensures Render(Literals(s), vals) == s
  {
    if |s| > 0 {
      RenderLiterals(s[1..], vals);
      assert Literals(s)[1..] == Literals(s[1..]);
      assert s == [s[0]] + s[1..];
    }
  }

  // ---------------------------------------------------------------------------
  // The default format and the padded fields
  // ---------------------------------------------------------------------------

  /** The date half and the time half of the default format, a space between them. */
  const DateParts: seq<Part> := [Tok(Year), Lit('-'), Tok(Month), Lit('-'), Tok(Day)]
  const TimeParts: seq<Part> := [Tok(Hours), Lit(':'), Tok(Minutes), Lit(':'), Tok(Seconds)]
  const DefaultParts: seq<Part> := DateParts + [Lit(' ')] + TimeParts

  /** Spelling distributes over putting formats side by side. */
  lemma {:induction false} SpellAppend(a: seq<Part>, b: seq<Part>)
    ensures Spell(a + b) == Spell(a) + Spell(b)
    decreases |a|
  {
    if |a| == 0 {
      assert a + b == b;
    } else {
      assert (a + b)[1..] == a[1..] + b;
      SpellAppend(a[1..], b);
    }
  }

  /** Rendering distributes over putting formats side by side. */
  lemma {:induction false} RenderAppend(a: seq<Part>, b: seq<Part>, vals: Values)
    ensures Render(a + b, vals) == Render(a, vals) + Render(b, vals)
    decreases |a|
  {
    if |a| == 0 {
      assert a + b == b;
    } else {
      assert (a + b)[1..] == a[1..] + b;
      RenderAppend(a[1..], b, vals);
    }
  }

  /** How each token is written. */
  lemma KeysSpelled()
    ensures Key(Year) == "YYYY" && Key(Month) == "MM" && Key(Day) == "DD"
    ensures Key(Hours) == "HH" && Key(Minutes) == "mm" && Key(Seconds) == "ss" && Key(Millis) == "SSS"
  {
  }

  lemma DateSpelling()
    ensures Spell(DateParts) == "YYYY-MM-DD"
  {
    KeysSpelled();
  }

  lemma TimeSpelling()
    ensures Spell(TimeParts) == "HH:mm:ss"
  {
    KeysSpelled();
  }

  lemma DefaultSpelling()
    ensures Spell(DefaultParts) == DefaultFormat
  {
    DateSpelling();
    TimeSpelling();
    SpellHalves(DateParts, TimeParts);
  }

  /** Halves that spell the date and the time spell the default format around a space. */
  lemma SpellHalves(date: seq<Part>, time: seq<Part>)
    requires Spell(date) == "YYYY-MM-DD" && Spell(time) == "HH:mm:ss"
    ensures Spell(date + [Lit(' ')] + time) == DefaultFormat
  {
    SpellAppend(date, [Lit(' ')]);
    SpaceSpelling();
    SpellAppend(date + [Lit(' ')], time);
    DefaultFormatHalves();
  }

  lemma SpaceSpelling()
    ensures Spell([Lit(' ')]) == " "
  {
  }

  lemma DefaultFormatHalves()
    ensures DefaultFormat == "YYYY-MM-DD" + " " + "HH:mm:ss"
  {
  }

  lemma DateRendering(vals: Values)
    ensures Render(DateParts, vals) == vals(Year) + "-" + vals(Month) + "-" + vals(Day)
  {
  }

  lemma TimeRendering(vals: Values)
    ensures Render(TimeParts, vals) == vals(Hours) + ":" + vals(Minutes) + ":" + vals(Seconds)
  {
  }

  lemma DefaultRendering(vals: Values)
    ensures Render(DefaultParts, vals) ==
      vals(Year) + "-" + vals(Month) + "-" + vals(Day) + " " + vals(Hours) + ":" + vals(Minutes) + ":" + vals(Seconds)
  {
    RenderAppend(DateParts + [Lit(' ')], TimeParts, vals);
    RenderAppend(DateParts, [Lit(' ')], vals);
    DateRendering(vals);
    TimeRendering(vals);
  }

  /** The default format gives year-month-day, a space, and hours:minutes:seconds. */
  lemma DefaultLayout(d: Fields)
    ensures Format(Some(d), DefaultFormat) ==
      Value(d, Year) + "-" + Value(d, Month) + "-" + Value(d, Day) + " "
        + Value(d, Hours) + ":" + Value(d, Minutes) + ":" + Value(d, Seconds)
  {
    var vals := FieldValues(d);
    assert Plain(DefaultParts);
    calc {
      Format(Some(d), DefaultFormat);
      { DefaultSpelling(); }
      Format(Some(d), Spell(DefaultParts));
      { FormatRendersTokens(DefaultParts, d); }
      Render(DefaultParts, vals);
      { DefaultRendering(vals); }
      vals(Year) + "-" + vals(Month) + "-" + vals(Day) + " " + vals(Hours) + ":" + vals(Minutes) + ":" + vals(Seconds);
    }
  }

  function Pow10(n: nat): nat {
    if n == 0 then 1 else 10 * Pow10(n - 1)
  }

  lemma Pow10Small()
    ensures Pow10(2) == 100 && Pow10(3) == 1000
  {
    assert Pow10(1) == 10;
  }

  lemma {:induction false} NatToStringLength(n: nat, w: nat)
    requires w > 0 && n < Pow10(w)
    ensures |NatToString(n)| <= w
    decreases n
  {
    if n >= 10 {
      assert Pow10(w) == 10 * Pow10(w - 1);
      assert w > 1;
      assert n / 10 < Pow10(w - 1);
      NatToStringLength(n / 10, w - 1);
      assert NatToString(n) == NatToString(n / 10) + [DigitChar(n % 10)];
    }
  }

  lemma {:induction false} LeadingZeros(z: nat, s: string)
    requires AllDigits(s)
    ensures AllDigits(Repeat('0', z) + s) && DigitsValue(Repeat('0', z) + s) == DigitsValue(s)
    decreases |s|
  {
    var r := Repeat('0', z) + s;
    if |s| == 0 {
      assert r == Repeat('0', z);
      ZerosValue(z);
    } else {
      LeadingZeros(z, s[..|s| - 1]);
      assert r[..|r| - 1] == Repeat('0', z) + s[..|s| - 1];
    }
  }

  lemma {:induction false} ZerosValue(z: nat)
    ensures AllDigits(Repeat('0', z)) && DigitsValue(Repeat('0', z)) == 0
  {
    if z > 0 {
      ZerosValue(z - 1);
      var r := Repeat('0', z);
      assert r[..z - 1] == Repeat('0', z - 1);
    }
  }

  /** A number below ten to the width pads to exactly the width and reads back as itself. */
  lemma PadRoundTrip(n: nat, w: nat)
    requires w > 0 && n < Pow10(w)
    ensures var s := PadStart(NatToString(n), w);
      |s| == w && AllDigits(s) && DigitsValue(s) == n
  {
    NatToStringLength(n, w);
    DigitsValueOfNatToString(n);
    var z := w - |NatToString(n)|;
    assert PadStart(NatToString(n), w) == Repeat('0', z) + NatToString(n) || z == 0;
    LeadingZeros(z, NatToString(n));
    assert Repeat('0', 0) + NatToString(n) == NatToString(n);
  }

  /** The number a token other than the year shows: the month one-based, the others as they are. */
  function FieldNumber(d: Fields, k: Token): nat
    requires k != Year
  {
    match k
    case Month => d.month + 1
    case Day => d.day
    case Hours => d.hours
    case Minutes => d.minutes
    case Seconds => d.seconds
    case Millis => d.millis
  }

  /**
   * Below a hundred (a thousand for milliseconds), as every field of a real
   * date is, a field is written with exactly its token's width and reads
   * back as the field's number.
   */
  lemma FieldReadsBack(d: Fields, k: Token)
    requires k != Year && FieldNumber(d, k) < (if k == Millis then 1000 else 100)
    ensures |Value(d, k)| == Width(k) && AllDigits(Value(d, k)) && DigitsValue(Value(d, k)) == FieldNumber(d, k)
  {
    Pow10Small();
    PadRoundTrip(FieldNumber(d, k), Width(k));
  }
}

/**
 * User roles: the two role constants, their JSON encoding, and the shape of
 * generated user names.
 */
module UserRoles {
  import opened Common
  import opened Text
  import opened Random

  const RoleReader: int := 1
  const RoleAdmin: int := 2

  /** The name a role is written as; any other value is `unknown`. */
  function RoleName(r: int): (s: string)
    ensures s == "reader" <==> r == RoleReader
    ensures s == "admin" <==> r == RoleAdmin
    ensures s == "unknown" <==> r != RoleReader && r != RoleAdmin
  {
    if r == RoleReader then "reader" else if r == RoleAdmin then "admin" else "unknown"
  }

  /**
   * Characters `json.Marshal` writes as themselves inside a string literal:
   * no quote, backslash or control character (section 7 of RFC 8259), and
   * none of `<`, `>`, `&` and the line and paragraph separators U+2028 and
   * U+2029, which Go escapes as well.
   */
  predicate Unescaped(c: char) {
    && c != '"' && c != '\\' && c >= ' ' && c != '<' && c != '>' && c != '&'
    && c != '\U{2028}' && c != '\U{2029}'
  }

  /** A JSON string literal whose body needs no escapes. */
  predicate PlainJsonString(b: string) {
    |b| >= 2 && b[0] == '"' && b[|b| - 1] == '"' && forall i :: 0 < i < |b| - 1 ==> Unescaped(b[i])
  }

  /** `json.Marshal` of a string that needs no escapes: the string in double quotes. */
  function QuoteJson(s: string): (b: string)
    requires forall i :: 0 <= i < |s| ==> Unescaped(s[i])
    ensures PlainJsonString(b)
    ensures b[1..|b| - 1] == s
  {
    "\"" + s + "\""
  }

  /** `UserRole.MarshalJSON`: the role's name as a JSON string. */
  function MarshalJSON(r: int): (b: string)
    ensures PlainJsonString(b)
  {
    QuoteJson(RoleName(r))
  }

  /** Reads a role back from its JSON form; `unknown` and anything else is no role. */
  function UnmarshalRole(b: string): (r: Option<int>)
    ensures r.Some? ==> r.value == RoleReader || r.value == RoleAdmin
  {
    if b == "\"reader\"" then Some(RoleReader)
    else if b == "\"admin\"" then Some(RoleAdmin)
    else None
  }

  /** The two roles survive the encoding; every other value encodes to the one `"unknown"`. */
  lemma MarshalRoundTrip(r: int)
    ensures r == RoleReader || r == RoleAdmin ==> UnmarshalRole(MarshalJSON(r)) == Some(r)
    ensures r != RoleReader && r != RoleAdmin ==> UnmarshalRole(MarshalJSON(r)) == None && MarshalJSON(r) == "\"unknown\""
  {
  }

  /** The encoding tells the roles apart: two values encode alike only when neither is a role or they are equal. */
  lemma MarshalSeparatesRoles(a: int, b: int)
    requires MarshalJSON(a) == MarshalJSON(b)
    ensures a == b || (a != RoleReader && a != RoleAdmin && b != RoleReader && b != RoleAdmin)
  {
    assert MarshalJSON(a)[1..|MarshalJSON(a)| - 1] == RoleName(a);
    assert MarshalJSON(b)[1..|MarshalJSON(b)| - 1] == RoleName(b);
  }

  const UsernameAlphabet: string := Letters + Digits
  const Letters: string := "abcdefghijklmnopqrstuvwxyz"
  const Digits: string := "0123456789"

  predicate IsLowerAlnum(c: char) { 'a' <= c <= 'z' || '0' <= c <= '9' }

  /** `GenerateUsername`: `user_` and six random lower-case letters or digits. */
  function GenerateUsername(draws: seq<Option<nat>>): (u: string)
    requires |draws| == 6 && ValidDraws(draws, UsernameAlphabet)
    ensures |u| == 11 && HasPrefix(u, "user_")
    ensures forall i :: 5 <= i < 11 ==> IsLowerAlnum(u[i])
  {
    var tail := RandomString(6, UsernameAlphabet, draws);
    AlphabetIsLowerAlnum();
    "user_" + tail
  }

  /** Every character of the username alphabet is a lower-case letter or a digit. */
  lemma AlphabetIsLowerAlnum()
    ensures forall c :: c in UsernameAlphabet ==> IsLowerAlnum(c)
  {
    LettersAreLower();
    DigitsAreDigits();
  }

  lemma LettersAreLower()
    ensures forall c :: c in Letters ==> 'a' <= c <= 'z'
  {
  }

  lemma DigitsAreDigits()
    ensures forall c :: c in Digits ==> '0' <= c <= '9'
  {
  }
}

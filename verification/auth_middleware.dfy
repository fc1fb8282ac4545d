/**
 * `AuthMiddleware.Handler`: reads a bearer token from the `Authorization`
 * header (section 2.1 of RFC 6750; the scheme compared case-insensitively,
 * section 11.1 of RFC 9110), parses it, checks that the user ID in its claims
 * is a UUID, and stores that ID in the request locals. Token parsing is a
 * parameter: a function from token to the claims' user ID or an error.
 */
module AuthMiddleware {
  import opened Common
  import opened Text

  const ContextUserIdKey: string := "user_id"

  /** `strings.SplitN(s, " ", 2)`: split at the first space, if there is one. */
  function SplitFirstSpace(s: string): (parts: seq<string>)
    ensures 1 <= |parts| <= 2
    ensures |parts| == 1 <==> ' ' !in s
    ensures |parts| == 1 ==> parts[0] == s
    ensures |parts| == 2 ==> ' ' !in parts[0] && s == parts[0] + " " + parts[1]
  {
    if |s| == 0 then [""]
    else if s[0] == ' ' then ["", s[1..]]
    else
      var rest := SplitFirstSpace(s[1..]);
      assert s == [s[0]] + s[1..];
      if |rest| == 1 then [s] else [[s[0]] + rest[0], rest[1]]
  }

  /** Why the middleware turned a request away; each is `Unauthorized`. */
  datatype Reject = MissingHeader | InvalidHeader | EmptyToken | InvalidUserId

  /** What the handler does: reject, return the token parser's error unchanged, or call the next handler. */
  datatype Outcome<E> = Rejected(why: Reject) | ParseFailed(err: E) | Next(userId: string)

  predicate IsHex(c: char) { '0' <= c <= '9' || 'a' <= c <= 'f' || 'A' <= c <= 'F' }

  predicate AllHex(s: string) { forall i :: 0 <= i < |s| ==> IsHex(s[i]) }

  /** The 36-character form: hex digits with dashes at positions 8, 13, 18 and 23. */
  predicate Canonical(s: string) {
    |s| == 36 && forall i :: 0 <= i < 36 ==> if i in {8, 13, 18, 23} then s[i] == '-' else IsHex(s[i])
  }

  /**
   * `uuid.Parse` accepts the canonical form, the canonical form after
   * `urn:uuid:`, 32 bare hex digits, and 38 bytes whose middle 36 are the
   * canonical form: for that length it drops the first byte and never looks
   * at the last, so the braces it is meant for are not checked. The two end
   * characters must be single bytes for the string to be 38 bytes long.
   */
  predicate IsUuid(s: string) {
    || Canonical(s)
    || (|s| == 38 && s[0] < '\U{80}' && s[37] < '\U{80}' && Canonical(s[1..37]))
    || (|s| == 45 && EqualFold(s[..9], "urn:uuid:") && Canonical(s[9..]))
    || (|s| == 32 && AllHex(s))
  }

  /** Any single-byte characters stand in for the braces of the 38-character form. */
  lemma BracesUnchecked(u: string, first: char, last: char)
    requires Canonical(u) && first < '\U{80}' && last < '\U{80}'
    ensures IsUuid([first] + u + [last])
  {
    assert ([first] + u + [last])[1..37] == u;
  }

  /** `Handler`: the `roles` the handler is built with are never consulted. */
  function Handle<E>(header: string, parse: string -> Result<string, E>): (r: Outcome<E>)
    ensures r == Rejected(MissingHeader) <==> header == ""
    ensures r.Next? <==> exists scheme, token ::
      && header == scheme + " " + token && ' ' !in scheme && EqualFold(scheme, "Bearer") && token != ""
      && parse(token).Ok? && IsUuid(parse(token).value)
    ensures r.Next? ==> exists token :: HasSuffix(header, " " + token) && parse(token) == Ok(r.userId)
  {
    if header == "" then Rejected(MissingHeader)
    else
      var parts := SplitFirstSpace(header);
      if |parts| != 2 || !EqualFold(parts[0], "Bearer") then
        assert forall scheme, token :: header == scheme + " " + token && ' ' !in scheme ==> scheme == parts[0] && token == parts[1]
          by { SplitFirstSpaceUnique(header, parts); }
        Rejected(InvalidHeader)
      else
        var token := parts[1];
        SplitFirstSpaceUnique(header, parts);
        if token == "" then Rejected(EmptyToken)
        else
          match parse(token)
          case Err(e) => ParseFailed(e)
          case Ok(userId) =>
            if !IsUuid(userId) then Rejected(InvalidUserId)
            else
              assert header == parts[0] + (" " + token);
              AppendedSuffix(parts[0], " " + token);
              Next(userId)
  }

  /** The split at the first space is the only split whose left part has no space. */
  lemma SplitFirstSpaceUnique(s: string, parts: seq<string>)
    requires parts == SplitFirstSpace(s)
    ensures forall a, b :: s == a + " " + b && ' ' !in a ==> |parts| == 2 && a == parts[0] && b == parts[1]
  {
    forall a, b | s == a + " " + b && ' ' !in a ensures |parts| == 2 && a == parts[0] && b == parts[1] {
      assert s[|a|] == ' ';
      assert ' ' in s;
      var p := parts[0];
      assert s[|p|] == ' ';
      assert forall i :: 0 <= i < |a| ==> s[i] == a[i] && s[i] != ' ';
      assert forall i :: 0 <= i < |p| ==> s[i] == p[i] && s[i] != ' ';
      assert |p| == |a|;
      assert s[..|a|] == a && s[|a| + 1..] == b;
      assert s[..|p|] == p && s[|p| + 1..] == parts[1];
    }
  }

  /** A well-formed header: the scheme in any case, one space, then the token, spaces inside it kept. */
  lemma BearerTokenReachesParser<E>(scheme: string, token: string, parse: string -> Result<string, E>)
    requires EqualFold(scheme, "Bearer") && token != ""
    ensures parse(token).Err? ==> Handle(scheme + " " + token, parse) == ParseFailed(parse(token).error)
    ensures parse(token).Ok? && IsUuid(parse(token).value) ==> Handle(scheme + " " + token, parse) == Next(parse(token).value)
    ensures parse(token).Ok? && !IsUuid(parse(token).value) ==> Handle(scheme + " " + token, parse) == Rejected(InvalidUserId)
  {
    var header := scheme + " " + token;
    SchemeHasNoSpace(scheme);
    SplitFirstSpaceUnique(header, SplitFirstSpace(header));
  }

  /** Any spelling of `Bearer` is six letters, none of them a space. */
  lemma SchemeHasNoSpace(scheme: string)
    requires EqualFold(scheme, "Bearer")
    ensures ' ' !in scheme
  {
    assert |scheme| == 6;
    forall i | 0 <= i < 6 ensures scheme[i] != ' ' {
      assert LowerChar(scheme[i]) == "bearer"[i];
    }
  }

  /** `Bearer` alone has no space to split at and never reaches the parser. */
  lemma SchemeAloneRejected<E>(parse: string -> Result<string, E>)
    ensures Handle("Bearer", parse) == Rejected(InvalidHeader)
  {
    assert ' ' !in "Bearer";
  }

  /** The scheme and one space: the token is empty and never reaches the parser. */
  lemma EmptyTokenRejected<E>(scheme: string, parse: string -> Result<string, E>)
    requires EqualFold(scheme, "Bearer")
    ensures Handle(scheme + " ", parse) == Rejected(EmptyToken)
  {
    var header := scheme + " ";
    SchemeHasNoSpace(scheme);
    assert header == scheme + " " + "";
    SplitFirstSpaceUnique(header, SplitFirstSpace(header));
  }

  // ---------------------------------------------------------------------------
  // Locals
  // ---------------------------------------------------------------------------

  /** A value stored in the request locals: a string, or a value of some other type. */
  datatype Local = Str(s: string) | Other

  type Locals = map<string, Local>

  /** The locals after the handler: `user_id` holds the user ID when the request passed. */
  function Store<E>(locals: Locals, r: Outcome<E>): (l: Locals)
    ensures r.Next? ==> l == locals[ContextUserIdKey := Str(r.userId)]
    ensures !r.Next? ==> l == locals
  {
    if r.Next? then locals[ContextUserIdKey := Str(r.userId)] else locals
  }

  /** `GetUserUUID`: the stored ID, and whether it was a string; `("", false)` otherwise. */
  function GetUserUUID(locals: Locals): (r: (string, bool))
    ensures r.1 <==> ContextUserIdKey in locals && locals[ContextUserIdKey].Str?
    ensures !r.1 ==> r.0 == ""
  {
    if ContextUserIdKey in locals && locals[ContextUserIdKey].Str? then (locals[ContextUserIdKey].s, true) else ("", false)
  }

  /** A request the middleware passed hands its user ID to every later handler. */
  lemma PassedRequestHasUser<E>(locals: Locals, header: string, parse: string -> Result<string, E>)
    requires Handle(header, parse).Next?
    ensures GetUserUUID(Store(locals, Handle(header, parse))) == (Handle(header, parse).userId, true)
    ensures IsUuid(GetUserUUID(Store(locals, Handle(header, parse))).0)
  {
  }
}

/**
 * `GetBearerToken` of internal/auth/auth.go: extracts the token of an
 * `Authorization: Bearer <token>` request header (section 2.1 of RFC 6750).
 */
module Auth {
  import opened Wrappers
  import opened Strings

  /** `http.Header`: canonical header names to their list of values. */
  type Header = map<string, seq<string>>

  /** `http.Header.Get` with a canonical key: the first value, or "" when there is none. */
  function Get(headers: Header, key: string): (v: string)
    ensures v == "" <==> key !in headers || headers[key] == [] || headers[key][0] == ""
    ensures key in headers && headers[key] != [] ==> v == headers[key][0]
  {
    if key in headers && |headers[key]| > 0 then headers[key][0] else ""
  }

  /** A header set holding exactly one `Authorization` value. */
  function WithAuthorization(value: string): Header {
    map["Authorization" := [value]]
  }

  /** The three errors `GetBearerToken` returns, in the order it checks them. */
  datatype BearerError = AuthError | InvalidAuthorizationHeader | EmptyBearerToken

  /** The text of each error, as `errors.New` builds it. */
  function Message(e: BearerError): string {
    match e
    case AuthError => "Auth error"
    case InvalidAuthorizationHeader => "invalid authorization header"
    case EmptyBearerToken => "empty bearer token"
  }

  const Prefix: string := "Bearer "

  /** The first 7 bytes of `s` are "Bearer " up to ASCII case. */
  predicate HasBearerPrefix(s: string) {
    |s| >= |Prefix| && EqualFold(s[..|Prefix|], Prefix)
  }

  /** A string that passes the scheme check and has no outer white space carries a token. */
  lemma PrefixedTrimmedHasToken(s: string)
    requires HasBearerPrefix(s) && NoOuterSpace(s)
    ensures |s| > |Prefix|
    ensures !IsSpace(s[|s| - 1])
  {
  }

  /**
   * `GetBearerToken`. An absent or empty header is an `AuthError`; otherwise the
   * value is trimmed, must begin with "Bearer " in any case, and what follows,
   * trimmed again, is the token. The `EmptyBearerToken` branch is kept as in
   * the source; the contract shows that no header reaches it.
   */
  function GetBearerToken(headers: Header): (r: Result<string, BearerError>)
    ensures r == Failure(AuthError) <==> Get(headers, "Authorization") == ""
    ensures r == Failure(InvalidAuthorizationHeader) <==>
      Get(headers, "Authorization") != "" && !HasBearerPrefix(TrimSpace(Get(headers, "Authorization")))
    ensures r.Success? <==>
      Get(headers, "Authorization") != "" && HasBearerPrefix(TrimSpace(Get(headers, "Authorization")))
    ensures r != Failure(EmptyBearerToken)
    ensures r.Success? ==>
      var rest := TrimSpace(Get(headers, "Authorization"))[|Prefix|..];
      && r.value != ""
      && NoOuterSpace(r.value)
      && |r.value| <= |rest|
      && r.value == rest[|rest| - |r.value|..]
      && AllSpace(rest[..|rest| - |r.value|])
  {
    var authHeader := Get(headers, "Authorization");
    if authHeader == "" then Failure(AuthError)
    else
      var trimmed := TrimSpace(authHeader);
      if |trimmed| < |Prefix| || !EqualFold(trimmed[..|Prefix|], Prefix) then
        Failure(InvalidAuthorizationHeader)
      else
        PrefixedTrimmedHasToken(trimmed);
        var rest := trimmed[|Prefix|..];
        assert rest[|rest| - 1] == trimmed[|trimmed| - 1];
        TrimSpaceKeepsEnd(rest);
        var token := TrimSpace(rest);
        if token == "" then Failure(EmptyBearerToken)
        else Success(token)
  }

  /** On a header that passes both checks, the token is the trimmed remainder after the prefix. */
  lemma TokenAfterPrefix(value: string)
    requires value != "" && HasBearerPrefix(TrimSpace(value))
    ensures GetBearerToken(WithAuthorization(value)) == Success(TrimSpace(TrimSpace(value)[|Prefix|..]))
  {
  }

  /** The trimmed shape of a well-formed header value, for the round trip below. */
  lemma WellFormedValue(pre: string, scheme: string, gap: string, token: string, post: string)
    requires AllSpace(pre) && AllSpace(gap) && AllSpace(post)
    requires EqualFold(scheme, Prefix)
    requires token != "" && NoOuterSpace(token)
    ensures TrimSpace(pre + scheme + gap + token + post) == scheme + gap + token
  {
    var core := scheme + gap + token;
    assert pre + scheme + gap + token + post == pre + core + post;
    assert core[0] == scheme[0] && LowerChar(scheme[0]) == LowerChar(Prefix[0]);
    assert core[|core| - 1] == token[|token| - 1];
    TrimSpaceOf(pre, core, post);
  }

  /** A value whose trimmed form is an any-case "Bearer ", white space and a token gives that token. */
  lemma TokenOfTrimmedValue(value: string, scheme: string, gap: string, token: string)
    requires TrimSpace(value) == scheme + gap + token
    requires EqualFold(scheme, Prefix) && AllSpace(gap)
    requires token != "" && NoOuterSpace(token)
    ensures GetBearerToken(WithAuthorization(value)) == Success(token)
  {
    var core := scheme + gap + token;
    assert value != "" by { assert TrimSpace(value) != []; }
    assert core[..|Prefix|] == scheme;
    assert HasBearerPrefix(core);
    assert core[|Prefix|..] == gap + token + [];
    TrimSpaceOf(gap, token, []);
    TokenAfterPrefix(value);
  }

  /**
   * Round trip: any-case "Bearer ", extra white space, a token with no outer
   * white space, all wrapped in white space, gives the token back.
   */
  lemma BearerRoundTrip(pre: string, scheme: string, gap: string, token: string, post: string)
    requires AllSpace(pre) && AllSpace(gap) && AllSpace(post)
    requires EqualFold(scheme, Prefix)
    requires token != "" && NoOuterSpace(token)
    ensures GetBearerToken(WithAuthorization(pre + scheme + gap + token + post)) == Success(token)
  {
    WellFormedValue(pre, scheme, gap, token, post);
    TokenOfTrimmedValue(pre + scheme + gap + token + post, scheme, gap, token);
  }

  /** An absent header, or one whose value is empty, is an `AuthError`. */
  lemma MissingHeaderRejected(headers: Header)
    requires "Authorization" !in headers || headers["Authorization"] == [] || headers["Authorization"][0] == ""
    ensures GetBearerToken(headers) == Failure(AuthError)
  {
  }

  /** White space alone passes the emptiness check and fails the scheme check. */
  lemma WhitespaceOnlyRejected(value: string)
    requires value != "" && AllSpace(value)
    ensures GetBearerToken(WithAuthorization(value)) == Failure(InvalidAuthorizationHeader)
  {
  }

  /** Extra white space after the scheme is trimmed off the token. */
  lemma AcceptedExtraSpaces()
    ensures GetBearerToken(WithAuthorization("Bearer   abc123")) == Success("abc123")
  {
    assert "" + "Bearer " + "  " + "abc123" + "" == "Bearer   abc123";
    BearerRoundTrip("", "Bearer ", "  ", "abc123", "");
  }

  /** The scheme matches in lower case. */
  lemma AcceptedLowerCase()
    ensures GetBearerToken(WithAuthorization("bearer x")) == Success("x")
  {
    assert "" + "bearer " + "" + "x" + "" == "bearer x";
    BearerRoundTrip("", "bearer ", "", "x", "");
  }

  /** The scheme matches in upper case. */
  lemma AcceptedUpperCase()
    ensures GetBearerToken(WithAuthorization("BEARER x")) == Success("x")
  {
    assert "" + "BEARER " + "" + "x" + "" == "BEARER x";
    BearerRoundTrip("", "BEARER ", "", "x", "");
  }

  /** Outer white space of any kind is trimmed before the scheme check. */
  lemma AcceptedOuterWhitespace()
    ensures GetBearerToken(WithAuthorization(" \tBearer xyz \r\n")) == Success("xyz")
  {
    assert " \t" + "Bearer " == " \tBearer ";
    assert " \tBearer " + "" == " \tBearer ";
    assert " \tBearer " + "xyz" == " \tBearer xyz";
    assert " \tBearer xyz" + " \r\n" == " \tBearer xyz \r\n";
    BearerRoundTrip(" \t", "Bearer ", "", "xyz", " \r\n");
  }

  /** A value with no outer white space is its own trimmed form. */
  lemma RejectedBy(value: string)
    requires value != "" && NoOuterSpace(value) && !HasBearerPrefix(value)
    ensures GetBearerToken(WithAuthorization(value)) == Failure(InvalidAuthorizationHeader)
  {
  }

  /** Sample headers whose first 7 bytes are not "Bearer " in any case. */
  lemma RejectedSchemes()
    ensures GetBearerToken(WithAuthorization("Basic xyz")) == Failure(InvalidAuthorizationHeader)
    ensures GetBearerToken(WithAuthorization("Bearerx")) == Failure(InvalidAuthorizationHeader)
    ensures GetBearerToken(WithAuthorization("Bearer\tx")) == Failure(InvalidAuthorizationHeader)
  {
    assert LowerChar("Basic xyz"[2]) != LowerChar(Prefix[2]);
    RejectedBy("Basic xyz");
    assert LowerChar("Bearerx"[6]) != LowerChar(Prefix[6]);
    RejectedBy("Bearerx");
    assert LowerChar("Bearer\tx"[6]) != LowerChar(Prefix[6]);
    RejectedBy("Bearer\tx");
  }

  /**
   * "Bearer " alone fails the scheme check: the outer trim removes its space,
   * so it is shorter than the prefix. The empty value is an `AuthError`.
   */
  lemma RejectedBareScheme()
    ensures GetBearerToken(WithAuthorization("Bearer ")) == Failure(InvalidAuthorizationHeader)
    ensures GetBearerToken(WithAuthorization("")) == Failure(AuthError)
  {
    TrimSpaceOf([], "Bearer", " ");
    assert [] + "Bearer" + " " == "Bearer ";
  }
}

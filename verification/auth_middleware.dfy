/** Bearer-token extraction (middlewares/auth_middleware.py). Decoding the
    token is a parameter: utils/auth.py is not part of this model. */
module AuthMiddleware {
  import opened Wrappers
  import opened Domain
  import opened PyStrings

  /** ASCII lower-casing of one character. */
  function LowerAscii(c: char): (d: char)
    ensures 'A' <= c <= 'Z' ==> d as int == c as int + 32
    ensures !('A' <= c <= 'Z') ==> d == c
  {
    if 'A' <= c <= 'Z' then (c as int + 32) as char else c
  }

  /** `scheme.lower() == "bearer"`: no character other than an ASCII letter
      lower-cases to one of the letters of "bearer", so folding ASCII
      letters decides this comparison. */
  predicate IsBearer(scheme: string): (b: bool)
    ensures b ==> scheme != [] && NoSpace(scheme)
    ensures scheme == "bearer" || scheme == "Bearer" || scheme == "BEARER" ==> b
  {
    assert forall i :: 0 <= i < |scheme| && i < 6 && LowerAscii(scheme[i]) == "bearer"[i] ==> !IsSpace(scheme[i]);
    |scheme| == 6 && forall i :: 0 <= i < 6 ==> LowerAscii(scheme[i]) == "bearer"[i]
  }

  /** The token of an `Authorization` value: it must split on whitespace
      into exactly two words (otherwise the tuple unpacking raises
      ValueError), and the first must be "bearer" in any letter case. */
  function BearerToken(header: string): (t: Option<string>)
    ensures t.Some? <==> |Split(header)| == 2 && IsBearer(Split(header)[0])
    ensures t.Some? ==> t.value == Split(header)[1] && t.value != [] && NoSpace(t.value)
  {
    var words := Split(header);
    if |words| != 2 then None
    else if !IsBearer(words[0]) then None
    else
      assert words[1] in words;
      Some(words[1])
  }

  /** `get_current_user_id`: Unauthorized when the header is missing or
      empty, malformed, not a bearer header, or carries a token that does
      not decode to a non-empty user id; that user id otherwise. */
  function CurrentUserId(authorization: Option<string>, decode: string -> Option<string>): (r: Result<string, Error>)
    ensures r.Err? ==> r.error == Unauthorized
    ensures r.Ok? <==>
      authorization.Some? && BearerToken(authorization.value).Some? &&
      decode(BearerToken(authorization.value).value).Some? &&
      decode(BearerToken(authorization.value).value).value != ""
    ensures r.Ok? ==> r.value != "" && decode(BearerToken(authorization.value).value) == Some(r.value)
  {
    if authorization.None? || authorization.value == "" then Err(Unauthorized)
    else
      match BearerToken(authorization.value)
      case None => Err(Unauthorized)
      case Some(token) =>
        match decode(token)
        case None => Err(Unauthorized)
        case Some(userId) => if userId == "" then Err(Unauthorized) else Ok(userId)
  }

  /** `get_current_user_optional`: None wherever the required variant
      rejects the header's shape; otherwise whatever the token decodes to. */
  function OptionalUserId(authorization: Option<string>, decode: string -> Option<string>): (r: Option<string>)
    ensures authorization.None? || BearerToken(authorization.value).None? ==> r.None?
    ensures authorization.Some? && BearerToken(authorization.value).Some? ==>
      r == decode(BearerToken(authorization.value).value)
  {
    if authorization.None? || authorization.value == "" then None
    else
      match BearerToken(authorization.value)
      case None => None
      case Some(token) => decode(token)
  }

  /** The two variants agree: the optional one yields the user id the
      required one accepts, and a non-empty id it yields is accepted. */
  lemma RequiredAndOptionalAgree(authorization: Option<string>, decode: string -> Option<string>)
    ensures CurrentUserId(authorization, decode).Ok? ==>
      OptionalUserId(authorization, decode) == Some(CurrentUserId(authorization, decode).value)
    ensures OptionalUserId(authorization, decode).Some? && OptionalUserId(authorization, decode).value != "" ==>
      CurrentUserId(authorization, decode) == Ok(OptionalUserId(authorization, decode).value)
  {
  }

  /** "Bearer <token>", with the scheme in any letter case, yields the token. */
  lemma BearerRoundTrip(scheme: string, token: string)
    requires IsBearer(scheme) && token != [] && NoSpace(token)
    ensures BearerToken(scheme + " " + token) == Some(token)
  {
    assert scheme != [] && NoSpace(scheme) by {
      forall i | 0 <= i < |scheme| ensures !IsSpace(scheme[i]) {
        assert LowerAscii(scheme[i]) == "bearer"[i];
      }
    }
    assert forall w :: w in [scheme, token] ==> w != [] && NoSpace(w);
    SplitSpaced([scheme, token]);
    assert Spaced([scheme, token]) == scheme + " " + token by {
      assert [scheme, token][1..] == [token];
    }
  }

  lemma SpacedThree(a: string, b: string, c: string)
    ensures Spaced([a, b, c]) == a + " " + b + " " + c
  {
    var ws := [a, b, c];
    assert Spaced(ws[1..]) == b + " " + c by {
      assert ws[1..] == [b, c];
      assert ws[1..][1..] == [c];
    }
    assert a + " " + (b + " " + c) == a + " " + b + " " + c;
  }

  /** A header with a third word is rejected, whatever its scheme. */
  lemma ThirdWordRejected(scheme: string, token: string, extra: string)
    requires scheme != [] && NoSpace(scheme) && token != [] && NoSpace(token) && extra != [] && NoSpace(extra)
    ensures BearerToken(scheme + " " + token + " " + extra) == None
  {
    var ws := [scheme, token, extra];
    assert forall w :: w in ws ==> w != [] && NoSpace(w);
    SplitSpaced(ws);
    SpacedThree(scheme, token, extra);
    assert |Split(scheme + " " + token + " " + extra)| == 3;
  }

  /** A scheme other than bearer is rejected. */
  lemma BasicRejected(token: string)
    requires token != [] && NoSpace(token)
    ensures BearerToken("Basic " + token) == None
  {
    var ws := ["Basic", token];
    assert forall w :: w in ws ==> w != [] && NoSpace(w);
    SplitSpaced(ws);
    assert Spaced(ws) == "Basic " + token by {
      assert ws[1..] == [token];
    }
    assert LowerAscii('B') == 'b' && LowerAscii('a') != 'e';
  }
}

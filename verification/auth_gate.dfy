/** `AuthMiddleware` (backend/app/core/middleware.py lines 46-125): public
    paths pass untouched; every other request needs an `Authorization`
    header of exactly two whitespace-separated words whose first is `bearer`
    in any letter case, and whose second is a token the JWT library accepts.
    The library is a parameter: given a token it yields the payload or an
    error, either an `InvalidTokenError` or some other exception. */
module AuthGate {
  import opened Wrappers
  import Strings

  /** The paths served without authentication, besides `/favicon...`. */
  const PublicEndpoints: seq<string> := [
    "/", "/health", "/api/health", "/docs", "/redoc", "/openapi.json",
    "/api/auth/token", "/api/debug/auth"
  ]

  const NoToken := "No authorization token provided"
  const BadFormat := "Invalid authorization header format"
  const BadScheme := "Invalid authentication scheme"
  const InvalidTokenPrefix := "Invalid token: "

  /** An exception raised by the JWT library, with its text: one of the
      `InvalidTokenError` family, which the inner handler reports with the
      "Invalid token: " prefix, or any other, which the outer
      `except Exception` reports as bare text. */
  datatype DecodeError = InvalidToken(message: string) | OtherError(message: string)

  /** The JWT library: the payload of a valid token, or the error it raises. */
  type TokenDecoder<P> = string -> Result<P, DecodeError>

  /** The 401 detail for an error raised while decoding. */
  function DecodeDetail(e: DecodeError): (detail: string)
    ensures e.InvalidToken? ==> detail == InvalidTokenPrefix + e.message
    ensures e.OtherError? ==> detail == e.message
  {
    match e
    case InvalidToken(m) => InvalidTokenPrefix + m
    case OtherError(m) => m
  }

  /** What the middleware does with a request: hand it on without looking
      at it, hand it on with the token's payload attached, or answer 401
      with a detail message. */
  datatype AuthOutcome<P> = Bypass | Authenticated(payload: P) | Unauthorized(detail: string)

  predicate IsPublic(path: string) {
    path in PublicEndpoints || (|path| >= 8 && path[..8] == "/favicon")
  }

  /** The checks in the order the source makes them; an absent header and an
      empty one are both "not auth_header". */
  function Authorize<P>(path: string, header: Option<string>, decode: TokenDecoder<P>): (r: AuthOutcome<P>)
    ensures r.Bypass? <==> IsPublic(path)
    ensures r.Authenticated? ==>
      && header.Some?
      && |Strings.Words(header.value)| == 2
      && Strings.AsciiLower(Strings.Words(header.value)[0]) == "bearer"
      && decode(Strings.Words(header.value)[1]) == Success(r.payload)
  {
    if IsPublic(path) then Bypass
    else if header.None? || header.value == "" then Unauthorized(NoToken)
    else
      var words := Strings.Words(header.value);
      if |words| != 2 then Unauthorized(BadFormat)
      else if Strings.AsciiLower(words[0]) != "bearer" then Unauthorized(BadScheme)
      else
        match decode(words[1])
        case Success(p) => Authenticated(p)
        case Failure(e) => Unauthorized(DecodeDetail(e))
  }

  /** No `Authorization` header, or an empty one, is refused as a missing
      token before anything else is looked at. */
  lemma MissingHeaderIsNoToken<P>(path: string, header: Option<string>, decode: TokenDecoder<P>)
    requires !IsPublic(path)
    requires header.None? || header.value == ""
    ensures Authorize(path, header, decode) == Unauthorized(NoToken)
  {
  }

  /** Two words whose first does not lower-case to `bearer` are refused as
      a wrong scheme, and the token is never handed to the JWT library. */
  lemma WrongSchemeRefused<P>(path: string, w0: string, scheme: string, w1: string, token: string, w2: string,
                              decode: TokenDecoder<P>)
    requires !IsPublic(path)
    requires Strings.Blank(w0) && Strings.Blank(w1) && Strings.Blank(w2) && |w1| > 0
    requires Strings.IsWord(scheme) && Strings.IsWord(token)
    requires Strings.AsciiLower(scheme) != "bearer"
    ensures Authorize(path, Some(w0 + scheme + w1 + token + w2), decode) == Unauthorized(BadScheme)
  {
    var header := w0 + scheme + w1 + token + w2;
    Strings.WordsOfTwo(w0, scheme, w1, token, w2);
    assert header != "" by {
      assert |header| >= |scheme| > 0;
    }
  }

  /** A bare token without a scheme is one word, not two: it is refused as
      a bad format before the token is looked at. */
  lemma TokenWithoutScheme<P>(path: string, token: string, decode: TokenDecoder<P>)
    requires !IsPublic(path)
    requires Strings.IsWord(token)
    ensures Authorize(path, Some(token), decode) == Unauthorized(BadFormat)
  {
    Strings.WordsTakeWord(token, "");
    assert token + "" == token;
  }

  /** A header laid out as blank, scheme, blank, token, blank, with a scheme
      that lower-cases to `bearer`, hands exactly that token to the JWT
      library, however much whitespace surrounds the two words. */
  lemma BearerTokenReachesDecoder<P>(path: string, w0: string, scheme: string, w1: string, token: string, w2: string,
                                      decode: TokenDecoder<P>)
    requires !IsPublic(path)
    requires Strings.Blank(w0) && Strings.Blank(w1) && Strings.Blank(w2) && |w1| > 0
    requires Strings.IsWord(scheme) && Strings.IsWord(token)
    requires Strings.AsciiLower(scheme) == "bearer"
    ensures Authorize(path, Some(w0 + scheme + w1 + token + w2), decode)
      == match decode(token)
         case Success(p) => Authenticated(p)
         case Failure(InvalidToken(m)) => Unauthorized(InvalidTokenPrefix + m)
         case Failure(OtherError(m)) => Unauthorized(m)
  {
    var header := w0 + scheme + w1 + token + w2;
    Strings.WordsOfTwo(w0, scheme, w1, token, w2);
    assert header != "" by {
      assert |header| >= |scheme| > 0;
    }
  }

  /** Any letter case of `bearer` is accepted as the scheme. */
  lemma SchemeCaseInsensitive(scheme: string)
    requires |scheme| == 6
    requires forall i :: 0 <= i < 6 ==> scheme[i] == "bearer"[i] || scheme[i] == "BEARER"[i]
    ensures Strings.AsciiLower(scheme) == "bearer"
  {
    var low := Strings.AsciiLower(scheme);
    BearerLetters();
    forall i | 0 <= i < 6
      ensures low[i] == "bearer"[i]
    {
      Strings.AsciiLowerAt(scheme, i);
      Strings.LowerLetter(scheme[i], "bearer"[i], "BEARER"[i]);
    }
  }

  /** `BEARER` is `bearer` in capitals. */
  lemma BearerLetters()
    ensures forall i :: 0 <= i < 6 ==> 'a' <= "bearer"[i] <= 'z' && "BEARER"[i] as int == "bearer"[i] as int - 32
  {
  }

  /** A header that is only whitespace is present, so it fails as a bad
      format rather than as a missing token. */
  lemma BlankHeaderIsBadFormat<P>(path: string, header: string, decode: TokenDecoder<P>)
    requires !IsPublic(path)
    requires header != "" && Strings.Blank(header)
    ensures Authorize(path, Some(header), decode) == Unauthorized(BadFormat)
  {
    Strings.WordsOfBlank(header);
  }
}

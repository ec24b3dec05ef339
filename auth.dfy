/** The request guard for `Auth`: it finds a transport string in the
    `Authorization` header or, failing that, in the session cookie, decodes
    it, and maps the result to a success or to an error with an HTTP status.
    The request is abstracted to the first `Authorization` header value and
    the value of the `cactuserve-session` cookie, each of which may be absent;
    the decoder is a parameter. */
module RequestAuth {
  import opened Outcomes
  import Codec
  import Keystream
  import Bytes

  const AUTH_HEADER_SCHEME: string := "Bearer"

  datatype AuthRequestError<+E> =
    | NoSession
    | InvalidHeaderFormat
    | UnsupportedAuthScheme
    | BadToken(error: Codec.DecodeTokenError<E>)

  datatype Status = Unauthorized | BadRequest
  {
    function Code(): nat
    {
      match this
      case Unauthorized => 401
      case BadRequest => 400
    }
  }

  /** The guard's product: the decoded token. */
  datatype Auth<+T> = Auth(token: T)

  /** Rocket's `Outcome`, as far as this guard produces it (never `Forward`). */
  datatype RequestOutcome<+T, +E> = Success(auth: Auth<T>) | Failure(status: Status, error: AuthRequestError<E>)

  /** `from_str` bound to the reader and the public key. */
  type Decoder<T, E> = string -> Completion<Result<T, Codec.DecodeTokenError<E>>>

  /** `str::strip_prefix`. */
  function StripPrefix(s: string, prefix: string): (r: Option<string>)
    ensures r.Some? <==> prefix <= s
    ensures r.Some? ==> s == prefix + r.value
  {
    if prefix <= s then Some(s[|prefix|..]) else None
  }

  /** `char::is_whitespace`: the Unicode `White_Space` property. */
  predicate IsWhitespace(c: char)
  {
    var x := c as int;
    || (0x09 <= x <= 0x0D) || x == 0x20 || x == 0x85 || x == 0xA0 || x == 0x1680
    || (0x2000 <= x <= 0x200A) || x == 0x2028 || x == 0x2029 || x == 0x202F
    || x == 0x205F || x == 0x3000
  }

  /** `str::trim_start`: the string without its leading whitespace. */
  function TrimStart(s: string): (r: string)
    ensures |r| <= |s| && r == s[|s| - |r|..]
    ensures forall i :: 0 <= i < |s| - |r| ==> IsWhitespace(s[i])
    ensures r == [] || !IsWhitespace(r[0])
  {
    if s != [] && IsWhitespace(s[0]) then TrimStart(s[1..]) else s
  }

  /** The token the request carries, if any: the `Authorization` header if
      present, with the `Bearer` scheme stripped and leading whitespace
      trimmed, or an `InvalidHeaderFormat` error when the scheme is missing;
      otherwise the session cookie's value as it is. */
  function Candidate<E>(header: Option<string>, cookie: Option<string>)
    : (r: Option<Result<string, AuthRequestError<E>>>)
    ensures r.None? <==> header.None? && cookie.None?
    ensures header.None? && cookie.Some? ==> r == Some(Ok(cookie.value))
    ensures header.Some? ==> (r.value.Err? <==> !(AUTH_HEADER_SCHEME <= header.value))
    ensures header.Some? && r.value.Err? ==> r.value.error == InvalidHeaderFormat
    ensures header.Some? && r.value.Ok? ==>
              var h, t := header.value, r.value.value;
              && |AUTH_HEADER_SCHEME| + |t| <= |h|
              && t == h[|h| - |t|..]
              && (forall i :: |AUTH_HEADER_SCHEME| <= i < |h| - |t| ==> IsWhitespace(h[i]))
              && (t == [] || !IsWhitespace(t[0]))
  {
    match header
    case Some(value) =>
      Some(match StripPrefix(value, AUTH_HEADER_SCHEME)
           case None => Err(InvalidHeaderFormat)
           case Some(rest) => Ok(TrimStart(rest)))
    case None =>
      match cookie
      case Some(value) => Some(Ok(value))
      case None => None
  }

  /** How the outcome of decoding becomes the guard's outcome: any decode
      error, a bad signature included, is a `BadToken` with 400; success
      yields `Auth` holding exactly the decoded token; a panic stays a panic. */
  function Bind<T, E>(decoded: Completion<Result<T, Codec.DecodeTokenError<E>>>)
    : (r: Completion<RequestOutcome<T, E>>)
    ensures decoded.Panicked? <==> r.Panicked?
    ensures decoded.Returned? && decoded.value.Ok? <==> r.Returned? && r.value.Success?
    ensures r.Returned? && r.value.Success? ==> r.value.auth.token == decoded.value.value
    ensures r.Returned? && r.value.Failure? ==>
              r.value.status.Code() == 400 && r.value.error == BadToken(decoded.value.error)
  {
    match decoded
    case Panicked(f) => Panicked(f)
    case Returned(Ok(token)) => Returned(Success(Auth(token)))
    case Returned(Err(e)) => Returned(Failure(BadRequest, BadToken(e)))
  }

  /** `<Auth as FromRequest>::from_request`, where `header` is the first
      value of the `Authorization` header and `cookie` the value of the
      `cactuserve-session` cookie. */
  function FromRequest<T, E>(header: Option<string>, cookie: Option<string>, decode: Decoder<T, E>)
    : (r: Completion<RequestOutcome<T, E>>)
    ensures header.None? && cookie.None? <==> r == Returned(Failure(Unauthorized, NoSession))
    ensures r.Returned? && r.value.Failure? ==>
              (r.value.status.Code() == 401 <==> r.value.error == NoSession)
    ensures r.Returned? && r.value.Failure? ==> !r.value.error.UnsupportedAuthScheme?
  {
    match Candidate(header, cookie)
    case None => Returned(Failure(Unauthorized, NoSession))
    case Some(Err(e)) => Returned(Failure(BadRequest, e))
    case Some(Ok(token)) => Bind(decode(token))
  }

  /** With an `Authorization` header present the cookie is never consulted. */
  lemma HeaderBeforeCookie<T, E>(value: string, cookie1: Option<string>, cookie2: Option<string>,
                                 decode: Decoder<T, E>)
    ensures FromRequest(Some(value), cookie1, decode) == FromRequest(Some(value), cookie2, decode)
  {
  }

  /** A header that does not start with `Bearer` is rejected with 400 and
      nothing is decoded. */
  lemma MissingSchemeRejected<T, E>(value: string, cookie: Option<string>, decode: Decoder<T, E>)
    requires !(AUTH_HEADER_SCHEME <= value)
    ensures FromRequest(Some(value), cookie, decode) == Returned(Failure(BadRequest, InvalidHeaderFormat))
  {
  }

  /** After `Bearer` only leading whitespace is removed, and none is required:
      `"Bearer " + t` and `"Bearer" + t` both decode `t` when `t` does not
      start with whitespace. */
  lemma BearerStripped<T, E>(t: string, spaces: string, cookie: Option<string>, decode: Decoder<T, E>)
    requires forall i :: 0 <= i < |spaces| ==> IsWhitespace(spaces[i])
    requires t == [] || !IsWhitespace(t[0])
    ensures FromRequest(Some(AUTH_HEADER_SCHEME + spaces + t), cookie, decode) == Bind(decode(t))
  {
    var value := AUTH_HEADER_SCHEME + spaces + t;
    assert AUTH_HEADER_SCHEME <= value;
    assert value[|AUTH_HEADER_SCHEME|..] == spaces + t;
    TrimStartPrefix(spaces, t);
  }

  lemma {:induction false} TrimStartPrefix(spaces: string, t: string)
    requires forall i :: 0 <= i < |spaces| ==> IsWhitespace(spaces[i])
    requires t == [] || !IsWhitespace(t[0])
    ensures TrimStart(spaces + t) == t
    decreases |spaces|
  {
    if spaces == [] {
      assert spaces + t == t;
    } else {
      assert (spaces + t)[1..] == spaces[1..] + t;
      TrimStartPrefix(spaces[1..], t);
    }
  }

  /** `BearerXYZ` yields the token `XYZ`. */
  lemma BearerWithoutSpace<T, E>(cookie: Option<string>, decode: Decoder<T, E>)
    ensures FromRequest(Some("BearerXYZ"), cookie, decode) == Bind(decode("XYZ"))
  {
    BearerStripped("XYZ", "", cookie, decode);
    assert AUTH_HEADER_SCHEME + "" + "XYZ" == "BearerXYZ";
  }

  /** Without a header, the cookie value is decoded unchanged. */
  lemma CookieDecodedAsIs<T, E>(value: string, decode: Decoder<T, E>)
    ensures FromRequest(None, Some(value), decode) == Bind(decode(value))
  {
  }

  /** With the codec's own decoder, a token whose signature does not verify
      is answered with 400 `BadToken(InvalidSignature)`, not with 401. */
  lemma BadSignatureIsBadRequest<T, E>(reader: Codec.TokenReader<T, E>, verify: Codec.Verifier,
                                       chacha: Keystream.Generator, engine: Codec.Base64Engine,
                                       cookie: string)
    requires engine.decode(cookie).Some? && |engine.decode(cookie).value| >= 4
    requires var wire := engine.decode(cookie).value;
             var total := Bytes.WrappingAdd(Codec.VisibleSize(wire), Codec.OpaqueSize(wire));
             && 4 + total <= |wire|
             && !verify(wire[4..4 + total], wire[4 + total..])
    ensures FromRequest(None, Some(cookie), s => Codec.Decode(reader, s, verify, chacha, engine))
            == Returned(Failure(BadRequest, BadToken(Codec.DecodeTokenError.InvalidSignature)))
  {
    Codec.SignatureCheckedFirst(reader, cookie, verify, chacha, engine);
  }
}

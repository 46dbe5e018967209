/** The authorization header providers (auth_headers.go): a fixed Basic
    header built from client id and secret, and an OAuth Bearer header that
    is served from the token store or fetched from the token endpoint. The
    HTTP exchange is a parameter: the provider sees only its outcome. */
module AuthHeaders {
  import opened Wrappers
  import opened Bytes
  import opened Text
  import Base64
  import Utf8
  import C = Classifier
  import TS = TokenStore

  // ===========================================================================
  // Basic authentication
  // ===========================================================================

  /** `BasicAuthHeader`. */
  datatype BasicAuthHeader = BasicAuthHeader(clientId: string, clientSecret: string)

  const BasicPrefix := "Basic "

  /** `NewBasicAuthHeader` as the source writes it: the client id is stored
      in the secret field too, and the secret given is dropped. */
  function NewBasicAuthHeaderAsWritten(clientId: string, clientSecret: string): (h: BasicAuthHeader)
    ensures h.clientId == clientId && h.clientSecret == clientId
  {
    BasicAuthHeader(clientId, clientId)
  }

  /** `NewBasicAuthHeader` as its documentation and its test intend it:
      both credentials are kept. */
  function NewBasicAuthHeader(clientId: string, clientSecret: string): (h: BasicAuthHeader)
    ensures h.clientId == clientId && h.clientSecret == clientSecret
  {
    BasicAuthHeader(clientId, clientSecret)
  }

  /** The bytes Basic authentication encodes: "id:secret" as UTF-8. */
  function Credentials(h: BasicAuthHeader): seq<Byte>
  {
    Utf8.Encode(h.clientId + ":" + h.clientSecret)
  }

  /** `BasicAuthHeader.AuthHeaders`: "Basic " and the padded standard Base64
      of "id:secret". It never fails; the Base64 part decodes back to the
      credentials. */
  function BasicAuthHeaders(h: BasicAuthHeader): (r: Result<string, C.ResponseError>)
    ensures r.Success?
    ensures DropPrefix(r.value, BasicPrefix).Some?
    ensures Base64.Decode(DropPrefix(r.value, BasicPrefix).value) == Some(Credentials(h))
  {
    var encoded := Base64.Encode(Credentials(h));
    DropPrefixOf(BasicPrefix, encoded);
    Base64.DecodeEncode(Credentials(h));
    Success(BasicPrefix + encoded)
  }

  /** Reads the credentials back out of a Basic header: the text before the
      first ':' is the id, everything after it the secret. */
  function ParseBasic(header: string): Option<(string, string)>
  {
    match DropPrefix(header, BasicPrefix)
    case None => None
    case Some(encoded) =>
      match Base64.Decode(encoded)
      case None => None
      case Some(bytes) =>
        match Utf8.Decode(bytes)
        case None => None
        case Some(text) => SplitAtFirst(text, ':')
  }

  /** A client id without ':' and both credentials survive the header. */
  lemma BasicAuthHeadersRoundTrip(clientId: string, clientSecret: string)
    requires ':' !in clientId
    ensures ParseBasic(BasicAuthHeaders(NewBasicAuthHeader(clientId, clientSecret)).value)
         == Some((clientId, clientSecret))
  {
    var h := NewBasicAuthHeader(clientId, clientSecret);
    Utf8.DecodeEncode(clientId + ":" + clientSecret);
    SplitAtFirstOf(clientId, ':', clientSecret);
  }

  /** Two headers are equal exactly when their "id:secret" texts are. */
  lemma BasicAuthHeadersInjective(h1: BasicAuthHeader, h2: BasicAuthHeader)
    ensures BasicAuthHeaders(h1) == BasicAuthHeaders(h2)
        <==> h1.clientId + ":" + h1.clientSecret == h2.clientId + ":" + h2.clientSecret
  {
    if BasicAuthHeaders(h1) == BasicAuthHeaders(h2) {
      Utf8.EncodeInjective(h1.clientId + ":" + h1.clientSecret, h2.clientId + ":" + h2.clientSecret);
    }
  }

  /** As written, the secret passed to the constructor has no effect. */
  lemma AsWrittenIgnoresSecret(clientId: string, s1: string, s2: string)
    ensures BasicAuthHeaders(NewBasicAuthHeaderAsWritten(clientId, s1))
         == BasicAuthHeaders(NewBasicAuthHeaderAsWritten(clientId, s2))
  {
  }

  /** As written, the header differs from the intended one for every secret
      other than the id itself. */
  lemma AsWrittenDiffers(clientId: string, clientSecret: string)
    requires clientSecret != clientId
    ensures BasicAuthHeaders(NewBasicAuthHeaderAsWritten(clientId, clientSecret))
         != BasicAuthHeaders(NewBasicAuthHeader(clientId, clientSecret))
  {
    var asWritten := NewBasicAuthHeaderAsWritten(clientId, clientSecret);
    var intended := NewBasicAuthHeader(clientId, clientSecret);
    var a, b := clientId + ":" + clientId, clientId + ":" + clientSecret;
    assert a != b by {
      assert a[|clientId| + 1..] == clientId;
      assert b[|clientId| + 1..] == clientSecret;
    }
    BasicAuthHeadersInjective(asWritten, intended);
  }

  /** The credentials of auth_headers_test.go: as written, the header carries
      "testClientID:testClientID"; the test expects the intended
      "testClientID:testClientSecret". */
  lemma BasicTestCredentials()
    ensures ParseBasic(BasicAuthHeaders(NewBasicAuthHeaderAsWritten("testClientID", "testClientSecret")).value)
         == Some(("testClientID", "testClientID"))
    ensures ParseBasic(BasicAuthHeaders(NewBasicAuthHeader("testClientID", "testClientSecret")).value)
         == Some(("testClientID", "testClientSecret"))
  {
    BasicAuthHeadersRoundTrip("testClientID", "testClientID");
    BasicAuthHeadersRoundTrip("testClientID", "testClientSecret");
  }

  /** The header is the only text of its shape for its credentials: any
      "Basic " text whose Base64 part decodes to them is this header. */
  lemma BasicAuthHeadersCanonical(h: BasicAuthHeader, header: string)
    requires DropPrefix(header, BasicPrefix).Some?
    requires Base64.Decode(DropPrefix(header, BasicPrefix).value) == Some(Credentials(h))
    ensures header == BasicAuthHeaders(h).value
  {
    var encoded := DropPrefix(header, BasicPrefix).value;
    Base64.EncodeDecode(encoded, Credentials(h));
    assert header == header[..|BasicPrefix|] + encoded;
  }

  // ===========================================================================
  // OAuth
  // ===========================================================================

  /** What the exchange with the token endpoint came to. The request is
      built, sent and read in that order; the first step that fails ends
      the exchange. A completed exchange carries the status, the body and
      what `json.Unmarshal` made of the body (a token, or its error text). */
  datatype FetchOutcome =
    | RequestBuildFailed(err: string)
    | TransportFailed(err: string)
    | BodyReadFailed(err: string)
    | Completed(statusCode: int, body: string, decoded: Result<TS.Token, string>)

  /** The result of one `AuthHeaders` call and the store after it. */
  datatype OAuthStep = OAuthStep(header: Result<string, C.ResponseError>, store: TS.MemoryTokenStore)

  const BearerPrefix := "Bearer "
  const BuildRequestErrorText := "error while trying to create an HTTP request: "
  const TransportErrorText := "error while trying to make request: "
  const ReadBodyErrorText := "error while trying to read body response into memory: "
  const UnmarshalErrorText := "error while Unmarshal json response. Error: "

  /** The retry test written out inline for a non-2xx token response. */
  predicate InlineRetryable(statusCode: int)
  {
    C.StatusRequestTimeout == statusCode || C.StatusTooManyRequests == statusCode
    || C.StatusInternalServerError == statusCode || C.StatusServiceUnavailable == statusCode
  }

  /** The inline test is errors.go's `isRetryableStatusCode`. */
  lemma InlineRetryableAgrees(statusCode: int)
    ensures InlineRetryable(statusCode) <==> C.IsRetryableStatusCode(statusCode)
  {
  }

  predicate Is2xx(statusCode: int)
  {
    200 <= statusCode <= 299
  }

  /** `OAuthHeader.AuthHeaders`. The store is consulted at `checkTime`; a
      valid token is served as "Bearer <access token>" without any exchange.
      Otherwise the exchange's outcome decides: every failure becomes a
      `responseError`, retryable only for a non-2xx status errors.go would
      retry, and only a decoded 2xx response updates the store, at
      `updateTime`. */
  function OAuthHeaders(store: TS.MemoryTokenStore, checkTime: int, updateTime: int, fetch: FetchOutcome): (r: OAuthStep)
    ensures TS.Lookup(store, checkTime).0 ==>
      r == OAuthStep(Success(BearerPrefix + store.token.value.accessToken), store)
    ensures !TS.Lookup(store, checkTime).0 && fetch.Completed? && Is2xx(fetch.statusCode) && fetch.decoded.Success? ==>
      r == OAuthStep(Success(BearerPrefix + fetch.decoded.value.accessToken),
                     TS.Update(store, fetch.decoded.value, updateTime))
    ensures !TS.Lookup(store, checkTime).0 && fetch.Completed? && !Is2xx(fetch.statusCode) ==>
      r.store == store && r.header.Failure?
      && r.header.error.isTemporary == C.IsRetryableStatusCode(fetch.statusCode)
    ensures !TS.Lookup(store, checkTime).0 && !(fetch.Completed? && Is2xx(fetch.statusCode) && fetch.decoded.Success?) ==>
      r.header.Failure? && r.store == store
    ensures !TS.Lookup(store, checkTime).0 && fetch.RequestBuildFailed? ==>
      r.header == Failure(C.ResponseError(false, BuildRequestErrorText + fetch.err))
    ensures !TS.Lookup(store, checkTime).0 && fetch.TransportFailed? ==>
      r.header == Failure(C.ResponseError(false, TransportErrorText + fetch.err))
    ensures !TS.Lookup(store, checkTime).0 && fetch.BodyReadFailed? ==>
      r.header == Failure(C.ResponseError(false, ReadBodyErrorText + fetch.err))
    ensures !TS.Lookup(store, checkTime).0 && fetch.Completed? && Is2xx(fetch.statusCode) && fetch.decoded.Failure? ==>
      r.header == Failure(C.ResponseError(false, UnmarshalErrorText + fetch.decoded.error + ". JSON: " + fetch.body))
    ensures r.header.Failure? ==> r.store == store
    ensures r.header.Failure? && r.header.error.isTemporary ==>
      fetch.Completed? && !Is2xx(fetch.statusCode) && C.IsRetryableStatusCode(fetch.statusCode)
  {
    var (isValid, token) := TS.Lookup(store, checkTime);
    if isValid then OAuthStep(Success(BearerPrefix + token.value.accessToken), store)
    else
      match fetch
      case RequestBuildFailed(err) =>
        OAuthStep(Failure(C.ResponseError(false, BuildRequestErrorText + err)), store)
      case TransportFailed(err) =>
        OAuthStep(Failure(C.ResponseError(false, TransportErrorText + err)), store)
      case BodyReadFailed(err) =>
        OAuthStep(Failure(C.ResponseError(false, ReadBodyErrorText + err)), store)
      case Completed(statusCode, body, decoded) =>
        if statusCode < 200 || statusCode > 299 then
          InlineRetryableAgrees(statusCode);
          OAuthStep(Failure(C.ResponseError(InlineRetryable(statusCode), ReadBodyErrorText + "<nil> - data: " + body)), store)
        else
          match decoded
          case Failure(err) =>
            OAuthStep(Failure(C.ResponseError(false, UnmarshalErrorText + err + ". JSON: " + body)), store)
          case Success(t) =>
            OAuthStep(Success(BearerPrefix + t.accessToken), TS.Update(store, t, updateTime))
  }

  /** A served header carries the access token, recoverable after "Bearer ". */
  lemma OAuthHeaderCarriesToken(store: TS.MemoryTokenStore, checkTime: int, updateTime: int, fetch: FetchOutcome)
    ensures var r := OAuthHeaders(store, checkTime, updateTime, fetch);
      r.header.Success? ==>
        exists t: TS.Token | r.store.token == Some(t) :: DropPrefix(r.header.value, BearerPrefix) == Some(t.accessToken)
  {
    var r := OAuthHeaders(store, checkTime, updateTime, fetch);
    if r.header.Success? {
      var t := r.store.token.value;
      DropPrefixOf(BearerPrefix, t.accessToken);
    }
  }

  /** A cache hit does not depend on the exchange at all: no request is made. */
  lemma CacheHitIgnoresFetch(store: TS.MemoryTokenStore, checkTime: int, u1: int, u2: int, f1: FetchOutcome, f2: FetchOutcome)
    requires TS.Lookup(store, checkTime).0
    ensures OAuthHeaders(store, checkTime, u1, f1) == OAuthHeaders(store, checkTime, u2, f2)
  {
  }

  /** The error of a non-2xx response quotes a nil error and the body. */
  lemma Non2xxMessage(store: TS.MemoryTokenStore, checkTime: int, updateTime: int, statusCode: int, body: string,
                      decoded: Result<TS.Token, string>)
    requires !TS.Lookup(store, checkTime).0 && !Is2xx(statusCode)
    ensures OAuthHeaders(store, checkTime, updateTime, Completed(statusCode, body, decoded)).header.error.message
         == ReadBodyErrorText + "<nil> - data: " + body
  {
  }

  /** A token fetched with a lifetime that fits in a Duration, negative ones
      included, is served from the store by every later call up to its
      expiration, with the same header and no exchange. */
  lemma FetchedTokenIsCached(store: TS.MemoryTokenStore, checkTime: int, updateTime: int, statusCode: int,
                             body: string, t: TS.Token, later: int, again: FetchOutcome, laterUpdate: int)
    requires !TS.Lookup(store, checkTime).0 && Is2xx(statusCode)
    requires -TS.MaxSeconds <= t.expiresIn <= TS.MaxSeconds && later <= updateTime + t.expiresIn * TS.Second
    ensures var first := OAuthHeaders(store, checkTime, updateTime, Completed(statusCode, body, Success(t)));
      var second := OAuthHeaders(first.store, later, laterUpdate, again);
      second.header == first.header && second.store == first.store
  {
    TS.UpdateThenLookup(store, t, updateTime, later);
  }

  /** The failing exchange of auth_headers_test.go: a 401 with a JSON body
      is not retried and is reported with its body. */
  lemma TokenFailsExample(body: string)
    ensures var r := OAuthHeaders(TS.EmptyStore, 0, 0, Completed(401, body, Failure("")));
      r.header.Failure? && !r.header.error.isTemporary
      && r.header.error.message == ReadBodyErrorText + "<nil> - data: " + body
      && r.store == TS.EmptyStore
  {
  }
}

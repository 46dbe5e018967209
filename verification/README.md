# A verified model of the zuora Go client core

This project models in Dafny the parts of the `hyeomans/zuora` Go client that hold logic of their own, apart from HTTP plumbing:

- **Error classifier of the root package** (`errors.go`). A Zuora error response carries a list of reasons. Each reason has a numeric code whose last two digits, taken with Go's truncating `%`, name a category. The classifier maps the set of categories to one HTTP-like status by a fixed precedence: 70 → 429, 11 → 401, 10 → 403, 40 → 404, 50 → 423, 60 → 500, and 400 otherwise. From that status it decides retryability and renders the error text.
- **Second classifier of the `errors` package** (`valid_request.go`, `invalid_request.go`, `request_handler.go`, `bad_request.go`). It uses the same precedence, but differs in three ways:
  - with no reasons it falls back to the carried status, not to 400;
  - its retryable sets differ;
  - it has canned messages for 401 and 404.
- **ZOQL query composer** (`zoql_composer.go`). A record with a table, fields, one filter, an and-list and an or-list is set through functional options. `Build` renders it into a JSON envelope through `fmt.Sprintf`.
- **In-memory OAuth token store** (`memory_token_store.go`). One cell holds a token and its expiry instant; the clock is a parameter.
- **Auth header providers** (`auth_headers.go`):
  - Basic: "Basic " followed by the Base64 of `id:secret`, per section 4 of RFC 4648. The bytes encoded are the UTF-8 encoding of the text, which is what `[]byte(s)` gives for a Go string holding valid UTF-8 (strings here are sequences of Unicode scalar values; see Left out);
  - OAuth: a cache hit, or else fetch, classify and store. The fetch is an abstract outcome.
- **Struct-text generator** (`describe.go`). It covers `getType` and the emission loops of `Model` and `ModelNonCustom`, run over an already-parsed field list.

The modules are:

- `Wrappers`: Option and Result.
- `Text`: join, ASCII lower-casing, decimal formatting and parsing, prefix splitting.
- `Bytes` and `Utf8`: the UTF-8 encoding of Go strings.
- `Base64`
- `Classifier`: `errors.go`.
- `RequestErrors`: the `errors` package.
- `Zoql`
- `TokenStore`
- `AuthHeaders`
- `Describe`

Most serialisers are paired with a reader written independently and with a round-trip lemma. The pairs are:

- the Base64 and UTF-8 decoders, in both directions (`Base64.DecodeEncode` and `Base64.EncodeDecode`);
- the ZOQL parser `Zoql.Parse`;
- the struct-text reader `Describe.ParseModel`;
- the Basic header reader `AuthHeaders.ParseBasic`;
- the reader of the `errors` package's valid-request text (`RequestErrors.ValidErrorTextRoundTrip`), which recovers both the status and the message;
- the reader of the invalid-request text (`RequestErrors.InvalidErrorTextStatus`), which recovers the status only.

The texts of errors.go (`Classifier.ErrorText`, `Classifier.TokenErrorText`) and the joined reason message `RequestErrors.GenerateErrorMsg` have no reader. Their contracts state their layout directly: the fixed prefix, the position of the path and the message, and one extension lemma per appended reason.

Each classifier is paired with a precedence table. The two classifier generations are related by agreement and disagreement lemmas.

The source cells below are paths in the Go repository.

## Model

| member | source | states |
|---|---|---|
| Classifier.IsRetryableStatusCode | errors.go:22-27 | True exactly for 408, 429, 500 and 503. |
| Classifier.GoRem | errors.go:108 | Go's `%` on `int`: `a == q*m + r`, the remainder has the sign of the dividend, and its magnitude is below the modulus. |
| Classifier.CategoryList | errors.go:105-110 | One category per reason, in input order: the truncated remainder of the code by 100. |
| Classifier.Record | errors.go:119-134 | One switch step: a flag is set exactly when it was set already or the category is its constant (70, 10, 11, 40, 50 or 60). |
| Classifier.Scan | errors.go:112-135 | After the loop over the categories, each flag is set if and only if its category occurs in the list. |
| Classifier.GetStatus | errors.go:100-152 | With no reasons the status is 400. Any result lies in {400, 401, 403, 404, 423, 429, 500}. |
| Classifier.PrecedenceUnfolded | errors.go:137-151 | The precedence table, read top down, is the cascade: 70 → 429, then 11 → 401, 10 → 403, 40 → 404, 50 → 423, 60 → 500, else 400. |
| Classifier.CategoryListElements | errors.go:105-110 | A category occurs in the per-reason list exactly when it is in the category set. |
| Classifier.GetStatusFollowsPrecedence | errors.go:100-152 | For a non-empty reason list, the status is the precedence table applied to the set of categories. |
| Classifier.GetStatusDependsOnlyOnCategories | errors.go:105-151 | Two non-empty reason lists with the same category set get the same status. |
| Classifier.GetStatusOrderIndependent | errors.go:100-152 | Reordering the reasons, or any permutation of the list, leaves the status unchanged. |
| Classifier.NegativeCodeHasNoCategory | errors.go:108 | A negative code has a non-positive category, so it never matches any of the six categories. |
| Classifier.UnlistedReasonChangesNothing | errors.go:119-151 | Appending a reason whose category is none of the six leaves a non-empty list's status unchanged. |
| Classifier.Temporary | errors.go:81-83 | An error response is retryable if and only if its status is 429 or 500. A 423 lock contention is not retryable on this path. |
| Classifier.ReasonLines | errors.go:90-95 | One line per reason, in input order, with the line's index being the reason's position. |
| Classifier.ErrorText | errors.go:85-98 | With no reasons, the fixed sentence. Otherwise the reasons prefix, then the reason lines joined by " -- ". |
| Classifier.ReasonLinesExtend | errors.go:90-97 | Appending a reason appends " -- " and that reason's line, numbered with the old length, to the joined text. |
| Classifier.TokenErrorTemporary | errors.go:162-164 | A token error is never temporary. |
| Classifier.TokenErrorText | errors.go:166-168 | A token error's text begins with the fixed prefix followed by the path, and ends with the message. |
| RequestErrors.Rank | errors/valid_request.go:139-153 | Each category's precedence rank lies between 0 and 6. |
| RequestErrors.MaxRank | errors/valid_request.go:121-137 | The highest rank over the reasons is an upper bound of every reason's rank. When it is positive, some reason attains it. |
| RequestErrors.GenerateStatus | errors/valid_request.go:102-154 | With no reasons, the carried status is returned unchanged. Otherwise the result is one of the seven classified statuses. |
| RequestErrors.TopRankIsPrecedence | errors/valid_request.go:139-153 | The status of the highest rank present equals the precedence table of errors.go on the same set of categories. |
| RequestErrors.GenerateStatusAgreesWithGetStatus | errors/valid_request.go:107-153 | For non-empty reasons, the second classifier agrees with `getStatus` of errors.go. |
| RequestErrors.EmptyReasonsDiverge | errors/valid_request.go:103-105 | With no reasons and a carried status other than 400, the two classifiers disagree. |
| RequestErrors.ValidReasonLines | errors/valid_request.go:95-97 | One "code: c message: m" line per reason, in order, with the message lower-cased. |
| RequestErrors.GenerateErrorMsg | errors/valid_request.go:88-91 | With no reasons, the carried message is returned unchanged. |
| RequestErrors.GenerateErrorMsgExtend | errors/valid_request.go:93-99 | Appending a reason appends " \|\| " and that reason's line to the joined message. |
| RequestErrors.GenerateErrorMsgIgnoresCase | errors/valid_request.go:96 | Lower-casing the reason messages beforehand leaves the result unchanged. |
| RequestErrors.NewValidRequestError | errors/valid_request.go:27-32 | Without reasons, the record's own message and status are carried over unchanged. With reasons, the status is the one errors.go's `getStatus` gives, hence one of the seven classified statuses, and the message is every reason's line in order, joined by " \|\| ". |
| RequestErrors.TemporaryDiffersOnlyOnLocked | errors/valid_request.go:38-45 | For non-empty reasons, errors.go's Temporary holds exactly when this package's Temporary holds and the status is not 423. |
| RequestErrors.RetrySetsDisagree | errors/valid_request.go:38-45 | `isRetryableStatusCode` and `ValidRequestError.Temporary` disagree exactly on 408, 423 and 503. |
| RequestErrors.ValidErrorTextRoundTrip | errors/valid_request.go:34-36 | The status and the message can be read back from "zuora returned an error (status: S): M". |
| RequestErrors.InvalidErrorDetailsJoin | errors/invalid_request.go:35-44 | There are no detail parts exactly when path and timestamp are both empty. Otherwise " " plus the details joined by " " is the path part followed by the timestamp part. |
| RequestErrors.InvalidErrorText | errors/invalid_request.go:34-47 | The text is the prefix, the status, " message: " and the error. It is followed by " path: P" when the path is set, then " timestamp: T" when the timestamp is set, path first. |
| RequestErrors.InvalidErrorTextStatus | errors/invalid_request.go:44-46 | The status can be read back from the text, whatever the path, timestamp and error hold. |
| RequestErrors.InvalidTextNoDetails | errors/invalid_request.go:46 | With empty path and timestamp, the text is exactly "zuora returned error - statusCode: S message: E". |
| RequestErrors.InvalidResponse | errors/request_handler.go:10-29 | The result depends on the decode outcome. An undecodable body gives the call's status with the raw body. A decoded non-empty error is kept unchanged. A decoded empty error gives "Authentication error" on 401, "object not found" on 404, and the raw body otherwise. |
| RequestErrors.InvalidResponseTemporary | errors/invalid_request.go:26-32 | The result is temporary if and only if its effective status is 429. That is the decoded status when the decoded error is non-empty, and the call's status otherwise. |
| RequestErrors.ValidRequestErrorOf | errors/request_handler.go:31-41 | Always a valid-request error. On a successful decode it is exactly `newValidRequestError` of the decoded record. |
| RequestErrors.ValidRequestErrorOfUndecodable | errors/request_handler.go:34-38 | A decode failure with no reasons decoded so far gives the call's status and the decoder's message. |
| RequestErrors.ValidRequestErrorOfPartialReasons | errors/request_handler.go:34-38 | A decode failure after some reasons were decoded reports the precedence status of those reasons, not the call's status. |
| RequestErrors.ValidRequestErrorOfIgnoresStatus | errors/request_handler.go:40 | On a successful decode, the call's status has no influence. |
| RequestErrors.BadRequestOf | errors/request_handler.go:43-45 | The wrapped error is never temporary. Its text is the wrapped error's text, or "<nil>" for a nil error. |
| RequestErrors.PlainErrorExample | errors/request_handler_test.go:61 | A plain-text body with status 400 gives "zuora returned an error (status: 400): " plus the decoder's message, and is not temporary. |
| RequestErrors.RateLimitTakesPriorityExample | errors/request_handler_test.go:63 | Reasons 53100020 and 53100370 under HTTP 400 give status 429 and a temporary error, whatever their messages. |
| RequestErrors.InvalidResponsePlainExample | errors/request_handler_test.go:18 | An undecodable "plain error" body with 400 gives "zuora returned error - statusCode: 400 message: plain error". |
| RequestErrors.InvalidResponseUnauthorizedExample | errors/request_handler_test.go:19 | A decoded body without an error field under 401 gives the "Authentication error" text. |
| RequestErrors.InvalidResponseNotFoundExample | errors/request_handler_test.go:21 | A decoded body without an error field under 404 gives the "object not found" text. |
| Zoql.Apply | zoql_composer.go:43-61 | Each option overwrites exactly its own filter field. Table, fields and the other two filter fields are unchanged. |
| Zoql.ApplyLastWins | zoql_composer.go:43-61 | Two options of the same kind: the second one alone decides. |
| Zoql.ApplyCommutes | zoql_composer.go:43-61 | Two options of different kinds commute. |
| Zoql.ApplyAllSnoc | zoql_composer.go:35-37 | Options are applied left to right. |
| Zoql.ApplyAllLastWins | zoql_composer.go:35-37 | Each filter field holds the value of the last option of its kind, or its previous value if there is none. |
| Zoql.NewZoqlComposerFields | zoql_composer.go:28-40 | The composer holds the given table and fields, and each filter field holds its last option's value or the zero value. |
| Zoql.AndBeforeOr | zoql_composer.go:72-80 | The order in which the and- and or-options are given does not change the composer. |
| Zoql.FormatLiteral | zoql_composer.go:83 | `Sprintf` copies text that holds no '%' unchanged. |
| Zoql.FormatVerb | zoql_composer.go:83 | A "%v" consumes the next operand and is replaced by it. |
| Zoql.FormatAll | zoql_composer.go:83 | A format string without '%' and without operands is returned unchanged. |
| Zoql.FormatTwoVerbs | zoql_composer.go:64-84 | A template of the form head %v mid %v rest, with head and mid free of '%', gets the two operands substituted in order. The rest is formatted without operands. |
| Zoql.BuildIntended | zoql_composer.go:64-93 | The query text the composer is meant to produce: the ZOQL parser reads the composer back from it, up to the normal form, whenever the composer is well formed. |
| Zoql.BuildWhenSafe | zoql_composer.go:66-83 | When no filter text holds '%', formatting the assembled buffer yields the intended text. |
| Zoql.Build | zoql_composer.go:64-84 | `Build` formats the assembled buffer with the joined fields and the table. When no filter text holds '%', the result is the intended text. |
| Zoql.String | zoql_composer.go:95-97 | `String` is `Build`. A well-formed, '%'-free composer is read back from it by the parser. |
| Zoql.ParseSegmentsOf | zoql_composer.go:86-93 | The filters rendered by `buildFilter` with a separator are read back in order. |
| Zoql.ParseFieldsOf | zoql_composer.go:83 | The fields joined by ", " are read back in order. |
| Zoql.ParseWhereOf | zoql_composer.go:68-70 | " where K = 'V'" is read back as the filter. An empty key emits nothing and reads back as the zero filter. |
| Zoql.ParseConditionsOf | zoql_composer.go:68-82 | The where clause, then all and-segments, then all or-segments, are read back as the normalised filter, the and-list and the or-list. |
| Zoql.BuildParse | zoql_composer.go:64-84 | The parser reads the intended query text back to the normalised composer. |
| Zoql.BuildNormalize | zoql_composer.go:68 | A filter with an empty key renders like the zero filter, so normalising changes neither the built nor the intended text. |
| Zoql.BuildInjective | zoql_composer.go:64-93 | Two well-formed composers get the same intended text exactly when their normal forms are equal. The same holds for `Build` when both are '%'-free. |
| Zoql.FixedTextHasNoPercent | zoql_composer.go:66-82 | The envelope's fixed text holds no '%' other than its two verbs. |
| Zoql.PercentFreeIsFormatSafe | zoql_composer.go:68-80 | If no filter key or value holds '%', the rendered conditions hold none. |
| Zoql.MissingQuoteDirective | zoql_composer.go:82-83 | `Sprintf` reads "%'" with no operand left as a verb with a missing operand. |
| Zoql.WhereWithPercent | zoql_composer.go:68-70 | A filter value ending in '%' puts "%'" into the format buffer. |
| Zoql.PercentValueAsWritten | zoql_composer.go:68-83 | A filter value ending in '%' makes `Build` emit "%!'(MISSING)" in place of the closing quote, which differs from the intended text. |
| Zoql.PercentValueExample | zoql_composer.go:68-83 | The filter Name = '50%' on Product: `Build` differs from the intended text, and the parser reads the intended text back to the composer. |
| Zoql.ProductQuery | zoql_composer_test.go:10-21 | For the Product table with fields ID and Name and no '%' in the filters, `Build` is the envelope around "select ID, Name from Product" plus the conditions. |
| Zoql.ComposerWithNoFiltersExample | zoql_composer_test.go:10-21 | With no options, the query is `select ID, Name from Product` with no conditions. |
| Zoql.ComposerWithSingleFilterExample | zoql_composer_test.go:23-37 | A single filter appends " where Name = 'productName'". |
| Zoql.ComposerWithOrFilterExample | zoql_composer_test.go:39-57 | A filter plus an or-list appends the where clause, then " or Name = 'productName'". |
| Zoql.ComposerWithAndFilterExample | zoql_composer_test.go:59-77 | A filter plus an and-list appends the where clause, then " and Name = 'productName'". |
| TokenStore.Wrap64 | memory_token_store.go:34 | The int64 wrap-around is the identity inside the int64 range and is congruent to its argument modulo 2^64. |
| TokenStore.Lookup | memory_token_store.go:17-28 | A token is handed out exactly when one is stored and the clock is not after its expiration. What is handed out is the stored token, and nothing is handed out otherwise. |
| TokenStore.Update | memory_token_store.go:31-36 | The stored token is replaced. For any lifetime, positive or negative, whose nanosecond count fits in an int64 Duration, the expiry is now plus the lifetime in seconds. |
| TokenStore.EmptyStoreLookup | memory_token_store.go:20-27 | A fresh store hands out nothing. |
| TokenStore.UpdateForgets | memory_token_store.go:31-36 | The state after an update does not depend on the previous state. |
| TokenStore.UpdateThenLookup | memory_token_store.go:21-34 | After an update with any lifetime that does not wrap, negative ones included, the token is handed out up to and including now plus its lifetime, and not after. |
| TokenStore.ExpiredLookup | memory_token_store.go:21-27 | Past its expiration, nothing is handed out. |
| TokenStore.NegativeLifetimeNeverValid | memory_token_store.go:34 | A negative lifetime is never valid at or after the update time. |
| TokenStore.HugeLifetimeWraps | memory_token_store.go:34 | A lifetime one second beyond the Duration range wraps to a past expiry, so the token is never handed out. |
| Utf8.EncodeChar | auth_headers.go:54 | A scalar value encodes to one to four bytes. The lead byte announces the length, and every further byte is a continuation byte. |
| Utf8.DecodeEncodeChar | auth_headers.go:54 | One encoded character decodes back. |
| Utf8.DecodeEncode | auth_headers.go:54 | A string's UTF-8 bytes decode back to the string. |
| Utf8.EncodeDecode | auth_headers.go:54 | Bytes that decode are the encoding of what they decode to. |
| Utf8.EncodeInjective | auth_headers.go:54 | Distinct strings have distinct UTF-8 encodings. |
| Base64.CharOf | auth_headers.go:54 | A 6-bit value never maps to the padding character. |
| Base64.CharOfIsAlphabet | auth_headers.go:54 | A 6-bit value maps to its position in the standard alphabet A–Z, a–z, 0–9, '+', '/'. |
| Base64.ValueOfCharOf | auth_headers.go:54 | The alphabet's reverse lookup inverts the mapping. |
| Base64.Encode | auth_headers.go:54 | The encoded length is four characters per started group of three bytes, padding included. |
| Base64.DecodeEncodeTriple | auth_headers.go:54 | A full group of three bytes decodes back. |
| Base64.DecodeEncodeSingle | auth_headers.go:54 | A final single byte, padded with "==", decodes back. |
| Base64.DecodeEncodePair | auth_headers.go:54 | A final pair of bytes, padded with "=", decodes back. |
| Base64.DecodeEncode | auth_headers.go:54 | Any byte string decodes back from its padded standard encoding. |
| Base64.EncodeDecode | auth_headers.go:54 | Every text the decoder accepts is the encoding of the bytes it decodes to, so each byte string has exactly one Base64 text. |
| Base64.EncodeInjective | auth_headers.go:54 | Distinct byte strings have distinct encodings. |
| AuthHeaders.NewBasicAuthHeaderAsWritten | auth_headers.go:46-48 | The constructor as written stores the client id in both fields. |
| AuthHeaders.NewBasicAuthHeader | auth_headers.go:45-48 | The corrected constructor stores the id and the secret. |
| AuthHeaders.BasicAuthHeaders | auth_headers.go:52-55 | The Basic header never fails. It is "Basic " followed by the Base64 of the UTF-8 bytes of "id:secret". |
| AuthHeaders.BasicAuthHeadersRoundTrip | auth_headers.go:52-55 | With a ':'-free id, the corrected header decodes back to the id and the secret. |
| AuthHeaders.BasicAuthHeadersCanonical | auth_headers.go:52-55 | Any "Basic " text whose Base64 part decodes to the credentials' bytes is exactly the header built from them. |
| AuthHeaders.BasicAuthHeadersInjective | auth_headers.go:52-55 | Two Basic headers are equal exactly when their "id:secret" texts are equal. |
| AuthHeaders.AsWrittenIgnoresSecret | auth_headers.go:46-48 | As written, the header does not depend on the secret. |
| AuthHeaders.AsWrittenDiffers | auth_headers.go:46-55 | As written, the header differs from the corrected one whenever the secret differs from the id. |
| AuthHeaders.BasicTestCredentials | auth_headers_test.go:10-21 | As written, the test credentials decode to testClientID:testClientID. The corrected constructor gives testClientID:testClientSecret, which is what the test expects. |
| AuthHeaders.InlineRetryableAgrees | auth_headers.go:123-128 | The inline retryable check is `isRetryableStatusCode`: 408, 429, 500 or 503. |
| AuthHeaders.OAuthHeaders | auth_headers.go:79-142 | A valid cached token gives "Bearer " plus its access token, with the store unchanged and the fetch ignored. A 2xx fetch that decodes stores the token and returns its bearer header. A non-2xx fetch fails, temporary exactly for a retryable status. A request-build, transport or body-read failure, and a 2xx body that does not decode, each fail with a non-temporary error whose message is the matching fixed prefix followed by the underlying error text (and ". JSON: " and the body for a decode failure). Every failure leaves the store unchanged. Only a non-2xx retryable status gives a temporary failure. |
| AuthHeaders.OAuthHeaderCarriesToken | auth_headers.go:80-141 | A successful header is "Bearer " plus the access token of the token the store then holds. |
| AuthHeaders.CacheHitIgnoresFetch | auth_headers.go:80-84 | On a cache hit, the fetch outcome and the update instant have no influence. |
| AuthHeaders.Non2xxMessage | auth_headers.go:121-131 | A non-2xx failure's message is the read-body text, "<nil> - data: ", and the body. |
| AuthHeaders.FetchedTokenIsCached | auth_headers.go:80-141 | After a successful fetch with any lifetime that does not wrap, a second call within the lifetime returns the same header from the cache, whatever its fetch would be. |
| AuthHeaders.TokenFailsExample | auth_headers_test.go:79-96 | A 401 on an empty store gives a non-temporary failure with the documented message, and the store stays empty. |
| Describe.GetType | describe.go:181-189 | The type is "bool" exactly for "boolean", and "string" for every other input. |
| Describe.TagsDiffer | describe.go:103-107 | The tags of required and optional fields differ: an optional field adds ",omitempty". |
| Describe.Model | describe.go:98-111 | The text is the header line, one line per field in input order, and "}", each ending in a newline. When the names hold no tab or newline, the reader recovers the object name and every field's name, Go type and required flag from it. |
| Describe.ModelNonCustom | describe.go:162-178 | The text is `Model`'s text over the non-custom fields in their original order. For plain names, the reader recovers exactly those fields. |
| Describe.NonCustomMembers | describe.go:165-168 | A field survives the filter exactly when it is in the list and is not custom. |
| Describe.NonCustomAppend | describe.go:164-175 | Filtering distributes over concatenation, so the order of the kept fields is preserved. |
| Describe.NonCustomIdentity | describe.go:165-168 | A list without custom fields is unchanged by the filter. |
| Describe.NonCustomIdempotent | describe.go:165-168 | Filtering twice is filtering once. |
| Describe.NoCustomFieldsSameModel | describe.go:98-178 | Without custom fields, `ModelNonCustom` and `Model` emit the same text. |
| Describe.LinesUnlines | describe.go:99-110 | Newline-free lines, each terminated by a newline, split back into the same lines. |
| Describe.ParseHeaderOf | describe.go:99 | The header line "type N struct{" reads back as N. |
| Describe.ParseFieldTextOf | describe.go:102-107 | A field line reads back as its name, Go type and required flag, when the name holds no tab. |
| Describe.ParseFieldTextsOf | describe.go:101-108 | All field lines read back in order. |
| Describe.ModelTextParses | describe.go:98-111 | For names free of tabs and newlines, the emitted text reads back as the object name and its columns. |
| Describe.ModelTextInjective | describe.go:98-111 | For such names, two texts are equal exactly when the object names and the columns are equal. |
| Text.JoinAppend | zoql_composer.go:83 | Joining a list extended by one element appends the separator and that element. |
| Text.ToLower | errors/valid_request.go:96 | Lower-casing keeps the length and maps each character through its lower-case form. |
| Text.ToLowerIdempotent | errors/valid_request.go:96 | Lower-casing twice is lower-casing once. |
| Text.IntToString | errors/valid_request.go:35 | The decimal form is non-empty, made of digits with at most a leading '-'. |
| Text.IntToStringRoundTrip | errors/valid_request.go:35 | The decimal form of any integer that `%v` prints parses back to it. |
| Text.IntToStringInjective | errors/valid_request.go:35 | Distinct integers print differently. |

## Left out

- **HTTP transport, request construction and body reading.** `http.NewRequest`, `Doer.Do`, `ioutil.ReadAll` and `url.Values.Encode` are abstracted into the outcome datatype `FetchOutcome`: a request error, a transport error, a read error, or a completed response with its status, body and decode result. Only their effect on the control flow is modelled.
- **JSON and XML decoding.** `json.Unmarshal` and `xml.Unmarshal` are not modelled. A decode result is a parameter: an `Option`, or `DecodeOutcome`, which keeps the partially filled record Go leaves behind on a type error. The wording of the decoder's error message is a parameter too.
- **Concurrency.** The `sync.RWMutex` of `MemoryTokenStore` is not modelled, and neither is the absence of single-flight on concurrent refreshes: each call is one atomic step.
- **The wall clock.** `time.Now().UTC()` is an integer parameter, in nanoseconds. `time.Time.Add` saturation at the ends of the time line is not modelled; only the int64 wrap-around of `Duration(ExpiresIn) * time.Second` is.
- **Go strings as bytes.** A Go `string` is an arbitrary byte sequence; here a string is a sequence of Unicode scalar values, and `[]byte(s)` is `Utf8.Encode`. A client id, secret or reason message holding invalid UTF-8 therefore cannot be represented, and the Basic header and `strings.ToLower` are modelled only for strings that are valid UTF-8 (auth_headers.go:53-54, errors/valid_request.go:96).
- **Other token stores.** `OAuthHeaders` accepts any `TokenStorer` (auth_headers.go:24-27, 63). The model fixes the store to `TokenStore.MemoryTokenStore`, through `TokenStore.Lookup` and `TokenStore.Update`. `AuthHeaders.FetchedTokenIsCached` and `AuthHeaders.CacheHitIgnoresFetch` therefore hold for the memory store only, not for an arbitrary implementation.
- **Open composer options.** A Go `ZoqlComposerOption` is any `func(*ZoqlComposer)` (zoql_composer.go:25). The model's `Zoql.ComposerOption` is a closed datatype holding the library's three options, `QueryWithFilter`, `QueryWithOrFilter` and `QueryWithAndFilter`. `Zoql.ApplyLastWins`, `Zoql.ApplyAllLastWins` and `Zoql.NewZoqlComposerFields` hold for those options only, not for an arbitrary caller-written function.
- **`strings.ToLower` beyond ASCII.** Only A–Z are lower-cased; Unicode case mapping is not modelled.
- **Zoql.Format.** Only the parts of `fmt.Sprintf` that the envelope can meet are modelled:
  - `%%`;
  - `%v` with an operand;
  - a verb with no operand left;
  - a trailing `%`.

  A `%` followed by a flag, width, precision or argument-index character is copied literally instead of being interpreted. So is a non-`v` verb that still has an operand. The `%!(EXTRA …)` suffix for unused operands is not produced; `Build` always passes exactly two operands, and the template always has two `%v`.
- **Zoql.String, Zoql.Build:** the parse-back guarantee is stated only for composers whose filter texts hold no '%' (see Findings) and that are well formed. Well formed means the table, the fields and the filter keys are non-empty and free of spaces, commas and quotes, and the values hold no single quote, so that the reader can split the text unambiguously.
- The composer example with all three filter kinds (zoql_composer_test.go:79-99) is not restated as its own lemma. `Zoql.ParseConditionsOf` and `Zoql.BuildParse` cover that shape for every composer.
- **Describe's HTTP and XML part.** The `Model` and `ModelNonCustom` request building, token acquisition and XML decoding are left out. The emitters run over an already-decoded object.
- **Per-endpoint services and DTO files.** `accounts.go`, `subscriptions.go`, `api.go` and the other services, and the `*_types.go` files, are request plumbing and data declarations. Their inline retryable checks are textual copies of `isRetryableStatusCode`, modelled once as `Classifier.IsRetryableStatusCode`. `token.go` is entirely commented out.
- **`responseError` of errors.go.** It is modelled as a plain record whose temporary flag and message are set by the OAuth flow.
- **RequestErrors.GenerateErrorMsg:** its contract states only the no-reasons case directly. The non-empty case is stated by `RequestErrors.ValidReasonLines` and `RequestErrors.GenerateErrorMsgExtend`, one reason at a time.
- **Classifier.TokenErrorText:** states the prefix, the path and the trailing message, not where the reason and status sit between them.
- **Describe.FieldTexts, Describe.Columns:** each states only the length. Their contents are stated by `Describe.ParseFieldTextsOf` and `Describe.ModelTextParses`.
- **Integer width.** Go's `int` status codes and reason codes are unbounded integers here. Nothing in the core overflows except the token lifetime, which is modelled with int64 wrap-around.

## Findings

| source | as written | input that shows it | evidently intended | confidence | as-written member | corrected member |
|---|---|---|---|---|---|---|
| auth_headers.go:46-48 | `NewBasicAuthHeader` stores `clientID` in the `clientSecret` field, so the Basic header encodes `id:id` | `NewBasicAuthHeader("testClientID", "testClientSecret")` gives `Basic dGVzdENsaWVudElEOnRlc3RDbGllbnRJRA==`, while the test expects `Basic dGVzdENsaWVudElEOnRlc3RDbGllbnRTZWNyZXQ=` (auth_headers_test.go:13) | store `clientSecret` in the secret field, so that the header encodes `id:secret` | high; not executed | AuthHeaders.AsWrittenDiffers | AuthHeaders.BasicAuthHeadersRoundTrip |
| zoql_composer.go:68-83 | filter keys and values are written into the buffer that is then used as the `Sprintf` format, so a '%' in a filter is read as a formatting directive | `QueryWithFilter(QueryFilter{"Name", "50%"})` on Product: the `%'` becomes `%!'(MISSING)`, giving `... where Name = '50%!'(MISSING)" }` | pass the filter text as an operand or escape it, giving `... where Name = '50%'" }` | high; not executed | Zoql.PercentValueAsWritten | Zoql.BuildIntended |

The first row is also where the documented behaviour and the code differ. The code's behaviour is modelled as `AuthHeaders.NewBasicAuthHeaderAsWritten`. The corrected `AuthHeaders.NewBasicAuthHeader` is the one the round-trip and injectivity lemmas are about, and the test's expectation agrees with it.

/** The second-generation error classifier (the `errors` package): the error
    values the request handler builds from a failed response, their retry
    verdicts and their messages. JSON decoding is not modelled: the handler
    receives the decoder's outcome as a parameter. */
module RequestErrors {
  import opened Wrappers
  import opened Text
  import C = Classifier

  // ===========================================================================
  // errors/valid_request.go
  // ===========================================================================

  /** `jsonValidRequestError`: the decoded body of a failed request with the
      provider's reason list. `message` and `status` are untagged fields, so
      the decoder fills them from keys of the same name when present. */
  datatype ValidRecord = ValidRecord(
    success: bool, processId: string, reasons: seq<C.Reason>, message: string, status: int)

  /** `ValidRequestError`. */
  datatype ValidRequestError = ValidRequestError(message: string, status: int)

  // ---------------------------------------------------------------------------
  // generateStatus
  // ---------------------------------------------------------------------------

  /** How strongly a category claims the status: the higher rank wins. */
  function Rank(cat: int): (k: nat)
    ensures k <= 6
  {
    if cat == C.RequestExceeded then 6
    else if cat == C.AuthFailed then 5
    else if cat == C.AccessDenied then 4
    else if cat == C.NotFound then 3
    else if cat == C.LockingContention then 2
    else if cat == C.InternalError then 1
    else 0
  }

  function StatusOfRank(k: nat): int
  {
    if k == 6 then C.StatusTooManyRequests
    else if k == 5 then C.StatusUnauthorized
    else if k == 4 then C.StatusForbidden
    else if k == 3 then C.StatusNotFound
    else if k == 2 then C.StatusLocked
    else if k == 1 then C.StatusInternalServerError
    else C.StatusBadRequest
  }

  /** The highest rank among the reasons' categories: no reason outranks it,
      and when it is not zero some reason attains it. */
  function MaxRank(reasons: seq<C.Reason>): (k: nat)
    ensures k <= 6
    ensures forall i | 0 <= i < |reasons| :: Rank(C.Category(reasons[i].code)) <= k
    ensures k > 0 ==> exists i | 0 <= i < |reasons| :: Rank(C.Category(reasons[i].code)) == k
  {
    if |reasons| == 0 then 0
    else
      var head, tail := Rank(C.Category(reasons[0].code)), MaxRank(reasons[1..]);
      assert forall i | 1 <= i < |reasons| :: reasons[i] == reasons[1..][i - 1];
      if head >= tail then head else tail
  }

  /** `generateStatus`: the record's own status when there are no reasons,
      otherwise the status of the highest-ranked category present. */
  function GenerateStatus(e: ValidRecord): (status: int)
    ensures |e.reasons| == 0 ==> status == e.status
    ensures |e.reasons| > 0 ==> status in C.ClassifiedStatuses
  {
    if |e.reasons| == 0 then e.status else StatusOfRank(MaxRank(e.reasons))
  }

  /** A rank that bounds every present category and is attained by one of
      them selects the status the precedence table selects. */
  lemma TopRankIsPrecedence(cats: set<int>, k: nat)
    requires k <= 6
    requires forall c | c in cats :: Rank(c) <= k
    requires k > 0 ==> exists c | c in cats :: Rank(c) == k
    ensures StatusOfRank(k) == C.PrecedenceStatus(cats)
  {
    C.PrecedenceUnfolded(cats);
    if k > 0 {
      var c :| c in cats && Rank(c) == k;
    }
    assert C.RequestExceeded in cats ==> Rank(C.RequestExceeded) <= k;
    assert C.AuthFailed in cats ==> Rank(C.AuthFailed) <= k;
    assert C.AccessDenied in cats ==> Rank(C.AccessDenied) <= k;
    assert C.NotFound in cats ==> Rank(C.NotFound) <= k;
    assert C.LockingContention in cats ==> Rank(C.LockingContention) <= k;
    assert C.InternalError in cats ==> Rank(C.InternalError) <= k;
  }

  /** The classifier of this package and the one of errors.go agree on every
      non-empty reason list: same precedence, same 400 fallback. */
  lemma GenerateStatusAgreesWithGetStatus(e: ValidRecord)
    requires |e.reasons| > 0
    ensures GenerateStatus(e) == C.GetStatus(C.ErrorResponse(e.success, e.processId, e.reasons))
  {
    var r := C.ErrorResponse(e.success, e.processId, e.reasons);
    var cats := C.CategorySet(e.reasons);
    var k := MaxRank(e.reasons);
    C.GetStatusFollowsPrecedence(r);
    if k > 0 {
      var i :| 0 <= i < |e.reasons| && Rank(C.Category(e.reasons[i].code)) == k;
      assert C.Category(e.reasons[i].code) in cats;
    }
    forall c | c in cats ensures Rank(c) <= k {
      var i :| 0 <= i < |e.reasons| && C.Category(e.reasons[i].code) == c;
    }
    TopRankIsPrecedence(cats, k);
  }

  /** On an empty reason list the two classifiers part ways: this one reports
      the record's status, errors.go reports 400. */
  lemma EmptyReasonsDiverge(e: ValidRecord)
    requires |e.reasons| == 0 && e.status != C.StatusBadRequest
    ensures GenerateStatus(e) != C.GetStatus(C.ErrorResponse(e.success, e.processId, e.reasons))
  {
  }

  // ---------------------------------------------------------------------------
  // generateErrorMsg
  // ---------------------------------------------------------------------------

  const ValidReasonSeparator := " || "

  function ValidReasonLine(r: C.Reason): string
  {
    "code: " + IntToString(r.code) + " message: " + ToLower(r.message)
  }

  function ValidReasonLines(reasons: seq<C.Reason>): (lines: seq<string>)
    ensures |lines| == |reasons|
    ensures forall i | 0 <= i < |reasons| :: lines[i] == ValidReasonLine(reasons[i])
  {
    seq(|reasons|, i requires 0 <= i < |reasons| => ValidReasonLine(reasons[i]))
  }

  /** `generateErrorMsg`: the record's message when there are no reasons,
      otherwise one "code: c message: m" per reason, lower-cased, in order. */
  function GenerateErrorMsg(e: ValidRecord): (msg: string)
    ensures |e.reasons| == 0 ==> msg == e.message
  {
    if |e.reasons| == 0 then e.message else Join(ValidReasonLines(e.reasons), ValidReasonSeparator)
  }

  /** One more reason adds " || " and its line at the end. */
  lemma GenerateErrorMsgExtend(e: ValidRecord, r: C.Reason)
    requires |e.reasons| > 0
    ensures GenerateErrorMsg(e.(reasons := e.reasons + [r]))
         == GenerateErrorMsg(e) + ValidReasonSeparator + ValidReasonLine(r)
  {
    assert ValidReasonLines(e.reasons + [r]) == ValidReasonLines(e.reasons) + [ValidReasonLine(r)];
    JoinAppend(ValidReasonLines(e.reasons), ValidReasonLine(r), ValidReasonSeparator);
  }

  function LowerReason(r: C.Reason): C.Reason
  {
    r.(message := ToLower(r.message))
  }

  /** The reason messages are compared without regard to ASCII case:
      lower-casing them beforehand changes nothing. */
  lemma GenerateErrorMsgIgnoresCase(e: ValidRecord)
    ensures GenerateErrorMsg(e.(reasons := seq(|e.reasons|, i requires 0 <= i < |e.reasons| => LowerReason(e.reasons[i]))))
         == GenerateErrorMsg(e)
  {
    var lowered := seq(|e.reasons|, i requires 0 <= i < |e.reasons| => LowerReason(e.reasons[i]));
    forall i | 0 <= i < |e.reasons| ensures ValidReasonLine(lowered[i]) == ValidReasonLine(e.reasons[i]) {
      ToLowerIdempotent(e.reasons[i].message);
    }
    assert ValidReasonLines(lowered) == ValidReasonLines(e.reasons);
  }

  // ---------------------------------------------------------------------------
  // newValidRequestError, Error, Temporary
  // ---------------------------------------------------------------------------

  /** `newValidRequestError`: without reasons the record's own message and
      status pass through; with reasons the status is the one errors.go's
      `getStatus` gives and the message lists every reason in order. */
  function NewValidRequestError(e: ValidRecord): (v: ValidRequestError)
    ensures |e.reasons| == 0 ==> v == ValidRequestError(e.message, e.status)
    ensures |e.reasons| > 0 ==>
      v.status == C.GetStatus(C.ErrorResponse(e.success, e.processId, e.reasons))
      && v.status in C.ClassifiedStatuses
      && v.message == Join(ValidReasonLines(e.reasons), ValidReasonSeparator)
  {
    if |e.reasons| > 0 then
      GenerateStatusAgreesWithGetStatus(e);
      ValidRequestError(GenerateErrorMsg(e), GenerateStatus(e))
    else
      ValidRequestError(GenerateErrorMsg(e), GenerateStatus(e))
  }

  /** `ValidRequestError.Temporary`: too many requests, locked and internal
      server error; unlike errors.go, 408 and 503 are not retried here. */
  predicate ValidTemporary(v: ValidRequestError)
  {
    v.status == C.StatusTooManyRequests || v.status == C.StatusLocked || v.status == C.StatusInternalServerError
  }

  /** Where the two retry rules meet on a reason list, they differ exactly on
      a locking contention: this package retries the 423, errors.go does not. */
  lemma TemporaryDiffersOnlyOnLocked(e: ValidRecord)
    requires |e.reasons| > 0
    ensures C.Temporary(C.ErrorResponse(e.success, e.processId, e.reasons))
        <==> ValidTemporary(NewValidRequestError(e)) && GenerateStatus(e) != C.StatusLocked
  {
    GenerateStatusAgreesWithGetStatus(e);
  }

  /** On bare status codes the two retry sets disagree on 408, 423 and 503. */
  lemma RetrySetsDisagree(status: int)
    ensures C.IsRetryableStatusCode(status) != ValidTemporary(ValidRequestError("", status))
        <==> status in {C.StatusRequestTimeout, C.StatusLocked, C.StatusServiceUnavailable}
  {
  }

  const ValidErrorPrefix := "zuora returned an error (status: "

  /** `ValidRequestError.Error`. */
  function ValidErrorText(v: ValidRequestError): string
  {
    ValidErrorPrefix + IntToString(v.status) + "): " + v.message
  }

  /** Reads a `ValidRequestError` message back into its status and message. */
  function ParseValidErrorText(s: string): Option<(int, string)>
  {
    match DropPrefix(s, ValidErrorPrefix)
    case None => None
    case Some(t) =>
      match SplitAtFirst(t, ')')
      case None => None
      case Some(parts) =>
        match (ParseInt(parts.0), DropPrefix(parts.1, ": "))
        case (Some(n), Some(m)) => Some((n, m))
        case _ => None
  }

  /** The message loses nothing: status and message can be read back. */
  lemma ValidErrorTextRoundTrip(v: ValidRequestError)
    ensures ParseValidErrorText(ValidErrorText(v)) == Some((v.status, v.message))
  {
    var digits := IntToString(v.status);
    assert ValidErrorText(v) == ValidErrorPrefix + (digits + [')'] + (": " + v.message));
    DropPrefixOf(ValidErrorPrefix, digits + [')'] + (": " + v.message));
    IntToStringAvoids(v.status, ')');
    SplitAtFirstOf(digits, ')', ": " + v.message);
    IntToStringRoundTrip(v.status);
    DropPrefixOf(": ", v.message);
  }

  // ===========================================================================
  // errors/invalid_request.go
  // ===========================================================================

  /** `jsonInvalidRequestError`. */
  datatype InvalidRecord = InvalidRecord(timestamp: string, status: int, error: string, path: string)

  /** `InvalidRequestError.Temporary`: only 429 is retried. */
  predicate InvalidTemporary(e: InvalidRecord)
  {
    e.status == C.StatusTooManyRequests
  }

  const InvalidErrorPrefix := "zuora returned error - statusCode: "

  const MessageLabel := " message: "
  const PathLabel := "path: "
  const TimestampLabel := "timestamp: "

  /** The optional trailer: "path: P" and "timestamp: T", each only when
      non-empty, in that order. */
  function InvalidErrorDetails(e: InvalidRecord): seq<string>
  {
    (if e.path != "" then [PathLabel + e.path] else [])
    + (if e.timestamp != "" then [TimestampLabel + e.timestamp] else [])
  }

  /** " path: P" when the path is present, else nothing. */
  function PathPart(e: InvalidRecord): string
  {
    if e.path != "" then " " + (PathLabel + e.path) else ""
  }

  /** " timestamp: T" when the timestamp is present, else nothing. */
  function TimestampPart(e: InvalidRecord): string
  {
    if e.timestamp != "" then " " + (TimestampLabel + e.timestamp) else ""
  }

  /** Joining the present parts with single spaces, behind one more space,
      is the same as writing each present part behind its own space. */
  lemma InvalidErrorDetailsJoin(e: InvalidRecord)
    ensures |InvalidErrorDetails(e)| == 0 <==> PathPart(e) + TimestampPart(e) == ""
    ensures |InvalidErrorDetails(e)| > 0 ==>
              " " + Join(InvalidErrorDetails(e), " ") == PathPart(e) + TimestampPart(e)
  {
    var details := InvalidErrorDetails(e);
    var p := PathLabel + e.path;
    var t := TimestampLabel + e.timestamp;
    if e.path != "" && e.timestamp != "" {
      assert details == [p, t];
      assert details[1..] == [t];
      assert Join(details, " ") == p + " " + t;
      assert " " + (p + " " + t) == (" " + p) + (" " + t);
    } else if e.path != "" {
      assert details == [p];
      assert PathPart(e) + TimestampPart(e) == " " + p;
    } else if e.timestamp != "" {
      assert details == [t];
      assert PathPart(e) + TimestampPart(e) == " " + t;
    } else {
      assert PathPart(e) + TimestampPart(e) == "";
    }
  }

  /** `InvalidRequestError.Error`: "statusCode: N message: M", then
      " path: P" if the path is present, then " timestamp: T" if the
      timestamp is. */
  function InvalidErrorText(e: InvalidRecord): (s: string)
    ensures s == InvalidErrorPrefix + (IntToString(e.status) + (MessageLabel + (e.error + (PathPart(e) + TimestampPart(e)))))
  {
    var details := InvalidErrorDetails(e);
    InvalidErrorDetailsJoin(e);
    var trailer := if |details| > 0 then " " + Join(details, " ") else "";
    InvalidErrorPrefix + (IntToString(e.status) + (MessageLabel + (e.error + trailer)))
  }

  /** Reads the status code back out of an `InvalidRequestError` message. */
  function ParseInvalidStatus(s: string): Option<int>
  {
    match DropPrefix(s, InvalidErrorPrefix)
    case None => None
    case Some(t) =>
      match SplitAtFirst(t, ' ')
      case None => None
      case Some(parts) => ParseInt(parts.0)
  }

  /** The status code printed in the message is the record's status,
      whatever the path and timestamp. */
  lemma InvalidErrorTextStatus(e: InvalidRecord)
    ensures ParseInvalidStatus(InvalidErrorText(e)) == Some(e.status)
  {
    var digits := IntToString(e.status);
    var after := MessageLabel + (e.error + (PathPart(e) + TimestampPart(e)));
    DropPrefixOf(InvalidErrorPrefix, digits + after);
    IntToStringAvoids(e.status, ' ');
    SplitAtFirstBefore(digits, ' ', after);
    IntToStringRoundTrip(e.status);
  }

  // ===========================================================================
  // errors/bad_request.go and errors/request_handler.go
  // ===========================================================================

  /** The error values the handler returns. `BadRequest` wraps another error,
      absent when the wrapped error is nil. */
  datatype HandlerError =
    | Invalid(invalid: InvalidRecord)
    | Valid(valid: ValidRequestError)
    | BadRequest(wrapped: Option<string>)

  /** `Temporary` of each error type. */
  predicate Temporary(e: HandlerError)
  {
    match e
    case Invalid(r) => InvalidTemporary(r)
    case Valid(v) => ValidTemporary(v)
    case BadRequest(_) => false
  }

  /** `Error` of each error type; a wrapped nil error prints as "<nil>". */
  function ErrorText(e: HandlerError): string
  {
    match e
    case Invalid(r) => InvalidErrorText(r)
    case Valid(v) => ValidErrorText(v)
    case BadRequest(w) => if w.Some? then w.value else "<nil>"
  }

  /** What `json.Unmarshal` did with a body: either it decoded, or it failed
      with a message after filling in `partial` (nothing for a syntax error;
      for a type mismatch, every field it could decode, before or after the
      offending one, which it skips). */
  datatype DecodeOutcome<T> = Decoded(value: T) | DecodeFailed(partial: T, message: string)

  const AuthenticationErrorText := "Authentication error"
  const ObjectNotFoundText := "object not found"

  /** `RequestHandler.InvalidResponse`. An undecodable body becomes the
      message under the caller's status. A decoded body without an "error"
      text gets a canned message for 401 and 404 and the raw body otherwise.
      A decoded body with an "error" text is returned as decoded, its own
      status included. The result is always an `InvalidRequestError`. */
  function InvalidResponse(body: string, statusCode: int, decoded: Option<InvalidRecord>): (r: HandlerError)
    ensures r.Invalid?
    ensures decoded.None? ==> r.invalid == InvalidRecord("", statusCode, body, "")
    ensures decoded.Some? && decoded.value.error != "" ==> r.invalid == decoded.value
    ensures decoded.Some? && decoded.value.error == "" ==>
      r.invalid.status == statusCode && r.invalid.path == "" && r.invalid.timestamp == ""
      && r.invalid.error == (if statusCode == 401 then AuthenticationErrorText
                             else if statusCode == 404 then ObjectNotFoundText else body)
  {
    match decoded
    case None => Invalid(InvalidRecord("", statusCode, body, ""))
    case Some(rec) =>
      if rec.error == "" then
        if statusCode == 401 then Invalid(InvalidRecord("", statusCode, AuthenticationErrorText, ""))
        else if statusCode == 404 then Invalid(InvalidRecord("", statusCode, ObjectNotFoundText, ""))
        else Invalid(InvalidRecord("", statusCode, body, ""))
      else Invalid(rec)
  }

  /** The caller's status reaches the result unless the body decoded with its
      own "error" text, and then only 429 in the body makes it retryable. */
  lemma InvalidResponseTemporary(body: string, statusCode: int, decoded: Option<InvalidRecord>)
    ensures Temporary(InvalidResponse(body, statusCode, decoded))
        <==> (if decoded.Some? && decoded.value.error != "" then decoded.value.status else statusCode) == 429
  {
  }

  /** `RequestHandler.ValidRequestError`. After a decode failure the record is
      whatever the decoder filled in, with the caller's status and the
      decoder's message; after a successful decode the caller's status is
      ignored. */
  function ValidRequestErrorOf(body: string, statusCode: int, decoded: DecodeOutcome<ValidRecord>): (r: HandlerError)
    ensures r.Valid?
    ensures decoded.Decoded? ==> r.valid == NewValidRequestError(decoded.value)
  {
    match decoded
    case Decoded(rec) => Valid(NewValidRequestError(rec))
    case DecodeFailed(partial, message) =>
      Valid(NewValidRequestError(partial.(status := statusCode, message := message)))
  }

  /** A body that failed to decode before any reason was read reports the
      caller's status and the decoder's message. */
  lemma ValidRequestErrorOfUndecodable(body: string, statusCode: int, partial: ValidRecord, message: string)
    requires |partial.reasons| == 0
    ensures ValidRequestErrorOf(body, statusCode, DecodeFailed(partial, message)).valid
         == ValidRequestError(message, statusCode)
  {
  }

  /** Reasons that were decoded before the failure still decide the status,
      so the caller's status is not always the one reported. */
  lemma ValidRequestErrorOfPartialReasons(body: string, statusCode: int, partial: ValidRecord, message: string)
    requires |partial.reasons| > 0
    ensures ValidRequestErrorOf(body, statusCode, DecodeFailed(partial, message)).valid.status
         == C.GetStatus(C.ErrorResponse(partial.success, partial.processId, partial.reasons))
  {
    GenerateStatusAgreesWithGetStatus(partial.(status := statusCode, message := message));
  }

  /** A successful decode makes the result independent of the caller's status. */
  lemma ValidRequestErrorOfIgnoresStatus(body: string, s1: int, s2: int, rec: ValidRecord)
    ensures ValidRequestErrorOf(body, s1, Decoded(rec)) == ValidRequestErrorOf(body, s2, Decoded(rec))
  {
  }

  /** `RequestHandler.BadRequest`: wraps the error, prints it unchanged, and
      is never retryable. */
  function BadRequestOf(err: Option<string>): (r: HandlerError)
    ensures !Temporary(r)
    ensures err.Some? ==> ErrorText(r) == err.value
    ensures err.None? ==> ErrorText(r) == "<nil>"
  {
    BadRequest(err)
  }

  // ===========================================================================
  // The handler on the responses its tests use (errors/request_handler_test.go)
  // ===========================================================================

  const NoValidRecord := ValidRecord(false, "", [], "", 0)

  /** The three-digit codes the examples print. */
  lemma RenderStatus(h: nat, t: nat, u: nat)
    requires 1 <= h < 10 && t < 10 && u < 10
    ensures IntToString(h * 100 + t * 10 + u) == [DigitChar(h), DigitChar(t), DigitChar(u)]
  {
    var n := h * 100 + t * 10 + u;
    assert n / 10 == h * 10 + t && n % 10 == u;
    assert (h * 10 + t) / 10 == h && (h * 10 + t) % 10 == t;
    assert NatToString(h * 10 + t) == [DigitChar(h)] + [DigitChar(t)];
    assert NatToString(n) == NatToString(h * 10 + t) + [DigitChar(u)];
  }

  /** What `json.Unmarshal` reports for the body "plain error". */
  const PlainErrorMessage := "invalid character 'p' looking for beginning of value"

  /** A body that is not JSON at all: the caller's 400 and the decoder's
      message, not retryable. */
  lemma PlainErrorExample()
    ensures var r := ValidRequestErrorOf("plain error", 400, DecodeFailed(NoValidRecord, PlainErrorMessage));
      ErrorText(r) == ValidErrorPrefix + "400" + "): " + PlainErrorMessage && !Temporary(r)
  {
    var partial := NoValidRecord.(status := 400, message := PlainErrorMessage);
    assert GenerateStatus(partial) == 400;
    assert GenerateErrorMsg(partial) == PlainErrorMessage;
    Render400();
  }

  lemma Render400()
    ensures IntToString(400) == "400"
  {
    RenderStatus(4, 0, 0);
  }

  /** A rate-limit reason (code 53100370, category 70) beside a validation
      reason (code 53100020, category 20) turns an HTTP 400 into a retryable
      429, whatever the reasons' messages say. */
  lemma RateLimitTakesPriorityExample(validation: string, rateLimit: string)
    ensures var rec := NoValidRecord.(reasons := [C.Reason(53100020, validation), C.Reason(53100370, rateLimit)]);
      var r := ValidRequestErrorOf("", 400, Decoded(rec));
      r.valid.status == 429 && Temporary(r)
  {
    var reasons := [C.Reason(53100020, validation), C.Reason(53100370, rateLimit)];
    assert C.Category(53100370) == C.RequestExceeded;
    assert reasons[1..] == [C.Reason(53100370, rateLimit)];
    assert MaxRank(reasons) == 6;
  }

  /** An `InvalidRequestError` without path and timestamp prints only the
      status code and the message. */
  lemma InvalidTextNoDetails(e: InvalidRecord)
    requires e.path == "" && e.timestamp == ""
    ensures InvalidErrorText(e) == InvalidErrorPrefix + (IntToString(e.status) + (MessageLabel + e.error))
  {
    assert PathPart(e) + TimestampPart(e) == "";
    assert e.error + "" == e.error;
  }

  /** A body that is not JSON keeps the caller's status and becomes the message. */
  lemma InvalidResponsePlainExample()
    ensures ErrorText(InvalidResponse("plain error", 400, None))
         == InvalidErrorPrefix + ("400" + (MessageLabel + "plain error"))
  {
    var r := InvalidResponse("plain error", 400, None);
    InvalidTextNoDetails(r.invalid);
    Render400();
  }

  /** A decoded body without an "error" text under 401 gets the canned message. */
  lemma InvalidResponseUnauthorizedExample(body: string)
    ensures ErrorText(InvalidResponse(body, 401, Some(InvalidRecord("", 0, "", ""))))
         == InvalidErrorPrefix + ("401" + (MessageLabel + "Authentication error"))
  {
    var r := InvalidResponse(body, 401, Some(InvalidRecord("", 0, "", "")));
    assert r.invalid == InvalidRecord("", 401, AuthenticationErrorText, "");
    InvalidTextNoDetails(r.invalid);
    RenderStatus(4, 0, 1);
    assert [DigitChar(4), DigitChar(0), DigitChar(1)] == "401";
  }

  /** ... and under 404 the object-not-found one. */
  lemma InvalidResponseNotFoundExample(body: string)
    ensures ErrorText(InvalidResponse(body, 404, Some(InvalidRecord("", 0, "", ""))))
         == InvalidErrorPrefix + ("404" + (MessageLabel + "object not found"))
  {
    var r := InvalidResponse(body, 404, Some(InvalidRecord("", 0, "", "")));
    assert r.invalid == InvalidRecord("", 404, ObjectNotFoundText, "");
    InvalidTextNoDetails(r.invalid);
    RenderStatus(4, 0, 4);
    assert [DigitChar(4), DigitChar(0), DigitChar(4)] == "404";
  }
}

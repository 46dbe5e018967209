/** The first-generation error classifier of the client (errors.go): it maps
    the reason codes of a provider error payload to one HTTP-like status,
    decides whether the error is worth retrying, and renders its message. */
module Classifier {
  import opened Text

  // HTTP status codes as net/http names them.
  const StatusBadRequest := 400
  const StatusUnauthorized := 401
  const StatusForbidden := 403
  const StatusNotFound := 404
  const StatusRequestTimeout := 408
  const StatusLocked := 423
  const StatusTooManyRequests := 429
  const StatusInternalServerError := 500
  const StatusServiceUnavailable := 503

  // Reason categories: the last two decimal digits of a reason code.
  const Unknown := 0
  const AccessDenied := 10
  const AuthFailed := 11
  const InvalidFormat := 20
  const UnknownField := 21
  const RequiredField := 22
  const RuleRestriction := 30
  const NotFound := 40
  const LockingContention := 50
  const InternalError := 60
  const RequestExceeded := 70
  const MalformedRequest := 90
  const ExtensionError := 99

  /** Every status the reason classifier can produce. */
  const ClassifiedStatuses: set<int> := {400, 401, 403, 404, 423, 429, 500}

  /** `responseError`: a message with a fixed retry verdict. */
  datatype ResponseError = ResponseError(isTemporary: bool, message: string)

  datatype Reason = Reason(code: int, message: string)

  /** `errorResponse`, the body of a failed call: it can arrive even with a
      2xx status. */
  datatype ErrorResponse = ErrorResponse(success: bool, processId: string, reasons: seq<Reason>)

  // ---------------------------------------------------------------------------
  // Retryable status codes
  // ---------------------------------------------------------------------------

  /** `isRetryableStatusCode`: request timeout, too many requests, internal
      server error and service unavailable. */
  function IsRetryableStatusCode(status: int): (retry: bool)
    ensures retry <==> status in {408, 429, 500, 503}
  {
    status == StatusRequestTimeout || status == StatusTooManyRequests
    || status == StatusInternalServerError || status == StatusServiceUnavailable
  }

  // ---------------------------------------------------------------------------
  // Categories
  // ---------------------------------------------------------------------------

  /** Go's `a / m` for a positive divisor: division truncated toward zero. */
  function GoQuo(a: int, m: int): int
    requires m > 0
  {
    if a >= 0 then a / m else -((-a) / m)
  }

  /** Go's `a % m` for a positive modulus: what truncated division leaves, so
      it takes the sign of `a` (Dafny's own `%` never goes below zero). */
  function GoRem(a: int, m: int): (r: int)
    requires m > 0
    ensures a == GoQuo(a, m) * m + r
    ensures a >= 0 ==> 0 <= r < m
    ensures a < 0 ==> -m < r <= 0
  {
    if a >= 0 then a % m else -((-a) % m)
  }

  /** The category of a reason code, `code % 100` in Go. */
  function Category(code: int): int
  {
    GoRem(code, 100)
  }

  /** The first loop of `getStatus`: the category of every reason, in order. */
  function CategoryList(reasons: seq<Reason>): (cats: seq<int>)
    ensures |cats| == |reasons|
    ensures forall i | 0 <= i < |reasons| :: cats[i] == Category(reasons[i].code)
  {
    seq(|reasons|, i requires 0 <= i < |reasons| => Category(reasons[i].code))
  }

  /** The categories present, forgetting order and repetition. */
  function CategorySet(reasons: seq<Reason>): set<int>
  {
    set i | 0 <= i < |reasons| :: Category(reasons[i].code)
  }

  // ---------------------------------------------------------------------------
  // getStatus, as the code computes it: flags, then a cascade
  // ---------------------------------------------------------------------------

  datatype Flags = Flags(
    requestExceeded: bool, accessDenied: bool, authDenied: bool,
    notFound: bool, locked: bool, internalError: bool)

  const NoFlags := Flags(false, false, false, false, false, false)

  /** One step of the second loop: the `switch` on a category sets the flag
      of that category, if it has one, and no other. */
  function Record(f: Flags, cat: int): (g: Flags)
    ensures g.requestExceeded <==> f.requestExceeded || cat == RequestExceeded
    ensures g.accessDenied <==> f.accessDenied || cat == AccessDenied
    ensures g.authDenied <==> f.authDenied || cat == AuthFailed
    ensures g.notFound <==> f.notFound || cat == NotFound
    ensures g.locked <==> f.locked || cat == LockingContention
    ensures g.internalError <==> f.internalError || cat == InternalError
  {
    if cat == RequestExceeded then f.(requestExceeded := true)
    else if cat == AccessDenied then f.(accessDenied := true)
    else if cat == AuthFailed then f.(authDenied := true)
    else if cat == NotFound then f.(notFound := true)
    else if cat == LockingContention then f.(locked := true)
    else if cat == InternalError then f.(internalError := true)
    else f
  }

  /** The second loop of `getStatus`, run left to right: after it, each flag is
      set exactly when its category occurs somewhere in the list. */
  function Scan(cats: seq<int>): (f: Flags)
    ensures f.requestExceeded <==> RequestExceeded in cats
    ensures f.accessDenied <==> AccessDenied in cats
    ensures f.authDenied <==> AuthFailed in cats
    ensures f.notFound <==> NotFound in cats
    ensures f.locked <==> LockingContention in cats
    ensures f.internalError <==> InternalError in cats
    decreases |cats|
  {
    if |cats| == 0 then NoFlags
    else
      var init, last := cats[..|cats| - 1], cats[|cats| - 1];
      assert forall c :: c in cats <==> c in init || c == last by {
        assert cats == init + [last];
      }
      Record(Scan(init), last)
  }

  /** The `if`/`else if` cascade that turns the flags into a status. */
  function StatusOfFlags(f: Flags): int
  {
    if f.requestExceeded then StatusTooManyRequests
    else if f.authDenied then StatusUnauthorized
    else if f.accessDenied then StatusForbidden
    else if f.notFound then StatusNotFound
    else if f.locked then StatusLocked
    else if f.internalError then StatusInternalServerError
    else StatusBadRequest
  }

  /** `getStatus`: 400 for an empty reason list, otherwise the status the
      category flags select; always one of the classified statuses. */
  function GetStatus(e: ErrorResponse): (status: int)
    ensures |e.reasons| == 0 ==> status == StatusBadRequest
    ensures status in ClassifiedStatuses
  {
    if |e.reasons| == 0 then StatusBadRequest
    else StatusOfFlags(Scan(CategoryList(e.reasons)))
  }

  // ---------------------------------------------------------------------------
  // The precedence, as a table, and the agreement of getStatus with it
  // ---------------------------------------------------------------------------

  /** Category and status, highest precedence first: a rate-limit signal is
      never masked by any other reason. */
  const Precedence: seq<(int, int)> := [
    (RequestExceeded, StatusTooManyRequests),
    (AuthFailed, StatusUnauthorized),
    (AccessDenied, StatusForbidden),
    (NotFound, StatusNotFound),
    (LockingContention, StatusLocked),
    (InternalError, StatusInternalServerError)
  ]

  /** The status of the first table row whose category is present, or
      `fallback` when none is. */
  function FirstPresent(table: seq<(int, int)>, cats: set<int>, fallback: int): int
  {
    if |table| == 0 then fallback
    else if table[0].0 in cats then table[0].1
    else FirstPresent(table[1..], cats, fallback)
  }

  function PrecedenceStatus(cats: set<int>): int
  {
    FirstPresent(Precedence, cats, StatusBadRequest)
  }

  /** The table read row by row. */
  lemma PrecedenceUnfolded(cats: set<int>)
    ensures PrecedenceStatus(cats)
         == if RequestExceeded in cats then StatusTooManyRequests
            else if AuthFailed in cats then StatusUnauthorized
            else if AccessDenied in cats then StatusForbidden
            else if NotFound in cats then StatusNotFound
            else if LockingContention in cats then StatusLocked
            else if InternalError in cats then StatusInternalServerError
            else StatusBadRequest
  {
    var t0 := Precedence;
    var t1 := [(AuthFailed, StatusUnauthorized), (AccessDenied, StatusForbidden), (NotFound, StatusNotFound),
               (LockingContention, StatusLocked), (InternalError, StatusInternalServerError)];
    var t2 := [(AccessDenied, StatusForbidden), (NotFound, StatusNotFound),
               (LockingContention, StatusLocked), (InternalError, StatusInternalServerError)];
    var t3 := [(NotFound, StatusNotFound), (LockingContention, StatusLocked), (InternalError, StatusInternalServerError)];
    var t4 := [(LockingContention, StatusLocked), (InternalError, StatusInternalServerError)];
    var t5 := [(InternalError, StatusInternalServerError)];
    assert t0[1..] == t1 && t1[1..] == t2 && t2[1..] == t3 && t3[1..] == t4 && t4[1..] == t5 && t5[1..] == [];
    var fb := StatusBadRequest;
    assert FirstPresent(t5, cats, fb) == if InternalError in cats then StatusInternalServerError else fb;
    assert FirstPresent(t4, cats, fb) == if LockingContention in cats then StatusLocked else FirstPresent(t5, cats, fb);
    assert FirstPresent(t3, cats, fb) == if NotFound in cats then StatusNotFound else FirstPresent(t4, cats, fb);
    assert FirstPresent(t2, cats, fb) == if AccessDenied in cats then StatusForbidden else FirstPresent(t3, cats, fb);
    assert FirstPresent(t1, cats, fb) == if AuthFailed in cats then StatusUnauthorized else FirstPresent(t2, cats, fb);
    assert FirstPresent(t0, cats, fb) == if RequestExceeded in cats then StatusTooManyRequests else FirstPresent(t1, cats, fb);
  }

  lemma CategoryListElements(reasons: seq<Reason>, cat: int)
    ensures cat in CategoryList(reasons) <==> cat in CategorySet(reasons)
  {
    var cats := CategoryList(reasons);
    if cat in cats {
      var i :| 0 <= i < |cats| && cats[i] == cat;
      assert Category(reasons[i].code) in CategorySet(reasons);
    }
    if cat in CategorySet(reasons) {
      var i :| 0 <= i < |reasons| && Category(reasons[i].code) == cat;
      assert cats[i] == cat;
    }
  }

  /** For a non-empty reason list, `getStatus` is the precedence table applied
      to the set of categories present. */
  lemma GetStatusFollowsPrecedence(e: ErrorResponse)
    requires |e.reasons| > 0
    ensures GetStatus(e) == PrecedenceStatus(CategorySet(e.reasons))
  {
    var cats := CategorySet(e.reasons);
    CategoryListElements(e.reasons, RequestExceeded);
    CategoryListElements(e.reasons, AuthFailed);
    CategoryListElements(e.reasons, AccessDenied);
    CategoryListElements(e.reasons, NotFound);
    CategoryListElements(e.reasons, LockingContention);
    CategoryListElements(e.reasons, InternalError);
    PrecedenceUnfolded(cats);
  }

  /** The status depends only on which categories occur: not on the order of
      the reasons, nor on how often a category repeats. */
  lemma GetStatusDependsOnlyOnCategories(e1: ErrorResponse, e2: ErrorResponse)
    requires |e1.reasons| > 0 && |e2.reasons| > 0
    requires CategorySet(e1.reasons) == CategorySet(e2.reasons)
    ensures GetStatus(e1) == GetStatus(e2)
  {
    GetStatusFollowsPrecedence(e1);
    GetStatusFollowsPrecedence(e2);
  }

  /** In particular, reordering the reasons never changes the status. */
  lemma GetStatusOrderIndependent(e1: ErrorResponse, e2: ErrorResponse)
    requires multiset(e1.reasons) == multiset(e2.reasons)
    ensures GetStatus(e1) == GetStatus(e2)
  {
    if |e1.reasons| > 0 {
      assert |e2.reasons| == |multiset(e2.reasons)| == |multiset(e1.reasons)| == |e1.reasons|;
      forall c | c in CategorySet(e1.reasons) ensures c in CategorySet(e2.reasons) {
        var i :| 0 <= i < |e1.reasons| && Category(e1.reasons[i].code) == c;
        assert e1.reasons[i] in multiset(e2.reasons);
        var j :| 0 <= j < |e2.reasons| && e2.reasons[j] == e1.reasons[i];
      }
      forall c | c in CategorySet(e2.reasons) ensures c in CategorySet(e1.reasons) {
        var i :| 0 <= i < |e2.reasons| && Category(e2.reasons[i].code) == c;
        assert e2.reasons[i] in multiset(e1.reasons);
        var j :| 0 <= j < |e1.reasons| && e1.reasons[j] == e2.reasons[i];
      }
      GetStatusDependsOnlyOnCategories(e1, e2);
    } else {
      assert |e2.reasons| == |multiset(e2.reasons)| == 0;
    }
  }

  /** A negative code never lands in a category (Go's remainder keeps its
      sign), so it contributes nothing. */
  lemma NegativeCodeHasNoCategory(code: int)
    requires code < 0
    ensures Category(code) !in {AccessDenied, AuthFailed, NotFound, LockingContention, InternalError, RequestExceeded}
  {
  }

  /** Adding a reason whose category the table does not list (a negative code,
      a validation error, ...) to a non-empty list leaves the status alone. */
  lemma UnlistedReasonChangesNothing(e: ErrorResponse, r: Reason)
    requires |e.reasons| > 0
    requires Category(r.code) !in {AccessDenied, AuthFailed, NotFound, LockingContention, InternalError, RequestExceeded}
    ensures GetStatus(e.(reasons := e.reasons + [r])) == GetStatus(e)
  {
    var e' := e.(reasons := e.reasons + [r]);
    assert CategorySet(e'.reasons) == CategorySet(e.reasons) + {Category(r.code)} by {
      forall c | c in CategorySet(e'.reasons) ensures c in CategorySet(e.reasons) + {Category(r.code)} {
        var i :| 0 <= i < |e'.reasons| && Category(e'.reasons[i].code) == c;
        if i < |e.reasons| { assert e'.reasons[i] == e.reasons[i]; }
      }
      forall c | c in CategorySet(e.reasons) ensures c in CategorySet(e'.reasons) {
        var i :| 0 <= i < |e.reasons| && Category(e.reasons[i].code) == c;
        assert e'.reasons[i] == e.reasons[i];
      }
      assert e'.reasons[|e.reasons|] == r;
    }
    GetStatusFollowsPrecedence(e);
    GetStatusFollowsPrecedence(e');
    PrecedenceUnfolded(CategorySet(e.reasons));
    PrecedenceUnfolded(CategorySet(e'.reasons));
  }

  // ---------------------------------------------------------------------------
  // Temporary and Error of errorResponse
  // ---------------------------------------------------------------------------

  /** `errorResponse.Temporary`: retryable exactly when the classified status
      is 429 or 500; a locking contention (423) is not retried on this path. */
  function Temporary(e: ErrorResponse): (t: bool)
    ensures t <==> GetStatus(e) == StatusTooManyRequests || GetStatus(e) == StatusInternalServerError
  {
    IsRetryableStatusCode(GetStatus(e))
  }

  const EmptyReasonsMessage := "there was an error on Zuora response but reasons array was empty."

  const ReasonsPrefix := "all errors from reasons: "

  const ReasonSeparator := " -- "

  /** One reason, numbered from zero. */
  function ReasonLine(i: int, r: Reason): string
  {
    "reason " + IntToString(i) + ". Code: " + IntToString(r.code) + ". Message: " + r.message
  }

  /** The numbered lines of every reason, in input order. */
  function ReasonLines(reasons: seq<Reason>): (lines: seq<string>)
    ensures |lines| == |reasons|
    ensures forall i | 0 <= i < |reasons| :: lines[i] == ReasonLine(i, reasons[i])
  {
    seq(|reasons|, i requires 0 <= i < |reasons| => ReasonLine(i, reasons[i]))
  }

  /** `errorResponse.Error`, written as the loop of the code: the fixed sentence
      for no reasons, otherwise the prefix and the numbered reason lines joined
      by " -- ". */
  method ErrorText(e: ErrorResponse) returns (msg: string)
    ensures |e.reasons| == 0 ==> msg == EmptyReasonsMessage
    ensures |e.reasons| > 0 ==> msg == ReasonsPrefix + Join(ReasonLines(e.reasons), ReasonSeparator)
  {
    if |e.reasons| == 0 {
      return EmptyReasonsMessage;
    }
    var allMessages: seq<string> := [];
    var i := 0;
    while i < |e.reasons|
      invariant 0 <= i <= |e.reasons|
      invariant allMessages == ReasonLines(e.reasons[..i])
    {
      assert e.reasons[..i + 1] == e.reasons[..i] + [e.reasons[i]];
      allMessages := allMessages + [ReasonLine(i, e.reasons[i])];
      i := i + 1;
    }
    assert e.reasons[..i] == e.reasons;
    msg := ReasonsPrefix + Join(allMessages, ReasonSeparator);
  }

  /** The message of a longer list extends the message of its prefix by one
      separator and the new reason, numbered by its position. */
  lemma ReasonLinesExtend(reasons: seq<Reason>, r: Reason)
    requires |reasons| > 0
    ensures Join(ReasonLines(reasons + [r]), ReasonSeparator)
         == Join(ReasonLines(reasons), ReasonSeparator) + ReasonSeparator + ReasonLine(|reasons|, r)
  {
    assert ReasonLines(reasons + [r]) == ReasonLines(reasons) + [ReasonLine(|reasons|, r)];
    JoinAppend(ReasonLines(reasons), ReasonLine(|reasons|, r), ReasonSeparator);
  }

  // ---------------------------------------------------------------------------
  // tokenError
  // ---------------------------------------------------------------------------

  datatype TokenError = TokenError(timestamp: string, status: int, message: string, path: string, reason: string)

  /** `tokenError.Temporary`: a failure to obtain a token is never retried. */
  function TokenErrorTemporary(e: TokenError): (t: bool)
    ensures !t
  {
    false
  }

  const TokenErrorPrefix := "could not generate token: "

  /** `tokenError.Error`: the fixed prefix and the path open the text, the
      message closes it. */
  function TokenErrorText(e: TokenError): (s: string)
    ensures |s| >= |TokenErrorPrefix| + |e.path| + |e.message|
    ensures s[..|TokenErrorPrefix|] == TokenErrorPrefix
    ensures s[|TokenErrorPrefix|..|TokenErrorPrefix| + |e.path|] == e.path
    ensures s[|s| - |e.message|..] == e.message
  {
    TokenErrorPrefix + (e.path + (" - " + (e.reason + (" - " + (IntToString(e.status) + (" - " + e.message))))))
  }
}

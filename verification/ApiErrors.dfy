/** The error surface of the SDK: typed API errors, wrap chains, and the searches through them. */
module ApiErrors {
  import opened Wrappers

  datatype Detail = Detail(code: string, message: string)

  /** The two-factor headers of a response; an absent header reads as the empty string. */
  datatype Headers = Headers(approvalResult: string, approval: string)

  datatype ApiError = ApiError(status: int, message: string, body: string, headers: Headers, details: seq<Detail>)

  /** A non-2xx response; envelope is what decoding its body as Wise's error list gives, empty when
      the body is not such a list. */
  datatype Response = Response(status: int, body: string, envelope: seq<Detail>, headers: Headers,
                               retryAfter: int, limitedBy: string)

  /** The curated code sentinels. */
  datatype Sentinel = NotValid | InvalidValue | ParameterMissing | ParameterInvalid | InvalidRequest | Unauthorized
                    | Forbidden | ResourceNotFound | OperationNotSupported | RateLimitExceeded | SystemError

  datatype Kind = Base | RateLimit | Auth | SCAChallenge | NotFound | BadRequest | Server

  /** An error value: a typed API error (retryAfter and limitedBy belong to the RateLimit kind), a
      sentinel, any other leaf, or a wrap around one error. */
  datatype Error = Api(kind: Kind, api: ApiError, retryAfter: int, limitedBy: string)
                 | Code(sentinel: Sentinel)
                 | Other(text: string)
                 | Wrap(context: string, inner: Error)

  datatype Family = Rejection | Transient

  function WireCode(s: Sentinel): string {
    match s
    case NotValid => "not.valid"
    case InvalidValue => "invalid_value"
    case ParameterMissing => "parameter_missing"
    case ParameterInvalid => "parameter_invalid"
    case InvalidRequest => "invalid_request"
    case Unauthorized => "unauthorized"
    case Forbidden => "forbidden"
    case ResourceNotFound => "resource_not_found"
    case OperationNotSupported => "operation_not_supported"
    case RateLimitExceeded => "rate_limit_exceeded"
    case SystemError => "system_error"
  }

  // ----- From a response to a typed error -----

  predicate IsSCAChallenge(status: int, headers: Headers) {
    status == 403 && (headers.approvalResult != "" || headers.approval != "")
  }

  function Classify(status: int, headers: Headers): Kind {
    if status == 429 then RateLimit
    else if IsSCAChallenge(status, headers) then SCAChallenge
    else if status == 401 || status == 403 then Auth
    else if status == 400 then BadRequest
    else if status == 404 then NotFound
    else if status >= 500 then Server
    else Base
  }

  function Join(parts: seq<string>, separator: string): string {
    if parts == [] then ""
    else if |parts| == 1 then parts[0]
    else parts[0] + separator + Join(parts[1..], separator)
  }

  function Entry(d: Detail): string { d.code + ": " + d.message }

  function Entries(details: seq<Detail>): (es: seq<string>)
    ensures |es| == |details|
  {
    seq(|details|, i requires 0 <= i < |details| => Entry(details[i]))
  }

  function Message(r: Response): string {
    if r.envelope == [] then r.body else Join(Entries(r.envelope), "; ")
  }

  function ErrorOf(r: Response): Error {
    Api(Classify(r.status, r.headers), ApiError(r.status, Message(r), r.body, r.headers, r.envelope),
        r.retryAfter, r.limitedBy)
  }

  method NewAPIError(r: Response) returns (e: Error)
    ensures e == ErrorOf(r)
  {
    var message := r.body;
    var details: seq<Detail> := [];
    if |r.envelope| > 0 {
      var messages: seq<string> := [];
      for i := 0 to |r.envelope|
        invariant details == r.envelope[..i]
        invariant messages == Entries(r.envelope[..i])
      {
        messages := messages + [r.envelope[i].code + ": " + r.envelope[i].message];
        details := details + [Detail(r.envelope[i].code, r.envelope[i].message)];
      }
      assert r.envelope[..|r.envelope|] == r.envelope;
      message := Join(messages, "; ");
    }
    e := Api(Classify(r.status, r.headers), ApiError(r.status, message, r.body, r.headers, details),
             r.retryAfter, r.limitedBy);
  }

  /** The family the typed error reports. */
  function FamilyOf(kind: Kind): Family {
    if kind == RateLimit || kind == Server then Transient else Rejection
  }

  // ----- Searching a wrap chain -----

  /** errors.AsType: the first error of the chain whose concrete type is the one asked for. A struct
      that embeds ApiError is not itself a Base error. */
  function AsType(e: Error, kind: Kind): (found: Option<Error>)
    ensures found.Some? ==> found.value.Api? && found.value.kind == kind
  {
    match e
    case Api(k, _, _, _) => if k == kind then Some(e) else None
    case Wrap(_, inner) => AsType(inner, kind)
    case _ => None
  }

  predicate HasCode(e: ApiError, code: string) {
    exists d <- e.details :: d.code == code
  }

  /** errors.Is against a sentinel: equality or the promoted Is method, along the chain. */
  predicate Is(e: Error, target: Sentinel) {
    match e
    case Api(_, api, _, _) => HasCode(api, WireCode(target))
    case Code(s) => s == target
    case Other(_) => false
    case Wrap(_, inner) => Is(inner, target)
  }

  function WrapAll(contexts: seq<string>, e: Error): Error {
    if contexts == [] then e else Wrap(contexts[0], WrapAll(contexts[1..], e))
  }

  predicate IsRetryable(e: Error) {
    if AsType(e, RateLimit).Some? then true
    else if AsType(e, Server).Some? then true
    else if AsType(e, Auth).Some? then false
    else if AsType(e, NotFound).Some? then false
    else if AsType(e, SCAChallenge).Some? then false
    else if AsType(e, Base).Some? then false
    else true
  }

  // ----- What callers can rely on -----

  lemma {:induction false} AsTypeThroughWraps(contexts: seq<string>, e: Error, kind: Kind)
    ensures AsType(WrapAll(contexts, e), kind) == AsType(e, kind)
  {
    if contexts != [] { AsTypeThroughWraps(contexts[1..], e, kind); }
  }

  /** Through any wraps, a response is retried exactly when its error is Transient or its status is
      400; the 400 is the one divergence between the retry decision and the reported family. */
  lemma {:induction false} RetryDecision(contexts: seq<string>, r: Response)
    ensures var e := WrapAll(contexts, ErrorOf(r));
            && (IsRetryable(e) <==> FamilyOf(ErrorOf(r).kind) == Transient || r.status == 400)
            && (FamilyOf(ErrorOf(r).kind) == Transient <==> r.status == 429 || r.status >= 500)
  {
    forall kind
      ensures AsType(WrapAll(contexts, ErrorOf(r)), kind) == AsType(ErrorOf(r), kind)
    {
      AsTypeThroughWraps(contexts, ErrorOf(r), kind);
    }
  }

  /** An error without a typed API error in its chain, such as a network failure, is retried. */
  lemma {:induction false} UntypedRetried(contexts: seq<string>, text: string)
    ensures IsRetryable(WrapAll(contexts, Other(text)))
  {
    forall kind
      ensures AsType(WrapAll(contexts, Other(text)), kind).None?
    {
      AsTypeThroughWraps(contexts, Other(text), kind);
    }
  }

  /** Through any wraps, a sentinel matches exactly when the body carried its code, whatever type the
      status and headers select. */
  lemma {:induction false} SentinelMatchesCode(contexts: seq<string>, r: Response, s: Sentinel)
    ensures Is(WrapAll(contexts, ErrorOf(r)), s)
       <==> exists i :: 0 <= i < |r.envelope| && r.envelope[i].code == WireCode(s)
  {
    if contexts != [] {
      SentinelMatchesCode(contexts[1..], r, s);
    } else {
      assert forall d <- r.envelope :: exists i :: 0 <= i < |r.envelope| && r.envelope[i] == d;
    }
  }

  /** Which kind of error a status gives; a 403 is a challenge exactly when it carries a two-factor
      header. Whatever the kind, the error carries everything the response says. */
  lemma KindByStatus(r: Response)
    ensures var kind, sca := ErrorOf(r).kind, r.headers.approvalResult != "" || r.headers.approval != "";
            && (kind == RateLimit <==> r.status == 429)
            && (kind == SCAChallenge <==> r.status == 403 && sca)
            && (kind == Auth <==> r.status == 401 || (r.status == 403 && !sca))
            && (kind == BadRequest <==> r.status == 400)
            && (kind == NotFound <==> r.status == 404)
            && (kind == Server <==> r.status >= 500)
            && (kind == Base <==> r.status !in {400, 401, 403, 404, 429} && r.status < 500)
    ensures var e := ErrorOf(r);
            && e.api.status == r.status && e.api.body == r.body && e.api.headers == r.headers
            && e.api.details == r.envelope && e.api.message == Message(r)
            && e.retryAfter == r.retryAfter && e.limitedBy == r.limitedBy
  {
  }

  lemma {:induction false} JoinAppend(parts: seq<string>, last: string, separator: string)
    ensures Join(parts + [last], separator) == (if parts == [] then "" else Join(parts, separator) + separator) + last
  {
    if parts != [] {
      JoinAppend(parts[1..], last, separator);
      assert (parts + [last])[1..] == parts[1..] + [last];
      if |parts| == 1 { assert parts[1..] == []; }
    }
  }

  /** The message is the body when there are no details, and each further detail adds its code and text
      to it. */
  lemma MessageGrows(r: Response, d: Detail)
    ensures r.envelope == [] ==> Message(r) == r.body
    ensures Message(r.(envelope := r.envelope + [d]))
         == (if r.envelope == [] then "" else Message(r) + "; ") + (d.code + ": " + d.message)
  {
    assert Entries(r.envelope + [d]) == Entries(r.envelope) + [Entry(d)];
    JoinAppend(Entries(r.envelope), Entry(d), "; ");
    hide Join;
  }

  predicate HasEntry(r: Response, code: string) { exists d <- r.envelope :: d.code == code }

  /** The sentinels by the codes on the wire. */
  lemma SentinelsByCode(contexts: seq<string>, r: Response)
    ensures var e := WrapAll(contexts, ErrorOf(r));
            && (Is(e, NotValid) <==> HasEntry(r, "not.valid"))
            && (Is(e, InvalidValue) <==> HasEntry(r, "invalid_value"))
            && (Is(e, ParameterMissing) <==> HasEntry(r, "parameter_missing"))
            && (Is(e, ParameterInvalid) <==> HasEntry(r, "parameter_invalid"))
            && (Is(e, InvalidRequest) <==> HasEntry(r, "invalid_request"))
            && (Is(e, Unauthorized) <==> HasEntry(r, "unauthorized"))
            && (Is(e, Forbidden) <==> HasEntry(r, "forbidden"))
            && (Is(e, ResourceNotFound) <==> HasEntry(r, "resource_not_found"))
            && (Is(e, OperationNotSupported) <==> HasEntry(r, "operation_not_supported"))
            && (Is(e, RateLimitExceeded) <==> HasEntry(r, "rate_limit_exceeded"))
            && (Is(e, SystemError) <==> HasEntry(r, "system_error"))
  {
    hide Is, HasEntry, ErrorOf, WrapAll;
    forall s
      ensures Is(WrapAll(contexts, ErrorOf(r)), s) <==> HasEntry(r, WireCode(s))
    {
      SentinelByCode(contexts, r, s);
    }
  }

  lemma SentinelByCode(contexts: seq<string>, r: Response, s: Sentinel)
    ensures Is(WrapAll(contexts, ErrorOf(r)), s) <==> HasEntry(r, WireCode(s))
  {
    hide Is, ErrorOf, WrapAll, WireCode;
    SentinelMatchesCode(contexts, r, s);
    if d :| d in r.envelope && d.code == WireCode(s) {
      var i :| 0 <= i < |r.envelope| && r.envelope[i] == d;
    }
  }
}

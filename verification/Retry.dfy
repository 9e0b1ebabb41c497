/** The retry executor: its configuration, one call as a run of attempts, and the client that owns
    it. The loop itself lives in go-retry; it is written here from the contract its configuration
    relies on. Durations are nanoseconds. */
module Retry {
  import opened Wrappers
  import opened ApiErrors
  import opened RetryAfter

  const DEFAULT_TIMEOUT: int := 30 * SECOND
  const DEFAULT_MAX_RETRIES: int := 3
  const DEFAULT_BACKOFF_START: int := SECOND / 10
  const DEFAULT_BACKOFF_CAP: int := 5 * SECOND

  // ----- Configuration -----

  /** The options that reach the retry executor; WithHTTPClient(false) is a nil client. */
  datatype Setting =
    | WithRetry(maxRetries: int, minDelay: int, maxDelay: int)
    | WithTimeout(timeout: int)
    | WithHTTPClient(present: bool)
    | Unrelated

  datatype Settings = Settings(timeout: int, maxRetries: int, retryMin: int, retryMax: int, httpClient: bool)

  datatype Config = Config(maxAttempts: int, initialDelay: int, maxDelay: int)

  const NO_SETTINGS := Settings(0, 0, 0, 0, false)

  function Apply(option: Setting, s: Settings): Settings {
    match option
    case WithRetry(n, lo, hi) => s.(maxRetries := n, retryMin := lo, retryMax := hi)
    case WithTimeout(t) => s.(timeout := t)
    case WithHTTPClient(present) => s.(httpClient := present)
    case Unrelated => s
  }

  function ApplyAll(options: seq<Setting>, s: Settings): Settings {
    if options == [] then s else Apply(options[|options| - 1], ApplyAll(options[..|options| - 1], s))
  }

  function OrDefault(value: int, default: int): int { if value > 0 then value else default }

  function ConfigOf(s: Settings): Config {
    Config(WrapInt64(OrDefault(s.maxRetries, DEFAULT_MAX_RETRIES) + 1),
           OrDefault(s.retryMin, DEFAULT_BACKOFF_START),
           OrDefault(s.retryMax, DEFAULT_BACKOFF_CAP))
  }

  /** The timeout of an attempt; an injected HTTP client brings its own. */
  function TimeoutOf(s: Settings): Option<int> {
    if s.httpClient then None else Some(OrDefault(s.timeout, DEFAULT_TIMEOUT))
  }

  /** The configuration a client can end up with has positive delays and, with its own HTTP client, a
      positive timeout; it allows at least one retry unless maxRetries is the largest int64, whose
      successor wraps around. */
  lemma ConfigBounds(s: Settings)
    requires s.maxRetries < TWO_63
    ensures ConfigOf(s).initialDelay > 0 && ConfigOf(s).maxDelay > 0
    ensures TimeoutOf(s).Some? <==> !s.httpClient
    ensures TimeoutOf(s).Some? ==> TimeoutOf(s).value > 0
                                   && (s.timeout <= 0 ==> TimeoutOf(s) == Some(DEFAULT_TIMEOUT))
    ensures ConfigOf(s).maxAttempts >= 2 <==> s.maxRetries != TWO_63 - 1
    ensures ConfigOf(s).maxAttempts >= 2 ==> ConfigOf(s).maxAttempts == OrDefault(s.maxRetries, DEFAULT_MAX_RETRIES) + 1
  {
  }

  /** Without options: four attempts in all, 0.1 s to 5 s between them, 30 s each. */
  lemma Defaults()
    ensures ConfigOf(NO_SETTINGS) == Config(4, 100_000_000, 5_000_000_000)
    ensures TimeoutOf(NO_SETTINGS) == Some(30_000_000_000)
  {
  }

  /** Of several WithRetry options the last decides alone, whatever else is set around it; each of its
      values that is not positive stands for the default. */
  lemma {:induction false} LastRetryWins(before: seq<Setting>, last: Setting, after: seq<Setting>)
    requires last.WithRetry? && last.maxRetries < TWO_63 - 1 && forall o <- after :: !o.WithRetry?
    ensures var c := ConfigOf(ApplyAll(before + [last] + after, NO_SETTINGS));
            && c.maxAttempts == (if last.maxRetries > 0 then last.maxRetries + 1 else 4)
            && c.initialDelay == (if last.minDelay > 0 then last.minDelay else 100_000_000)
            && c.maxDelay == (if last.maxDelay > 0 then last.maxDelay else 5_000_000_000)
    decreases |after|
  {
    LastApart(before, last, after);
    if after != [] { LastRetryWins(before, last, after[..|after| - 1]); }
  }

  lemma LastApart(before: seq<Setting>, last: Setting, after: seq<Setting>)
    ensures var options := before + [last] + after;
            if after == [] then options[..|options| - 1] == before && options[|options| - 1] == last
            else options[..|options| - 1] == before + [last] + after[..|after| - 1]
                 && options[|options| - 1] == after[|after| - 1]
  {
  }

  /** Likewise for the timeout, which applies only without an injected HTTP client. */
  lemma {:induction false} LastTimeoutWins(before: seq<Setting>, last: Setting, after: seq<Setting>)
    requires last.WithTimeout? && forall o <- after :: !o.WithTimeout?
    requires forall o <- before + after :: !o.WithHTTPClient?
    ensures TimeoutOf(ApplyAll(before + [last] + after, NO_SETTINGS))
         == Some(if last.timeout > 0 then last.timeout else 30_000_000_000)
    decreases |after|
  {
    LastApart(before, last, after);
    if after != [] {
      LastTimeoutWins(before, last, after[..|after| - 1]);
      assert after[|after| - 1] in before + after;
    } else {
      assert before + [] == before;
      NoClient(before);
    }
  }

  lemma {:induction false} NoClient(options: seq<Setting>)
    requires forall o <- options :: !o.WithHTTPClient?
    ensures !ApplyAll(options, NO_SETTINGS).httpClient
  {
    if options != [] { NoClient(options[..|options| - 1]); }
  }

  // ----- One call as a run of attempts -----

  datatype Outcome = Answer(response: Response) | Failure(text: string)

  /** What the environment does at attempt i: its outcome, how long it takes, the backoff the
      executor would choose after it, and whether the caller's context ends in the wait after it,
      and how far into it. */
  datatype Turn = Turn(outcome: Outcome, duration: int, backoff: int, cancelled: Option<int>)

  type Environment = nat -> Turn

  datatype Attempt = Attempt(number: nat, result: Result<Response, Error>, duration: int)

  datatype Run = Run(attempts: seq<Attempt>, waits: seq<int>, outcome: Result<Response, Error>)

  function Execute(outcome: Outcome): Result<Response, Error> {
    match outcome
    case Failure(text) => Err(Wrap("do", Other(text)))
    case Answer(r) => if 200 <= r.status < 300 then Ok(r) else Err(ErrorOf(r))
  }

  function WaitAfter(c: Config, e: Error, backoff: int): int {
    var honored := HonoredDelay(e, c.maxDelay);
    if honored > 0 then honored else backoff
  }

  /** The part of a wait that passes before the context ends at time t. */
  function Cut(t: int, wait: int): int {
    if t <= 0 then 0 else Min(t, wait)
  }

  const CONTEXT_DONE: Error := Other("context done")

  /** The run from attempt i (counted from 0) on. */
  function RunFrom(c: Config, env: Environment, i: nat): Run
    requires i < c.maxAttempts
    decreases c.maxAttempts - i
  {
    var turn := env(i);
    var result := Execute(turn.outcome);
    var attempt := Attempt(i + 1, result, turn.duration);
    if result.Ok? || !IsRetryable(result.error) || i + 1 >= c.maxAttempts then Run([attempt], [], result)
    else
      var wait := WaitAfter(c, result.error, turn.backoff);
      match turn.cancelled
      case Some(t) => Run([attempt], [Cut(t, wait)], Err(CONTEXT_DONE))
      case None =>
        var rest := RunFrom(c, env, i + 1);
        Run([attempt] + rest.attempts, [wait] + rest.waits, rest.outcome)
  }

  ghost predicate WellBehaved(c: Config, env: Environment) {
    c.maxDelay > 0 && forall i: nat :: 0 <= env(i).backoff <= c.maxDelay
  }

  predicate RetriedAfter(turn: Turn) {
    var result := Execute(turn.outcome);
    result.Err? && IsRetryable(result.error) && turn.cancelled.None?
  }

  /** The context ends in the wait after attempt k. */
  predicate CutShort(c: Config, env: Environment, k: nat) {
    var result := Execute(env(k).outcome);
    result.Err? && IsRetryable(result.error) && k + 1 < c.maxAttempts && env(k).cancelled.Some?
  }

  lemma WaitBounded(c: Config, env: Environment, i: nat)
    requires WellBehaved(c, env) && Execute(env(i).outcome).Err?
    ensures 0 <= WaitAfter(c, Execute(env(i).outcome).error, env(i).backoff) <= c.maxDelay
  {
    match env(i).outcome
    case Failure(text) =>
    case Answer(r) => HonoredDelayBounded([], r, c.maxDelay);
  }

  function AttemptAt(env: Environment, k: nat): Attempt {
    Attempt(k + 1, Execute(env(k).outcome), env(k).duration)
  }

  /** The wait that the failure of attempt k asks for. */
  function WaitAt(c: Config, env: Environment, k: nat): int {
    match Execute(env(k).outcome)
    case Ok(_) => 0
    case Err(e) => WaitAfter(c, e, env(k).backoff)
  }

  /** In every run: between one and maxAttempts attempts, in order; after each but the last the wait
      that its error asks for, within the configured maximum; after the last a part of that wait, if
      and only if the context ends in it. */
  lemma {:induction false} RunShape(c: Config, env: Environment, i: nat)
    requires i < c.maxAttempts && WellBehaved(c, env)
    ensures var run := RunFrom(c, env, i);
            var n := |run.attempts|;
            && 1 <= n <= c.maxAttempts - i
            && |run.waits| == (if CutShort(c, env, i + n - 1) then n else n - 1)
            && (forall k: nat :: i <= k < i + n ==> run.attempts[k - i] == AttemptAt(env, k))
            && (forall k: nat :: i <= k < i + n - 1 ==> run.waits[k - i] == WaitAt(c, env, k))
            && (|run.waits| == n ==>
                  run.waits[n - 1] == Cut(env(i + n - 1).cancelled.value, WaitAt(c, env, i + n - 1)))
            && (forall w <- run.waits :: 0 <= w <= c.maxDelay)
    decreases c.maxAttempts - i
  {
    hide Execute, IsRetryable, WaitAfter;
    if CutShort(c, env, i) {
      WaitBounded(c, env, i);
    } else if RetriedAfter(env(i)) && i + 1 < c.maxAttempts {
      WaitBounded(c, env, i);
      RunShape(c, env, i + 1);
    }
  }

  /** What a turn's outcome asks for, by its status alone: a transport failure, a 429, a 5xx and a 400
      ask for another attempt. */
  predicate AsksAgain(o: Outcome) {
    o.Failure? || o.response.status == 429 || o.response.status == 400 || o.response.status >= 500
  }

  /** The wait that comes before it: the server's hint where a 429 carries one, up to the maximum, and
      the backoff otherwise. */
  function Asked(turn: Turn, maxDelay: int): int {
    if turn.outcome.Answer? && turn.outcome.response.status == 429 && turn.outcome.response.retryAfter > 0 then
      if turn.outcome.response.retryAfter < maxDelay then turn.outcome.response.retryAfter else maxDelay
    else turn.backoff
  }

  lemma ExecuteIs(o: Outcome)
    ensures var r := Execute(o);
            && (r.Ok? <==> o.Answer? && 200 <= o.response.status <= 299)
            && (r.Ok? ==> r.value == o.response)
            && (r.Err? ==> (IsRetryable(r.error) <==> AsksAgain(o)))
            && (r.Err? && o.Answer? ==> r.error.Api? && r.error.api.status == o.response.status)
            && (o.Answer? && o.response.status == 429 ==> r.error.kind == RateLimit
                                                          && r.error.retryAfter == o.response.retryAfter)
            && (r.Err? && !(o.Answer? && o.response.status == 429) ==> AsType(r.error, RateLimit).None?)
  {
    match o
    case Failure(text) =>
      UntypedRetried(["do"], text);
      assert ["do"][1..] == [];
      assert WrapAll(["do"], Other(text)) == Wrap("do", Other(text));
    case Answer(r) =>
      RetryDecision([], r);
      assert WrapAll([], ErrorOf(r)) == ErrorOf(r);
      hide IsRetryable;
  }

  lemma AskedIsWaited(c: Config, env: Environment, k: nat)
    requires c.maxDelay > 0 && Execute(env(k).outcome).Err?
    ensures WaitAt(c, env, k) == Asked(env(k), c.maxDelay)
    ensures var d := HonoredDelay(Execute(env(k).outcome).error, c.maxDelay);
            if env(k).outcome.Answer? && env(k).outcome.response.status == 429 && env(k).outcome.response.retryAfter > 0
            then d == Asked(env(k), c.maxDelay) > 0 else d <= 0
  {
    ExecuteIs(env(k).outcome);
    hide Execute, IsRetryable;
  }

  /** The waits of a run in terms of the responses: after each attempt but the last the wait it asks
      for; after the last one the part of it that passes before the context ends, exactly when the
      attempt asks for another, the budget has one and the context ends. */
  lemma RunWaits(c: Config, env: Environment, i: nat, k: nat)
    requires i < c.maxAttempts && WellBehaved(c, env)
    ensures var run := RunFrom(c, env, i);
            var n := |run.attempts|;
            && n > 0
            && |run.waits| == (if AsksAgain(env(i + n - 1).outcome) && i + n < c.maxAttempts
                                  && env(i + n - 1).cancelled.Some? then n else n - 1)
            && (k < |run.waits| ==>
                  var asked := Asked(env(i + k), c.maxDelay);
                  if k < n - 1 then run.waits[k] == asked
                  else
                    var t := env(i + k).cancelled.value;
                    run.waits[k] == if t <= 0 then 0 else if t < asked then t else asked)
  {
    RunShape(c, env, i);
    var run := RunFrom(c, env, i);
    var n := |run.attempts|;
    ExecuteIs(env(i + n - 1).outcome);
    if k < n - 1 {
      AttemptHappens(c, env, i, i + n - 1);
      assert RetriedAfter(env(i + k));
    }
    if k < |run.waits| { AskedIsWaited(c, env, i + k); }
    hide Execute, IsRetryable, WaitAt, Asked, AsksAgain, RunFrom;
  }

  /** Attempt number n + 1 happens exactly when the budget allows it and every attempt before it
      failed retryably without the caller giving up. */
  lemma {:induction false} AttemptHappens(c: Config, env: Environment, i: nat, n: nat)
    requires i < c.maxAttempts && n >= i
    ensures |RunFrom(c, env, i).attempts| > n - i
       <==> n < c.maxAttempts && forall k :: i <= k < n ==> RetriedAfter(env(k))
    decreases c.maxAttempts - i
  {
    hide Execute, IsRetryable;
    if n > i && RetriedAfter(env(i)) && i + 1 < c.maxAttempts { AttemptHappens(c, env, i + 1, n); }
  }

  /** In terms of the responses: a run gets to attempt n + 1 exactly when the budget allows it and
      every attempt before it met a transport failure, a 429, a 5xx or a 400, with the context going on. */
  lemma AttemptsByStatus(c: Config, env: Environment, n: nat)
    requires 0 < c.maxAttempts
    ensures |RunFrom(c, env, 0).attempts| > n
       <==> n < c.maxAttempts && forall k :: 0 <= k < n ==> AsksAgain(env(k).outcome) && env(k).cancelled.None?
  {
    AttemptHappens(c, env, 0, n);
    hide RunFrom, Execute, IsRetryable;
    forall k: nat
      ensures RetriedAfter(env(k)) <==> AsksAgain(env(k).outcome) && env(k).cancelled.None?
    {
      ExecuteIs(env(k).outcome);
    }
  }

  /** A run returns the end of the caller's context exactly when that came in the wait after its last
      attempt, and otherwise what the last attempt gave. */
  lemma {:induction false} RunOutcome(c: Config, env: Environment, i: nat)
    requires i < c.maxAttempts
    ensures var run := RunFrom(c, env, i);
            var n := |run.attempts|;
            && n > 0
            && run.outcome == if CutShort(c, env, i + n - 1) then Err(CONTEXT_DONE) else run.attempts[n - 1].result
    decreases c.maxAttempts - i
  {
    hide Execute, IsRetryable, WaitAfter;
    if RetriedAfter(env(i)) && i + 1 < c.maxAttempts { RunOutcome(c, env, i + 1); }
  }

  // ----- Time -----

  function Sum(xs: seq<int>): int {
    if xs == [] then 0 else xs[0] + Sum(xs[1..])
  }

  function Durations(attempts: seq<Attempt>): seq<int> {
    if attempts == [] then [] else [attempts[0].duration] + Durations(attempts[1..])
  }

  function Elapsed(run: Run): int { Sum(Durations(run.attempts)) + Sum(run.waits) }

  /** One timeout for every attempt and one maximal delay between two attempts. */
  function Budget(attempts: int, timeout: int, delay: int): int {
    attempts * timeout + (attempts - 1) * delay
  }

  lemma BudgetSteps(attempts: int, timeout: int, delay: int)
    requires attempts >= 1 && timeout >= 0 && delay >= 0
    ensures Budget(attempts, timeout, delay) == Budget(attempts - 1, timeout, delay) + timeout + delay
    ensures Budget(attempts, timeout, delay) >= timeout
  {
    assert (attempts - 1) * timeout >= 0 && (attempts - 1) * delay >= 0;
  }

  lemma SumStep(x: int, xs: seq<int>)
    ensures Sum([x] + xs) == x + Sum(xs) && Sum([x]) == x
  {
    assert ([x] + xs)[1..] == xs && [x][1..] == [];
  }

  lemma DurationsStep(a: Attempt, rest: seq<Attempt>)
    ensures Sum(Durations([a] + rest)) == a.duration + Sum(Durations(rest))
    ensures Sum(Durations([a])) == a.duration
  {
    assert ([a] + rest)[1..] == rest && [a][1..] == [];
    SumStep(a.duration, Durations(rest));
  }

  /** When the timeout bounds every attempt, the whole call stays within its budget, a wait that the
      context cuts short included. */
  lemma {:induction false} ElapsedBound(c: Config, env: Environment, i: nat, timeout: int)
    requires i < c.maxAttempts && WellBehaved(c, env)
    requires timeout >= 0 && forall k: nat :: env(k).duration <= timeout
    ensures Elapsed(RunFrom(c, env, i)) <= Budget(c.maxAttempts - i, timeout, c.maxDelay)
    decreases c.maxAttempts - i
  {
    hide Budget, Execute, IsRetryable, WaitAfter, Cut, Sum, Durations;
    var a := Attempt(i + 1, Execute(env(i).outcome), env(i).duration);
    NothingSpent();
    BudgetSteps(c.maxAttempts - i, timeout, c.maxDelay);
    DurationsStep(a, []);
    if RetriedAfter(env(i)) && i + 1 < c.maxAttempts {
      var rest := RunFrom(c, env, i + 1);
      WaitBounded(c, env, i);
      ElapsedBound(c, env, i + 1, timeout);
      DurationsStep(a, rest.attempts);
      SumStep(WaitAfter(c, a.result.error, env(i).backoff), rest.waits);
    } else if CutShort(c, env, i) {
      WaitBounded(c, env, i);
      BudgetSteps(c.maxAttempts - i - 1, timeout, c.maxDelay);
      var wait := WaitAfter(c, a.result.error, env(i).backoff);
      CutBounded(env(i).cancelled.value, wait);
      SumStep(Cut(env(i).cancelled.value, wait), []);
    }
  }

  lemma CutBounded(t: int, wait: int)
    ensures 0 <= wait ==> 0 <= Cut(t, wait) <= wait
  {
  }

  lemma NothingSpent()
    ensures Sum([]) == 0
  {
  }

  /** The bound is attained: by an environment that fails at the timeout and waits the maximum. */
  lemma {:induction false} ElapsedAttained(c: Config, env: Environment, i: nat, timeout: int)
    requires i < c.maxAttempts
    requires forall k: nat :: env(k) == Turn(Failure("timeout"), timeout, c.maxDelay, None)
    ensures Elapsed(RunFrom(c, env, i)) == (c.maxAttempts - i) * timeout + (c.maxAttempts - i - 1) * c.maxDelay
    decreases c.maxAttempts - i
  {
    var a := Attempt(i + 1, Execute(env(i).outcome), env(i).duration);
    ExecuteIs(env(i).outcome);
    NothingSpent();
    DurationsStep(a, []);
    if i + 1 < c.maxAttempts {
      BackoffWaited(c, env, i);
      hide Execute, IsRetryable, WaitAfter, Sum, Durations;
      var rest := RunFrom(c, env, i + 1);
      ElapsedAttained(c, env, i + 1, timeout);
      DurationsStep(a, rest.attempts);
      SumStep(c.maxDelay, rest.waits);
      OneMoreTurn(c.maxAttempts - i - 1, timeout, c.maxDelay);
    }
  }

  lemma BackoffWaited(c: Config, env: Environment, k: nat)
    requires env(k).outcome.Failure?
    ensures WaitAfter(c, Execute(env(k).outcome).error, env(k).backoff) == env(k).backoff
  {
    ExecuteIs(env(k).outcome);
    hide Execute, IsRetryable;
  }

  lemma OneMoreTurn(n: int, timeout: int, delay: int)
    ensures (n + 1) * timeout + n * delay == timeout + delay + (n * timeout + (n - 1) * delay)
  {
    assert (n + 1) * timeout == n * timeout + timeout;
    assert n * delay == (n - 1) * delay + delay;
  }

  /** With the default configuration that is 2 minutes 15 seconds. */
  lemma DefaultElapsed(env: Environment)
    requires WellBehaved(ConfigOf(NO_SETTINGS), env)
    requires TimeoutOf(NO_SETTINGS).Some? && forall k: nat :: env(k).duration <= TimeoutOf(NO_SETTINGS).value
    ensures Elapsed(RunFrom(ConfigOf(NO_SETTINGS), env, 0)) <= 135 * SECOND
  {
    ElapsedBound(ConfigOf(NO_SETTINGS), env, 0, DEFAULT_TIMEOUT);
  }

  /** A request the server keeps answering with 400 is sent maxAttempts times, although the family of
      the error returned in the end, Rejection, says that retrying is no use. */
  lemma {:induction false} BadRequestRetried(c: Config, env: Environment, i: nat)
    requires i < c.maxAttempts
    requires forall k: nat :: env(k).outcome.Answer? && env(k).outcome.response.status == 400 && env(k).cancelled.None?
    ensures var run := RunFrom(c, env, i);
            && |run.attempts| == c.maxAttempts - i
            && run.outcome.Err? && run.outcome.error.Api?
            && FamilyOf(run.outcome.error.kind) == Rejection
    decreases c.maxAttempts - i
  {
    RetryDecision([], env(i).outcome.response);
    assert ErrorOf(env(i).outcome.response).kind == BadRequest;
    assert WrapAll([], ErrorOf(env(i).outcome.response)) == ErrorOf(env(i).outcome.response);
    assert Execute(env(i).outcome) == Err(ErrorOf(env(i).outcome.response));
    assert RetriedAfter(env(i));
    hide IsRetryable, ErrorOf, Execute;
    if i + 1 < c.maxAttempts { BadRequestRetried(c, env, i + 1); }
  }

  // ----- The client -----

  datatype LogEntry = Tried(attempt: nat, status: int, failed: bool) | Honored(attempt: nat, delay: int)

  function AttemptEntry(i: nat, outcome: Outcome): LogEntry {
    match outcome
    case Failure(_) => Tried(i + 1, 0, true)
    case Answer(r) => Tried(i + 1, r.status, false)
  }

  /** What the run from attempt i on reports to the logger. */
  function LogFrom(c: Config, env: Environment, i: nat): seq<LogEntry>
    requires i < c.maxAttempts
    decreases c.maxAttempts - i
  {
    var turn := env(i);
    var result := Execute(turn.outcome);
    [AttemptEntry(i, turn.outcome)] +
    if result.Ok? || !IsRetryable(result.error) || i + 1 >= c.maxAttempts then []
    else
      var honored := HonoredDelay(result.error, c.maxDelay);
      (if honored > 0 then [Honored(i + 1, honored)] else [])
      + if turn.cancelled.Some? then [] else LogFrom(c, env, i + 1)
  }

  function Extend(attempts: seq<Attempt>, waits: seq<int>, run: Run): Run {
    Run(attempts + run.attempts, waits + run.waits, run.outcome)
  }

  lemma ExtendNothing(run: Run)
    ensures Extend([], [], run) == run
  {
    assert [] + run.attempts == run.attempts && [] + run.waits == run.waits;
  }

  lemma RunStep(c: Config, env: Environment, i: nat, attempts: seq<Attempt>, waits: seq<int>)
    requires i < c.maxAttempts
    ensures var turn, a := env(i), attempts + [AttemptAt(env, i)];
            var result := Execute(turn.outcome);
            Extend(attempts, waits, RunFrom(c, env, i)) ==
            if result.Ok? || !IsRetryable(result.error) || i + 1 >= c.maxAttempts then Run(a, waits, result)
            else
              var wait := WaitAfter(c, result.error, turn.backoff);
              match turn.cancelled
              case Some(t) => Run(a, waits + [Cut(t, wait)], Err(CONTEXT_DONE))
              case None => Extend(a, waits + [wait], RunFrom(c, env, i + 1))
  {
    hide Execute, IsRetryable, WaitAfter;
  }

  lemma LogStep(c: Config, env: Environment, i: nat, log: seq<LogEntry>)
    requires i < c.maxAttempts
    ensures var turn, l := env(i), log + [AttemptEntry(i, env(i).outcome)];
            var result := Execute(turn.outcome);
            log + LogFrom(c, env, i) ==
            if result.Ok? || !IsRetryable(result.error) || i + 1 >= c.maxAttempts then l
            else
              var honored := HonoredDelay(result.error, c.maxDelay);
              var m := if honored > 0 then l + [Honored(i + 1, honored)] else l;
              if turn.cancelled.Some? then m else m + LogFrom(c, env, i + 1)
  {
    hide Execute, IsRetryable, HonoredDelay;
    var result, first := Execute(env(i).outcome), AttemptEntry(i, env(i).outcome);
    if result.Err? && IsRetryable(result.error) && i + 1 < c.maxAttempts {
      var honored := HonoredDelay(result.error, c.maxDelay);
      Grouped(log, first, if honored > 0 then [Honored(i + 1, honored)] else [],
              if env(i).cancelled.Some? then [] else LogFrom(c, env, i + 1));
    }
  }

  lemma Grouped(log: seq<LogEntry>, first: LogEntry, mid: seq<LogEntry>, rest: seq<LogEntry>)
    ensures log + ([first] + (mid + rest)) == log + [first] + mid + rest
    ensures log + [first] + [] == log + [first] && log + [first] + mid + [] == log + [first] + mid
    ensures log + [first] + [] + rest == log + [first] + rest
  {
  }

  function AttemptsLogged(log: seq<LogEntry>): seq<LogEntry> {
    if log == [] then [] else (if log[0].Tried? then [log[0]] else []) + AttemptsLogged(log[1..])
  }

  /** The entries of n attempts from attempt i on. */
  function AttemptEntries(env: Environment, i: nat, n: nat): seq<LogEntry> {
    seq(n, k requires 0 <= k => AttemptEntry(i + k, env(i + k).outcome))
  }

  lemma LoggedFirst(first: LogEntry, rest: seq<LogEntry>)
    ensures first.Tried? ==> AttemptsLogged([first] + rest) == [first] + AttemptsLogged(rest)
    ensures first.Honored? ==> AttemptsLogged([first] + rest) == AttemptsLogged(rest)
    ensures AttemptsLogged([]) == []
  {
    assert ([first] + rest)[1..] == rest;
    assert [] + AttemptsLogged(rest) == AttemptsLogged(rest);
  }

  function Optional(e: Option<LogEntry>): seq<LogEntry> { if e.Some? then [e.value] else [] }

  lemma LoggedOnce(first: LogEntry, mid: Option<LogEntry>, rest: seq<LogEntry>)
    requires first.Tried? && (mid.Some? ==> mid.value.Honored?)
    ensures AttemptsLogged([first] + (Optional(mid) + rest)) == [first] + AttemptsLogged(rest)
  {
    hide AttemptsLogged;
    LoggedFirst(first, Optional(mid) + rest);
    if mid.Some? {
      LoggedFirst(mid.value, rest);
    } else {
      assert [] + rest == rest;
    }
  }

  lemma EntriesStep(env: Environment, i: nat, n: nat)
    ensures AttemptEntries(env, i, n + 1) == [AttemptEntry(i, env(i).outcome)] + AttemptEntries(env, i + 1, n)
    ensures AttemptEntries(env, i + 1, 0) == []
  {
    hide AttemptEntry;
  }

  /** What follows the first attempt and its delay in the log. */
  function RestOfLog(c: Config, env: Environment, i: nat): seq<LogEntry> {
    if RetriedAfter(env(i)) && i + 1 < c.maxAttempts then LogFrom(c, env, i + 1) else []
  }

  lemma LogParts(c: Config, env: Environment, i: nat) returns (mid: Option<LogEntry>)
    requires i < c.maxAttempts
    ensures mid.Some? ==> mid.value.Honored?
    ensures var result := Execute(env(i).outcome);
            var waited := result.Err? && IsRetryable(result.error) && i + 1 < c.maxAttempts;
            mid == if waited && HonoredDelay(result.error, c.maxDelay) > 0
                   then Some(Honored(i + 1, HonoredDelay(result.error, c.maxDelay))) else None
    ensures LogFrom(c, env, i) == [AttemptEntry(i, env(i).outcome)] + (Optional(mid) + RestOfLog(c, env, i))
  {
    hide Execute, IsRetryable, HonoredDelay;
    var result := Execute(env(i).outcome);
    if result.Ok? || !IsRetryable(result.error) || i + 1 >= c.maxAttempts
       || HonoredDelay(result.error, c.maxDelay) <= 0 {
      mid := None;
    } else {
      mid := Some(Honored(i + 1, HonoredDelay(result.error, c.maxDelay)));
    }
  }

  /** The log of a run shows its attempts, all of them and in order. */
  lemma {:induction false} LogShowsAttempts(c: Config, env: Environment, i: nat)
    requires i < c.maxAttempts
    ensures AttemptsLogged(LogFrom(c, env, i)) == AttemptEntries(env, i, |RunFrom(c, env, i).attempts|)
    decreases c.maxAttempts - i
  {
    hide Execute, IsRetryable, AttemptsLogged, AttemptEntry, AttemptEntries, LogFrom;
    var first := AttemptEntry(i, env(i).outcome);
    var mid := LogParts(c, env, i);
    FirstIsAttempt(i, env(i).outcome);
    LoggedOnce(first, mid, RestOfLog(c, env, i));
    LoggedFirst(first, []);
    EntriesStep(env, i, |RunFrom(c, env, i).attempts| - 1);
    if RetriedAfter(env(i)) && i + 1 < c.maxAttempts { LogShowsAttempts(c, env, i + 1); }
  }

  lemma FirstIsAttempt(i: nat, outcome: Outcome)
    ensures AttemptEntry(i, outcome).Tried?
  {
  }

  /** The log entries of attempt i: one for the attempt, and one for the delay before the next if a wait
      follows and a 429 asks for it. */
  function EntriesOf(env: Environment, maxDelay: int, i: nat, waited: bool): seq<LogEntry> {
    var o := env(i).outcome;
    [if o.Answer? then Tried(i + 1, o.response.status, false) else Tried(i + 1, 0, true)]
    + (if waited && o.Answer? && o.response.status == 429 && o.response.retryAfter > 0
       then [Honored(i + 1, Asked(env(i), maxDelay))] else [])
  }

  /** The log of n attempts from attempt i on, w of which are followed by a wait. */
  function LogOf(env: Environment, maxDelay: int, i: nat, n: nat, w: nat): seq<LogEntry>
    decreases n
  {
    if n == 0 then []
    else EntriesOf(env, maxDelay, i, w > 0) + LogOf(env, maxDelay, i + 1, n - 1, if w > 0 then w - 1 else 0)
  }

  lemma LogHead(c: Config, env: Environment, i: nat)
    requires i < c.maxAttempts && c.maxDelay > 0
    ensures LogFrom(c, env, i)
         == EntriesOf(env, c.maxDelay, i, RunFrom(c, env, i).waits != []) + RestOfLog(c, env, i)
  {
    var result := Execute(env(i).outcome);
    if result.Err? { AskedIsWaited(c, env, i); }
    hide Execute, IsRetryable, HonoredDelay, Asked;
    var mid := LogParts(c, env, i);
    var entries := EntriesOf(env, c.maxDelay, i, RunFrom(c, env, i).waits != []);
    Grouped([], AttemptEntry(i, env(i).outcome), Optional(mid), RestOfLog(c, env, i));
  }

  lemma CountsStep(c: Config, env: Environment, i: nat)
    requires i < c.maxAttempts
    ensures var run := RunFrom(c, env, i);
            && run.attempts != []
            && if RetriedAfter(env(i)) && i + 1 < c.maxAttempts then
                 var rest := RunFrom(c, env, i + 1);
                 |run.attempts| == |rest.attempts| + 1 && |run.waits| == |rest.waits| + 1
               else |run.attempts| == 1 && |run.waits| <= 1
  {
    hide Execute, IsRetryable, WaitAfter;
  }

  /** The log of a run is that of its attempts and waits. */
  lemma {:induction false} LogIsOfRun(c: Config, env: Environment, i: nat)
    requires i < c.maxAttempts && c.maxDelay > 0
    ensures LogFrom(c, env, i)
         == LogOf(env, c.maxDelay, i, |RunFrom(c, env, i).attempts|, |RunFrom(c, env, i).waits|)
    decreases c.maxAttempts - i
  {
    hide RunFrom, LogFrom, RetriedAfter, EntriesOf;
    LogHead(c, env, i);
    CountsStep(c, env, i);
    if RetriedAfter(env(i)) && i + 1 < c.maxAttempts {
      LogIsOfRun(c, env, i + 1);
    } else {
      NoLog(env, c.maxDelay, i + 1);
    }
  }

  lemma NoLog(env: Environment, maxDelay: int, i: nat)
    ensures LogOf(env, maxDelay, i, 0, 0) == []
  {
  }

  lemma {:induction false} HonoredIn(env: Environment, maxDelay: int, i: nat, n: nat, w: nat, a: nat, d: int)
    requires w <= n
    ensures Honored(a, d) in LogOf(env, maxDelay, i, n, w) <==>
              && i < a <= i + w && env(a - 1).outcome.Answer?
              && env(a - 1).outcome.response.status == 429 && env(a - 1).outcome.response.retryAfter > 0
              && d == Asked(env(a - 1), maxDelay)
    decreases n
  {
    hide Asked;
    if n > 0 { HonoredIn(env, maxDelay, i + 1, n - 1, if w > 0 then w - 1 else 0, a, d); }
  }

  /** Every delay in the log is the wait that follows its attempt, or the part of it that passed before
      the context ended. */
  lemma HonoredIsWaited(c: Config, env: Environment, a: nat, d: int)
    requires 0 < c.maxAttempts && WellBehaved(c, env) && Honored(a, d) in LogFrom(c, env, 0)
    ensures var run := RunFrom(c, env, 0);
            && 0 < a <= |run.waits|
            && (a < |run.attempts| ==> run.waits[a - 1] == d)
            && (a == |run.attempts| ==> env(a - 1).cancelled.Some? && 0 <= run.waits[a - 1] <= d)
  {
    var run := RunFrom(c, env, 0);
    LogIsOfRun(c, env, 0);
    RunShape(c, env, 0);
    HonoredIn(env, c.maxDelay, 0, |run.attempts|, |run.waits|, a, d);
    hide RunFrom, LogFrom, Execute, IsRetryable, LogOf;
    RunWaits(c, env, 0, a - 1);
  }

  class Logger {
    var entries: seq<LogEntry>

    constructor ()
      ensures entries == []
    {
      entries := [];
    }

    method LogRequest(entry: LogEntry)
      modifies this
      ensures entries == old(entries) + [entry]
    {
      entries := entries + [entry];
    }
  }

  class Client {
    var settings: Settings
    var retryConfig: Config
    var timeout: Option<int>
    const logger: Logger

    constructor (options: seq<Setting>, logger: Logger)
      ensures settings == ApplyAll(options, NO_SETTINGS)
      ensures retryConfig == ConfigOf(settings) && timeout == TimeoutOf(settings)
      ensures this.logger == logger
    {
      var s := NO_SETTINGS;
      for i := 0 to |options|
        invariant s == ApplyAll(options[..i], NO_SETTINGS)
      {
        s := Apply(options[i], s);
        assert options[..i + 1][..i] == options[..i];
      }
      assert options[..|options|] == options;
      settings := s;
      retryConfig := ConfigOf(s);
      timeout := TimeoutOf(s);
      this.logger := logger;
    }

    constructor Copy(c: Client)
      ensures settings == c.settings && retryConfig == c.retryConfig && timeout == c.timeout && logger == c.logger
    {
      settings, retryConfig, timeout, logger := c.settings, c.retryConfig, c.timeout, c.logger;
    }

    method DoRequest(env: Environment) returns (run: Run)
      requires retryConfig.maxAttempts >= 1
      modifies logger
      ensures run == RunFrom(retryConfig, env, 0)
      ensures logger.entries == old(logger.entries) + LogFrom(retryConfig, env, 0)
    {
      var attempts, waits := [], [];
      var i := 0;
      var c := retryConfig;
      ExtendNothing(RunFrom(c, env, 0));
      hide RunFrom, LogFrom, Execute, IsRetryable, HonoredDelay, Extend, AttemptEntry, Cut;
      while true
        invariant 0 <= i < c.maxAttempts
        invariant RunFrom(c, env, 0) == Extend(attempts, waits, RunFrom(c, env, i))
        invariant old(logger.entries) + LogFrom(c, env, 0) == logger.entries + LogFrom(c, env, i)
        decreases c.maxAttempts - i
      {
        var turn := env(i);
        var result := Execute(turn.outcome);
        RunStep(c, env, i, attempts, waits);
        LogStep(c, env, i, logger.entries);
        logger.LogRequest(AttemptEntry(i, turn.outcome));
        attempts := attempts + [Attempt(i + 1, result, turn.duration)];
        if result.Ok? || !IsRetryable(result.error) || i + 1 >= c.maxAttempts {
          return Run(attempts, waits, result);
        }
        var honored := HonoredDelay(result.error, c.maxDelay);
        if honored > 0 {
          logger.LogRequest(Honored(i + 1, honored));
        }
        var wait := if honored > 0 then honored else turn.backoff;
        if turn.cancelled.Some? {
          return Run(attempts, waits + [Cut(turn.cancelled.value, wait)], Err(CONTEXT_DONE));
        }
        waits := waits + [wait];
        i := i + 1;
      }
    }

    /** One attempt, whatever it answers, and the shared client keeps its configuration. */
    method VerifyCredentials(env: Environment) returns (run: Run)
      modifies logger
      ensures run == RunFrom(old(retryConfig).(maxAttempts := 1), env, 0)
      ensures |run.attempts| == 1 && run.waits == [] && run.outcome == Execute(env(0).outcome)
      ensures logger.entries == old(logger.entries) + [AttemptEntry(0, env(0).outcome)]
      ensures retryConfig == old(retryConfig) && timeout == old(timeout) && settings == old(settings)
    {
      var failFast := new Client.Copy(this);
      failFast.retryConfig := failFast.retryConfig.(maxAttempts := 1);
      run := failFast.DoRequest(env);
    }
  }
}

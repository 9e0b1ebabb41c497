# wise-go: a verified model

This project models the parts of the wise-go SDK whose behaviour is hard to see from one function, and proves what
callers can rely on:

- **Money over binary64** (`Binary64`, `Money`, `WireTrip`, `MoneyText`, `Transactions`): wire amounts are IEEE 754
  numbers, rounded to nearest with ties to even (section 4.3.1 of IEEE 754-2019). Rounding is defined on reals and proved
  nearest, exact, odd and monotone; on it rest, for every int64 of cents, the exact set of amounts that survive a trip
  over the wire and the exact set that loses a cent where the code truncates, and the printed form of an amount.
- **Retries** (`ApiErrors`, `RetryAfter`, `Retry`): responses become typed errors, errors decide about retries, a call
  is a run of attempts against an arbitrary environment. `Client` and `Logger` are classes as in the source.
- **At-most-once creation** (`Idempotency`): calls, retries, lost, late and repeated messages, and a server that
  deduplicates by key, as one state machine.
- **Idempotency keys** (`Uuid`): the version-4 UUID made for a balance creation, its text and what it tells apart.
- **Offset pagination** (`Paging`): the listing loop against a listing that changes between requests, and exactly which
  entries it then reads.
- **SCA clearing** (`ScaClearing`): the status/trigger/code/verify protocol against an arbitrary server.
- **Spec drift** (`ResolvePath`, `PathMeaning`, `SpecDrift`): the demand-driven constant propagation of the endpoint
  extractor, what its answers mean on the syntax tree, and the matching of its paths against an OpenAPI document.
- **Timestamps** (`Calendar`, `Timestamps`, `TimestampTexts`): the UTC text sent, the six layouts and all texts they
  read, and the Gregorian calendar.
- **Transfer details** (`TransferDetails`): the missing-details check against the block put on the wire.

`Decimal` (digits) and `Wrappers` (`Option`, `Result`) are shared helpers. Check everything with
`dafny verify dfyconfig.toml`.

Integers are unbounded; where int64 matters (cents, durations, the attempt count) ranges and wrap-around are written
out. A conversion that Go leaves to the platform (float to int64 out of range) takes its result from a parameter,
`other`. Environments, backoffs, clocks and random keys are parameters too.

## Where the code and its documentation differ

The model follows the code.

- README.md:954 and client.go:151-156 say a 400 is not retried. `isRetryableError` has no case for `*BadRequestError`,
  and a struct embedding `APIError` is not itself an `*APIError`, so a 400 is retried (`RetryDecision`,
  `BadRequestRetried`).
- ott.go:209-211 bounds the clearing loop by one round per challenge plus slack. The cleared check stands at the top of
  a round, so five rounds clear at most four challenges (`AtMostFourChallenges`, `FifthVerifyIgnored`).
- client.go:109-113 says Retry-After is honored up to the configured ceiling. Seconds beyond 9223372036 wrap around
  int64 and are honored as something shorter, or not at all (`SecondsHonored`, `WrappedRetryAfter`).
- transfers.go:29 promises the complete result set. An entry that stands behind the next offset at one request and
  before it at the next is never read, though it is listed all the time, unless more than a page of others pushes it
  back at once (`ReadIffNeverSlipsPast`, `ReadIffInSomeWindow`, `ShrinkingLosesAnEntry`).
- quotes.go:470-472 and third_party_transfers.go:297-298 convert without the guard of helpers.go:67-74, so amounts of
  about 9.2e16 and more have no cents of their own (`TruncationDetermined`, `UndeterminedQuote`).
- internal/raw/types.go:163-164 rounds because binary fractions are inexact; quotes.go:553-555 truncates the same kind
  of amount and can lose a cent (`TruncationLosesAtMostOneCent`, `TwentyNineCents`).

## Model

| member | source | states |
|---|---|---|
| Binary64.RoundNearest | internal/raw/types.go:163-168 | the rounding behind every float operation returns a representable value, none is nearer when it is finite, and a tie goes to the even significand |
| Binary64.RoundFiniteExactly | internal/raw/types.go:163-168 | a real rounds to a finite value if and only if its magnitude is under 2^1024 - 2^970, and to infinity else |
| Binary64.RoundExact | quotes.go:549-555 | a value that binary64 holds rounds to itself |
| Binary64.RoundMonotone | internal/raw/types.go:163-168 | rounding never reverses an order |
| Binary64.RoundNeg | internal/raw/types.go:163-168 | rounding is odd |
| Binary64.RoundRelativeError | internal/raw/types.go:163-168 | in the normal range one rounding errs by at most 2^-53 relative to the exact value |
| WireTrip.ProductOfMajor | quotes.go:549-555 | for every int64: the roundings of float64(c)/100*100 give the amount float64(c) holds plus at most one last place, decided by a remainder modulo 25 |
| WireTrip.WireRoundTrip | quotes.go:549-555 | for every int64 of cents, both signs: what rounding and what truncating returns after one trip over the wire, exactly, and when it leaves int64 |
| WireTrip.DecodedAmount | quotes.go:549-551 | for every int64: float64(c) is the nearest amount of 53 bits, c itself if and only if no bit is lost, and the number sent is the one nearest to its hundredth |
| WireTrip.SentIsNearest | quotes.go:549-551 | for every int64: the number sent is the one nearest to c/100 if and only if an integer test on c and its 53-bit significand says that the lost bits do not push it over |
| WireTrip.DecodedAmountBound | quotes.go:549-551 | every amount under 2^53 + 1 cents goes out as the number that the decimal text of c/100 decodes to, and no larger bound does |
| WireTrip.CentsRoundTrip | internal/raw/types.go:163-168 | for every int64: the rounding conversion gives back c on every platform if and only if c has no bit to lose and a test on its significand modulo 25 and its size says so |
| WireTrip.CentsRoundTripBound | helpers_test.go:720-740 | every amount under 3518437208883202 cents survives, and no larger bound up to 2^63 does |
| WireTrip.ValidatedRoundTrip | helpers.go:61-77 | any such amount, in a currency of three capitals, comes back through the validation exactly as it went out |
| WireTrip.TruncationLosesAtMostOneCent | quotes.go:553-555 | under 25*2^48 cents truncation returns c or one cent nearer to zero, and which one, if and only if, from the remainder of the scaled amount; from there on it returns what rounding does |
| WireTrip.TwentyNineCents | quotes.go:470-472 | 29 cents comes back as 28 from the truncating conversion and as 29 from the rounding one |
| Money.TruncationAgainstRounding | third_party_transfers.go:297-298 | on every wire amount, NaN and infinities included: inside int64 the two conversions differ by at most a cent, and agree exactly when the product's fraction is under one half; outside both are the platform's choice |
| Money.TruncationDetermined | quotes.go:470-472 | without the guard a truncated amount is the same on every platform if and only if its hundredfold is at least -2^63 - 1024 and under 2^63 - 512 |
| Money.UndeterminedQuote | quotes.go:470-472 | a quote amount of 10^17 has no cents of its own |
| Money.ToMoneyInRange | helpers.go:53-77 | an amount is accepted exactly when it is finite, at most 9.2e16 units and in a currency of three capitals; its cents then stay within 9.2e18, whatever the platform does out of range |
| Money.CentsMonotone | helpers.go:61-77 | larger wire amounts never give fewer cents |
| Money.CentsOdd | helpers.go:61-77 | the conversion is odd |
| Money.CentsAccurate | helpers.go:61-77 | every accepted amount is within half a cent plus one rounding's relative error of the exact value |
| MoneyText.ParseToString | types.go:70-85 | a parser reads the printed amount back for every int64 but the least, whose text is not an amount |
| MoneyText.ToStringInjective | types.go:70-85 | two amounts print alike only when equal |
| MoneyText.Printed | types.go:70-85 | any other amount prints as its currency, the sign of the whole, the major units and two digits of minor units |
| Transactions.MapTransaction | transactions.go:76-132 | the step-by-step mapping computes Mapped, with its identifiers and texts, error order included |
| Transactions.MappedAmounts | transactions.go:76-132 | an entry maps exactly when date and all amounts are good; amount is the magnitude of total without overflow; credit and refund mean positive, debit means not positive; everything else is that of its own field |
| Transactions.FirstError | transactions.go:76-132 | of several things wrong with an entry the first is reported: date, total, fees, balance, the sides of an exchange |
| Transactions.KindByDetail | transactions.go:201-236 | for every type, exactly the detail types and signs that give it |
| Transactions.MappedIndependent | transactions.go:89-94 | classifying before the range check never shows in the result |
| ApiErrors.NewAPIError | errors.go:443-481 | the loops keep details and message in step with the envelope and choose the kind from status and headers |
| ApiErrors.KindByStatus | errors.go:443-481 | for every kind of error, exactly the statuses and two-factor headers that give it; whatever the kind, the error carries all that the response says |
| ApiErrors.MessageGrows | errors.go:449-462 | the message is the body without details, and each further detail adds "; ", its code and its text |
| ApiErrors.RetryDecision | client.go:157-183 | through any wraps, a response is retried if and only if its family is Transient or its status is 400 |
| ApiErrors.UntypedRetried | client.go:151-156 | an error without a typed API error in its chain is retried |
| ApiErrors.SentinelMatchesCode | errors.go:301-318 | through any wraps a sentinel matches if and only if some envelope entry carries its code |
| ApiErrors.SentinelsByCode | errors.go:173-211 | for each of the eleven sentinels, the wire code it stands for |
| RetryAfter.HonoredDelayBounded | client.go:119-137 | the steered wait lies between 0 and the maximum, and is positive exactly for a 429 with a positive hint |
| RetryAfter.HintIs | helpers.go:106-122 | what every header text asks for: seconds with or without a plus sign, the time until a date, and one second when missing, negative, out of range or neither |
| RetryAfter.SecondsHonored | helpers.go:106-122 | a hint in seconds is honored under every maximum if and only if it is at most 9223372036 |
| RetryAfter.AtoiText | helpers.go:111-113 | a printed number of seconds is read back if and only if it fits int64 |
| RetryAfter.WrappedRetryAfter | helpers.go:111-113 | the text of 18446744074 seconds is honored as 290448384 ns |
| Retry.ConfigBounds | client.go:79-117 | delays and, without an injected HTTP client, the timeout are positive, 30 s by default; at least two attempts are allowed unless maxRetries is the largest int64 |
| Retry.Defaults | client.go:79-117 | without options: 4 attempts, 0.1 s to 5 s between them, 30 s each |
| Retry.LastRetryWins | client.go:74-76 | of several WithRetry options the last one decides alone, whatever stands around it, each value that is not positive standing for its default |
| Retry.LastTimeoutWins | client.go:83-107 | likewise the last timeout, when no HTTP client is injected |
| Retry.RunShape | client.go:364-409 | in every run: 1 to maxAttempts attempts in order, a wait between any two of them, within the maximum, and a part of one after the last exactly when the context ends there |
| Retry.RunWaits | client.go:119-137 | those waits by the responses: the smaller of Retry-After and the maximum after a 429 that has one, the backoff after any other failure, and the elapsed part of the same when the context ends in the last |
| Retry.HonoredIsWaited | client.go:119-137 | every delay in the log is the wait that follows its attempt, or the part of it that passed |
| Retry.AttemptHappens | client.go:364-409 | attempt n+1 happens if and only if the budget allows it and all before failed retryably, uncancelled |
| Retry.AttemptsByStatus | client.go:157-183 | by the responses: attempt n+1 happens if and only if the budget allows it and all before met a transport failure, a 429, a 5xx or a 400, with the context going on |
| Retry.ExecuteIs | client.go:441-475 | an attempt succeeds exactly on a 2xx and returns the response; other responses become an error with their status |
| Retry.RunOutcome | client.go:401-408 | a run returns the end of the context exactly when that came in the wait after its last attempt, and else that attempt's result |
| Retry.ElapsedBound | client.go:195-204 | a run takes at most a timeout an attempt and a maximal delay between attempts, a wait cut short included |
| Retry.ElapsedAttained | client.go:195-204 | the bound is attained |
| Retry.DefaultElapsed | client.go:199-202 | 2 min 15 s with the default configuration and its default timeout |
| Retry.BadRequestRetried | client.go:157-183 | a request always answered with 400 is sent maxAttempts times and ends in a Rejection |
| Retry.LogShowsAttempts | client.go:411-438 | the log shows every attempt of a run, in order |
| Retry.LogIsOfRun | client.go:119-137 | the whole log: for each attempt its number, status and failure, and behind it the delay that a 429 asks for, if a wait follows |
| Retry.Client.constructor | client.go:70-149 | applying the options in order gives the settings, and the retry configuration and timeout derived from them |
| Retry.Client.DoRequest | client.go:364-454 | the loop returns the specified run and appends its log, honored delays before cut waits included |
| Retry.Client.VerifyCredentials | client.go:216-228 | exactly one attempt, whatever it answers; the shared client keeps its configuration |
| Idempotency.AtMostOneResource | balances.go:107-142 | in every interleaving, calls with one key create at most one resource together |
| Idempotency.MessagesCarryTheRequest | balances.go:112-134 | every message of a started call carries what its request says: the caller's key, or the call's own fresh UUID without one; the triple of a transfer |
| Idempotency.OneResourcePerThing | transfers.go:213-250 | two calls for one thing, told by their requests and UUIDs, create at most one resource together; two that succeed end with the same resource if and only if they are for one thing |
| Idempotency.LostReplyRecovered | balances.go:107-142 | a call whose first reply is lost succeeds with its second attempt, and with the resource of the first |
| Idempotency.SettledStays | client.go:157-183 | a call that has succeeded or failed sends nothing more |
| Idempotency.GivenUpForGood | client.go:157-183 | a waiting call is settled by a failure exactly when it is not retryable or the budget is spent |
| Idempotency.LastAttemptAnswered | client.go:441-475 | a call succeeds by the reply to its last attempt, never by a late one |
| Idempotency.SuccessNamesTheResource | transfers.go:213-250 | a successful call returns the one resource created for its key, and so does every other successful call with that key |
| Idempotency.AttemptsBounded | client.go:109-115 | no call makes more attempts than the budget |
| Idempotency.OneKeyIffOneCreation | balances.go:112-134 | a way of choosing keys keeps all runs to one creation a call if and only if all attempts of a call carry one key |
| Uuid.NewRequestUUID | ids.go:223-234 | the array masked in place gives the text of the masked random bytes, or the generator's error |
| Uuid.ParsePrint | ids.go:232-233 | a parser reads the text back as the sixteen bytes |
| Uuid.PrintParse | ids.go:232-233 | whatever parses is the printed form of what it parses to |
| Uuid.VersionAndVariant | ids.go:210-217 | the version digit is 4 and the variant digit 8, 9, a or b |
| Uuid.TextIs | ids.go:232-233 | byte by byte: where its two lower-case digits stand, and the dashes between |
| Uuid.KeysAlike | ids.go:223-234 | two keys are alike if and only if the random bytes agree outside the six fixed bits |
| Uuid.KeysAre | ids.go:223-234 | the keys are exactly the texts of sixteen bytes that have those six bits |
| Paging.ListPage | transfers.go:56-104 | the mapping loop computes the specified page or failure |
| Paging.ListAll | transfers.go:39-54 | the loop computes the specified listing and counts its requests |
| Paging.ListTransfers | transfers.go:15-54 | that listing in pages of 100 |
| Paging.ListRecipients | recipients.go:14-46 | that listing in pages of 20, and without a profile the error and no request |
| Paging.AnyServer | transfers.go:39-104 | against any server: a value if and only if every request made is answered and every entry maps, and it is then the mapped answers in order up to the first short one; otherwise the first error, with no request after it |
| Paging.ListMapsSeen | transfers.go:39-54 | the result is the mapping of everything read, in order, or its first failure |
| Paging.NothingLost | transfers.go:32-54 | when the listing only grows in front, all entries of the first listing are read in order, and as many as the last one has |
| Paging.UnchangedListing | transfers.go:32-54 | without a change the result is the mapped listing after n/size+1 requests |
| Paging.ReadIffInSomeWindow | transfers.go:32-54 | whatever the listing does: an entry is read if and only if it stands in the window of one of the requests |
| Paging.ReadIffNeverSlipsPast | transfers.go:29-54 | an entry listed at every request and pushed back by at most a page between two is read if and only if it never moves from behind the next offset to before it |
| Paging.NeverForwardIsRead | transfers.go:32-54 | in particular when it never moves forward, whatever is replaced before it |
| Paging.ShrinkingLosesAnEntry | transfers.go:29 | the instance: an entry leaving the front between requests makes the run miss one listed all the time |
| ScaClearing.PendingRequired | ott.go:169-184 | the loop collects the required challenges not yet passed, in order |
| ScaClearing.ClearedMeansNonePending | ott.go:186-190 | cleared means no required challenge is open |
| ScaClearing.ClearSCAChallenge | ott.go:321-372 | the loop with its calls gives the specified result and trace: every call's token and channel, the challenge and hint put to the code provider, the code verified |
| ScaClearing.EveryRun | ott.go:314-372 | the trace is a status call and at most five rounds, each from the status of the one before, each verify with the code given for its own first pending challenge and trigger hint; success means nothing required is open; without a provider or a token nothing is sent |
| ScaClearing.SucceedsExactlyWhen | ott.go:337-371 | success if and only if some status before one of the five rounds is clear and every round up to it goes through |
| ScaClearing.RunEnds | ott.go:321-372 | every way a run can end: at the first round that does not pass, with the result its answers call for and nothing sent after the obstacle |
| ScaClearing.UnsupportedIff | ott.go:136-149 | as unsupported if and only if the first pending challenge of such a round has neither as its primary type nor among its alternatives SMS, WHATSAPP or VOICE, whichever the channel stands for |
| ScaClearing.FifthVerifyIgnored | ott.go:337-371 | five good rounds are reported as uncleared whatever the fifth verify brought |
| ScaClearing.TriggersAreSupported | ott.go:343-351 | round k begins with a trigger, and only for a supported first pending challenge over a phone channel |
| ScaClearing.AtMostFourChallenges | ott.go:209-212 | against a server that passes one challenge a verify, success if and only if at most four are pending; with five the token is cleared and reported as not |
| ScaClearing.ClearedButReportedUncleared | ott.go:337-371 | such a server exists: five required challenges that offer SMS only as an alternative, a fifth verify that clears the token, and a failing run |
| ScaClearing.ElevenCalls | ott.go:337-371 | any run sends at most 11 * maxAttempts HTTP requests, each call being a run of the retry executor against any environment |
| ResolvePath.Run | scripts/testdata/specdriftext/main.go:254-297 | the pruned, overwriting walk terminates and finds the last earlier assignment that resolves, without pruning |
| ResolvePath.Inspect | scripts/testdata/specdriftext/main.go:272-292 | one visited tree overwrites found exactly as its assignments ending before the identifier do |
| ResolvePath.ResolveIsForward | scripts/testdata/specdriftext/main.go:268-292 | when no assignment contains another, the answer is the value after a forward pass over the assignments before |
| ResolvePath.PathIsForward | scripts/testdata/specdriftext/main.go:252-297 | the same for a whole function body |
| PathMeaning.ResolvesIffDenotes | scripts/testdata/specdriftext/main.go:254-297 | a non-empty text is the answer if and only if a chain of heads (first argument of Sprintf however qualified, left operand of +, inside of parentheses, last earlier right side that resolves) leads to a string literal with that text between its quotes |
| PathMeaning.TrimIsUnquotes | scripts/testdata/specdriftext/main.go:260-263 | trimming leaves exactly what stands between the quotes of both kinds at both ends |
| PathMeaning.QuotedLiteral | scripts/testdata/specdriftext/main.go:260-263 | a quoted text without quotes at its ends resolves to what stands between the quotes |
| PathMeaning.AssignsAreAll | scripts/testdata/specdriftext/main.go:272-279 | the assignments gone through are all those anywhere in the body |
| PathMeaning.AssignsByPosition | scripts/testdata/specdriftext/main.go:272-279 | in the order in which they start |
| SpecDrift.MatchEndpoint | scripts/spec_drift.py:265-296 | the loops give the specified verdict and paths |
| SpecDrift.VerdictIs | scripts/spec_drift.py:276-296 | the reported paths are exactly those that decide (the path itself, else the aligned ones, else all that fit), and the verdict says whether there is one and whether one offers the verb |
| SpecDrift.PathsInOrder | scripts/spec_drift.py:279-290 | the reported paths stand in the order of the document |
| SpecDrift.MatchIsSound | scripts/spec_drift.py:270-275 | apart from an exact hit a reported path has as many segments, each fitting, and a numeric parameter meets a spec parameter only |
| SpecDrift.SpecSegments | scripts/spec_drift.py:244-245 | no segment of a normalized spec path is one of the SDK's own markers |
| SpecDrift.SplitIsJoined | scripts/spec_drift.py:281 | the segments are free of slashes and make up the path again |
| SpecDrift.NormalizeIs | scripts/spec_drift.py:244-245 | from the first opening brace to the first closing one behind it a path becomes {p}, and so on from there |
| SpecDrift.NormalizeKeeps | scripts/spec_drift.py:244-245 | where no brace is closed it stays as it is |
| SpecDrift.VerbsAdded | scripts/spec_drift.py:294-296 | verbs added to listed paths never take an ok away and never change the paths |
| SpecDrift.PathAdded | scripts/spec_drift.py:276-296 | an added path takes an ok away if and only if it lacks the verb and is the path itself or the first to align |
| SpecDrift.AddedPathTakesAway | scripts/spec_drift.py:290-296 | it happens: GET /{s} is ok by /a until POST /{x} is added |
| Calendar.DateOf | helpers.go:167-169 | every day number has a date with that number |
| Calendar.DayNumberInjective | helpers.go:167-169 | and no other one |
| Calendar.DayNumberFormula | helpers.go:167-169 | that number in closed form |
| Timestamps.ParseFormat | helpers.go:124-169 | what is formatted for a time in any zone parses back to its moment in whole seconds if and only if its year in UTC is 0 to 9999; printed without going to UTC it would only in zones at offset 0 |
| Timestamps.LayoutsAgree | helpers.go:134-153 | layouts that accept the same text read the same instant, signed three-character fractions included |
| Timestamps.LayoutOrderIrrelevant | helpers.go:134-153 | any order of the layouts parses alike |
| TimestampTexts.LayoutReads | helpers.go:134-153 | each layout reads every text put together from the parts it allows as the moment these mean, offset subtracted and fraction cut to nanoseconds, and refuses it when they are no date, no time of day or no offset |
| TimestampTexts.ParseReads | helpers.go:133-156 | so the parser reads every text written for one of the six layouts |
| TimestampTexts.FormatMeans | helpers.go:162-169 | what is sent for a time in any zone is a text of RFC 3339 with whole seconds and Z, and means the moment of that time |
| TransferDetails.MissingTransferDetails | transfer_requirements.go:71-99 | the nested loops return the names of the unsatisfied required fields, in order |
| TransferDetails.ReportIs | transfer_requirements.go:71-116 | field by field: the report has its name exactly when it is required and the wire block does not answer it with an allowed value |
| TransferDetails.FieldsAre | transfer_requirements.go:76-79 | the fields are those of all groups, in order |
| TransferDetails.ToWire | transfer_requirements.go:158-191 | the block holds exactly the non-empty details |
| TransferDetails.WireByKey | transfer_requirements.go:158-191 | each of the seven keys stands for its own detail and is there when that is not empty; there is no other |
| TransferDetails.NothingMissingOnTheWire | transfers.go:199-211 | nothing is reported missing if and only if the wire block answers every required field with an allowed, non-empty value |

## Left out

- Signed zeros and the sign of a zero product: no conversion to cents tells them apart.
- go-retry is not part of this model beyond the contract its configuration relies on: total attempts, the retryable test before the next one, a steered wait before the backoff, a backoff of at most the maximal delay, a context that can end a wait. Its jitter, its formula and what it does with a non-positive attempt count are open.
- The text of error messages added by wraps; the context of the executor's final wrap is not modelled, matching through wraps is.
- A page server that never runs out: a run of the listing loop needs some offset from which pages are short.
- Go's time package is not part of the repository: parsing follows its documented rules (one-digit hours, a fraction after any seconds with point or comma, a sign in a fraction of fixed width, runs of spaces, offsets up to 24 hours and 60 minutes).
- HTTP, TLS, JSON, contexts and clocks: attempts are outcomes chosen by the environment, bodies start as decoded records, the time left until an HTTP-date is a parameter.
- `FundTransfer` and `TriggerOTT` are retried without a key, so nothing bounds them to one effect.
- In the endpoint extractor and the drift script: collecting the calls, binding HTTP methods, turning format verbs into markers, and the three set differences of the report.
- Field-copy mappers, single-field validators, webhooks and webhook signatures.

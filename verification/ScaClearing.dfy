/** Clearing the challenges of a one-time token over a phone channel: a status call, then at most
    five rounds of trigger, code and verify, against an arbitrary server and code provider. */
module ScaClearing {
  import opened Wrappers
  import Retry

  const MAX_ROUNDS: nat := 5

  datatype Challenge = Challenge(primary: string, alternatives: seq<string>, required: bool, passed: bool)

  datatype Status = Status(challenges: seq<Challenge>)

  datatype Failure =
    | NoCodeProvider | NoToken | NotPhoneChannel | EmptyCode | Unsupported(challenge: Challenge) | Uncleared
    | StatusFailed(text: string) | TriggerFailed(text: string) | CodeFailed(text: string) | VerifyFailed(text: string)

  /** One run's environment: how the status call and, in each round, the trigger call (with a phone
      hint), the code provider and the verify call answer. */
  datatype Environment = Environment(
    status: Result<Status, string>,
    trigger: nat -> Result<string, string>,
    code: (nat, Challenge, string) -> Result<string, string>,
    verify: nat -> Result<Status, string>)

  /** What every call of a run carries. */
  datatype Session = Session(token: string, channel: string)

  datatype Event =
    | StatusCall(token: string)
    | TriggerCall(session: Session)
    | CodeAsked(challenge: Challenge, channel: string, hint: string)
    | VerifyCall(session: Session, code: string)

  datatype Outcome = Outcome(result: Result<Status, Failure>, trace: seq<Event>)

  // ----- Challenges -----

  predicate IsPhoneChannel(channel: string) {
    channel == "sms" || channel == "whatsapp" || channel == "voice"
  }

  function ChallengeType(channel: string): string {
    if channel == "sms" then "SMS"
    else if channel == "whatsapp" then "WHATSAPP"
    else if channel == "voice" then "VOICE"
    else channel
  }

  predicate Supports(c: Challenge, channel: string) {
    c.primary == ChallengeType(channel) || ChallengeType(channel) in c.alternatives
  }

  predicate IsPending(c: Challenge) { c.required && !c.passed }

  function Pending(cs: seq<Challenge>): (ps: seq<Challenge>)
    ensures forall p <- ps :: IsPending(p) && p in cs
  {
    if cs == [] then [] else (if IsPending(cs[0]) then [cs[0]] else []) + Pending(cs[1..])
  }

  predicate Cleared(s: Status) { Pending(s.challenges) == [] }

  lemma {:induction false} ClearedMeansNonePending(s: Status)
    ensures Cleared(s) <==> forall c <- s.challenges :: c.required ==> c.passed
    decreases |s.challenges|
  {
    if s.challenges != [] { ClearedMeansNonePending(Status(s.challenges[1..])); }
  }

  lemma {:induction false} PendingAppend(cs: seq<Challenge>, c: Challenge)
    ensures Pending(cs + [c]) == Pending(cs) + if IsPending(c) then [c] else []
  {
    hide IsPending;
    if cs == [] {
      assert [c][1..] == [];
    } else {
      assert (cs + [c])[1..] == cs[1..] + [c];
      PendingAppend(cs[1..], c);
      var own: seq<Challenge> := if IsPending(cs[0]) then [cs[0]] else [];
      Grouped(own, Pending(cs[1..]), if IsPending(c) then [c] else []);
    }
  }

  lemma Grouped<T>(a: seq<T>, b: seq<T>, c: seq<T>)
    ensures a + b + c == a + (b + c)
  {
  }

  method PendingRequired(s: Status) returns (pending: seq<Challenge>)
    ensures pending == Pending(s.challenges)
  {
    pending := [];
    for i := 0 to |s.challenges|
      invariant pending == Pending(s.challenges[..i])
    {
      PendingAppend(s.challenges[..i], s.challenges[i]);
      assert s.challenges[..i + 1] == s.challenges[..i] + [s.challenges[i]];
      if s.challenges[i].required && !s.challenges[i].passed {
        pending := pending + [s.challenges[i]];
      }
    }
    assert s.challenges[..|s.challenges|] == s.challenges;
  }

  /** The challenge a round works on. */
  function First(s: Status): Challenge
    requires !Cleared(s)
  {
    Pending(s.challenges)[0]
  }

  /** It is the first one that is required and not passed. */
  lemma {:induction false} FirstIsFirst(s: Status) returns (k: nat)
    requires !Cleared(s)
    ensures k < |s.challenges| && First(s) == s.challenges[k] && First(s).required && !First(s).passed
    ensures forall j :: 0 <= j < k ==> s.challenges[j].required ==> s.challenges[j].passed
    decreases |s.challenges|
  {
    k := 0;
    if !(s.challenges[0].required && !s.challenges[0].passed) {
      k := FirstIsFirst(Status(s.challenges[1..]));
      k := k + 1;
    }
  }

  // ----- Which challenges a channel can pass, by their names on the wire -----

  predicate HasType(c: Challenge, name: string) { c.primary == name || name in c.alternatives }

  predicate Phone(channel: string) { channel in ["sms", "whatsapp", "voice"] }

  /** The challenge offers the channel, as its primary type or among its alternatives. */
  predicate Offers(c: Challenge, channel: string) {
    && (channel == "sms" ==> HasType(c, "SMS"))
    && (channel == "whatsapp" ==> HasType(c, "WHATSAPP"))
    && (channel == "voice" ==> HasType(c, "VOICE"))
    && (!Phone(channel) ==> HasType(c, channel))
  }

  lemma SupportsIsOffers(c: Challenge, channel: string)
    ensures Supports(c, channel) <==> Offers(c, channel)
    ensures IsPhoneChannel(channel) <==> Phone(channel)
  {
  }

  // ----- The protocol -----

  function After(prefix: seq<Event>, o: Outcome): Outcome { Outcome(o.result, prefix + o.trace) }

  function Stop(f: Failure, trace: seq<Event>): Outcome { Outcome(Err(f), trace) }

  lemma FirstIsPending(s: Status)
    ensures Cleared(s) <==> |Pending(s.challenges)| == 0
    ensures !Cleared(s) ==> First(s) == Pending(s.challenges)[0]
  {
    hide Pending;
  }

  function Hint(env: Environment, i: nat): string {
    if env.trigger(i).Ok? then env.trigger(i).value else ""
  }

  function Code(env: Environment, status: Status, i: nat): Result<string, string>
    requires !Cleared(status)
  {
    env.code(i, First(status), Hint(env, i))
  }

  /** The events of a round that is not cut short. */
  function Script(env: Environment, s: Session, status: Status, i: nat): (events: seq<Event>)
    requires !Cleared(status)
    ensures |events| == 3
  {
    var code := Code(env, status, i);
    [TriggerCall(s), CodeAsked(First(status), s.channel, Hint(env, i)),
     VerifyCall(s, if code.Ok? then code.value else "")]
  }

  /** The rounds from round i on, with the status known at its start. */
  function Rounds(env: Environment, s: Session, status: Status, i: nat): Outcome
    requires i <= MAX_ROUNDS
    decreases MAX_ROUNDS - i
  {
    if i == MAX_ROUNDS then Stop(Uncleared, [])
    else if Cleared(status) then Outcome(Ok(status), [])
    else if !Supports(First(status), s.channel) then Stop(Unsupported(First(status)), [])
    else if !IsPhoneChannel(s.channel) then Stop(NotPhoneChannel, [])
    else
      var script := Script(env, s, status, i);
      var code := Code(env, status, i);
      if env.trigger(i).Err? then Stop(TriggerFailed(env.trigger(i).error), script[..1])
      else if code.Err? then Stop(CodeFailed(code.error), script[..2])
      else if code.value == "" then Stop(EmptyCode, script[..2])
      else if env.verify(i).Err? then Stop(VerifyFailed(env.verify(i).error), script)
      else After(script, Rounds(env, s, env.verify(i).value, i + 1))
  }

  function Clear(env: Environment, s: Session, hasCodeProvider: bool): Outcome {
    if !hasCodeProvider then Stop(NoCodeProvider, [])
    else if s.token == "" then Stop(NoToken, [])
    else
      match env.status
      case Err(e) => Stop(StatusFailed(e), [StatusCall(s.token)])
      case Ok(status) => After([StatusCall(s.token)], Rounds(env, s, status, 0))
  }

  lemma AfterRound(env: Environment, s: Session, status: Status, i: nat, trace: seq<Event>)
    requires i < MAX_ROUNDS
    ensures After(trace, Rounds(env, s, status, i)) ==
            if Cleared(status) then Outcome(Ok(status), trace)
            else if !Supports(First(status), s.channel) then Stop(Unsupported(First(status)), trace)
            else if !IsPhoneChannel(s.channel) then Stop(NotPhoneChannel, trace)
            else
              var t1 := trace + [TriggerCall(s)];
              if env.trigger(i).Err? then Stop(TriggerFailed(env.trigger(i).error), t1)
              else
                var code := env.code(i, First(status), env.trigger(i).value);
                var t2 := t1 + [CodeAsked(First(status), s.channel, env.trigger(i).value)];
                if code.Err? then Stop(CodeFailed(code.error), t2)
                else if code.value == "" then Stop(EmptyCode, t2)
                else
                  var t3 := t2 + [VerifyCall(s, code.value)];
                  if env.verify(i).Err? then Stop(VerifyFailed(env.verify(i).error), t3)
                  else After(t3, Rounds(env, s, env.verify(i).value, i + 1))
  {
    hide Pending, Supports, IsPhoneChannel, Cleared, First;
    assert trace + [] == trace;
    if !Cleared(status) {
      OneByOne(trace, Script(env, s, status, i));
      if env.verify(i).Ok? {
        Reassociate(trace, Script(env, s, status, i), Rounds(env, s, env.verify(i).value, i + 1));
      }
    }
  }

  lemma OneByOne(trace: seq<Event>, script: seq<Event>)
    requires |script| == 3
    ensures trace + script[..1] == trace + [script[0]]
    ensures trace + script[..2] == trace + [script[0]] + [script[1]]
    ensures trace + script == trace + [script[0]] + [script[1]] + [script[2]]
  {
  }

  lemma Reassociate(a: seq<Event>, b: seq<Event>, o: Outcome)
    ensures After(a, After(b, o)) == After(a + b, o)
  {
    Grouped(a, b, o.trace);
  }

  method ClearSCAChallenge(env: Environment, s: Session, hasCodeProvider: bool)
    returns (result: Result<Status, Failure>, trace: seq<Event>)
    ensures Outcome(result, trace) == Clear(env, s, hasCodeProvider)
  {
    hide Rounds, First, Pending, Supports, IsPhoneChannel, Cleared, IsPending, ChallengeType, Code, Hint, Script;
    trace := [];
    if !hasCodeProvider { return Err(NoCodeProvider), trace; }
    if s.token == "" { return Err(NoToken), trace; }
    trace := trace + [StatusCall(s.token)];
    if env.status.Err? { return Err(StatusFailed(env.status.error)), trace; }
    var status := env.status.value;
    for i := 0 to MAX_ROUNDS
      invariant Clear(env, s, hasCodeProvider) == After(trace, Rounds(env, s, status, i))
    {
      AfterRound(env, s, status, i, trace);
      hide After, Clear;
      FirstIsPending(status);
      var pending := PendingRequired(status);
      if |pending| == 0 { return Ok(status), trace; }
      var challenge := pending[0];
      if !Supports(challenge, s.channel) { return Err(Unsupported(challenge)), trace; }
      if !IsPhoneChannel(s.channel) { return Err(NotPhoneChannel), trace; }
      trace := trace + [TriggerCall(s)];
      if env.trigger(i).Err? { return Err(TriggerFailed(env.trigger(i).error)), trace; }
      var phoneHint := env.trigger(i).value;
      trace := trace + [CodeAsked(challenge, s.channel, phoneHint)];
      var code := env.code(i, challenge, phoneHint);
      if code.Err? { return Err(CodeFailed(code.error)), trace; }
      if code.value == "" { return Err(EmptyCode), trace; }
      trace := trace + [VerifyCall(s, code.value)];
      if env.verify(i).Err? { return Err(VerifyFailed(env.verify(i).error)), trace; }
      status := env.verify(i).value;
    }
    NoRoundLeft(env, s, status, trace);
    return Err(Uncleared), trace;
  }

  lemma NoRoundLeft(env: Environment, s: Session, status: Status, trace: seq<Event>)
    ensures After(trace, Rounds(env, s, status, MAX_ROUNDS)) == Stop(Uncleared, trace)
  {
    assert trace + [] == trace;
  }

  // ----- Every run -----

  /** The status known before round i. */
  function Before(env: Environment, i: nat): Result<Status, string> {
    if i == 0 then env.status else env.verify(i - 1)
  }

  /** A round i that starts from the given status works on a supported challenge over a phone channel,
      and performs some of trigger, code and verify, in this order; the code it verifies is the one
      the provider gave for that challenge and the hint of its own trigger. */
  ghost predicate Performed(env: Environment, s: Session, status: Status, i: nat, events: seq<Event>) {
    && !Cleared(status) && Offers(First(status), s.channel) && Phone(s.channel)
    && |events| <= 3
    && (|events| >= 1 ==> events[0] == TriggerCall(s))
    && (|events| >= 2 ==>
          env.trigger(i).Ok? && events[1] == CodeAsked(First(status), s.channel, env.trigger(i).value))
    && (|events| == 3 ==>
          var code := env.code(i, First(status), env.trigger(i).value);
          code.Ok? && code.value != "" && events[2] == VerifyCall(s, code.value))
  }

  /** Full rounds followed by at most one round that stops early; each works from the status that the
      round before it brought. */
  ghost predicate RoundsTrace(env: Environment, s: Session, i: nat, trace: seq<Event>)
    decreases |trace|
  {
    trace == [] ||
    (var n := if |trace| < 3 then |trace| else 3;
     && Before(env, i).Ok? && Performed(env, s, Before(env, i).value, i, trace[..n])
     && RoundsTrace(env, s, i + 1, trace[n..]))
  }

  /** Round i goes through from the given status: something supported is pending and every call in
      it succeeds. */
  predicate GoesThrough(env: Environment, s: Session, status: Status, i: nat) {
    && !Cleared(status)
    && Offers(First(status), s.channel) && Phone(s.channel)
    && env.trigger(i).Ok? && Code(env, status, i).Ok? && Code(env, status, i).value != "" && env.verify(i).Ok?
  }

  lemma RoundCases(env: Environment, s: Session, status: Status, i: nat)
    requires i < MAX_ROUNDS
    ensures var o := Rounds(env, s, status, i);
            if GoesThrough(env, s, status, i) then
              && !Cleared(status) && env.verify(i).Ok?
              && Performed(env, s, status, i, Script(env, s, status, i))
              && o == After(Script(env, s, status, i), Rounds(env, s, env.verify(i).value, i + 1))
            else if Cleared(status) then o == Outcome(Ok(status), [])
            else o.result.Err? && |o.trace| <= 3 && (o.trace != [] ==> Performed(env, s, status, i, o.trace))
  {
    hide Pending, Supports, IsPhoneChannel, First, Cleared, Offers, Phone;
    if !Cleared(status) { SupportsIsOffers(First(status), s.channel); }
  }

  lemma LastRound(env: Environment, s: Session, i: nat, trace: seq<Event>)
    requires |trace| <= 3
    requires trace != [] ==> Before(env, i).Ok? && Performed(env, s, Before(env, i).value, i, trace)
    ensures RoundsTrace(env, s, i, trace)
  {
    hide Performed;
    assert trace[..|trace|] == trace;
  }

  lemma OneMoreRound(env: Environment, s: Session, i: nat, full: seq<Event>, rest: seq<Event>)
    requires |full| == 3 && Before(env, i).Ok? && Performed(env, s, Before(env, i).value, i, full)
    requires RoundsTrace(env, s, i + 1, rest)
    ensures RoundsTrace(env, s, i, full + rest)
  {
    hide Performed;
    assert (full + rest)[..3] == full && (full + rest)[3..] == rest;
  }

  lemma {:induction false} RoundsShape(env: Environment, s: Session, i: nat)
    requires i <= MAX_ROUNDS && Before(env, i).Ok?
    ensures var o := Rounds(env, s, Before(env, i).value, i);
            && RoundsTrace(env, s, i, o.trace)
            && |o.trace| <= 3 * (MAX_ROUNDS - i)
            && (o.result.Ok? ==> Cleared(o.result.value))
    decreases MAX_ROUNDS - i
  {
    if i == MAX_ROUNDS {
      LastRound(env, s, i, []);
    } else {
      var status := Before(env, i).value;
      RoundCases(env, s, status, i);
      hide Rounds, RoundsTrace, Performed, Cleared, GoesThrough, Script;
      if GoesThrough(env, s, status, i) {
        RoundsShape(env, s, i + 1);
        OneMoreRound(env, s, i, Script(env, s, status, i), Rounds(env, s, Before(env, i + 1).value, i + 1).trace);
      } else {
        LastRound(env, s, i, Rounds(env, s, status, i).trace);
      }
    }
  }

  /** In every run: the trace is a status call and at most five rounds, each from the status of the
      round before it and each verify with the code asked for after its own trigger; a success carries
      a status without a pending required challenge. Without a code provider or a token nothing is sent. */
  lemma EveryRun(env: Environment, s: Session, hasCodeProvider: bool)
    ensures var o := Clear(env, s, hasCodeProvider);
            && |o.trace| <= 1 + 3 * MAX_ROUNDS
            && (o.trace == [] || (o.trace[0] == StatusCall(s.token) && RoundsTrace(env, s, 0, o.trace[1..])))
            && (o.result.Ok? ==> forall c <- o.result.value.challenges :: c.required ==> c.passed)
            && (!hasCodeProvider ==> o == Outcome(Err(NoCodeProvider), []))
            && (hasCodeProvider && s.token == "" ==> o == Outcome(Err(NoToken), []))
            && (hasCodeProvider && s.token != "" && env.status.Err? ==>
                  o == Outcome(Err(StatusFailed(env.status.error)), [StatusCall(s.token)]))
  {
    hide RoundsTrace, Rounds, Cleared;
    if env.status.Ok? {
      RoundsShape(env, s, 0);
      var rest := Rounds(env, s, env.status.value, 0);
      assert ([StatusCall(s.token)] + rest.trace)[1..] == rest.trace;
      if rest.result.Ok? { ClearedMeansNonePending(rest.result.value); }
    }
    assert [StatusCall(s.token)][1..] == [];
    LastRound(env, s, 0, []);
  }

  predicate RoundPasses(env: Environment, s: Session, i: nat) {
    Before(env, i).Ok? && GoesThrough(env, s, Before(env, i).value, i)
  }

  ghost predicate ClearedAt(env: Environment, s: Session, i: nat, j: nat) {
    && i <= j < MAX_ROUNDS
    && (forall k :: i <= k < j ==> RoundPasses(env, s, k))
    && Before(env, j).Ok? && Cleared(Before(env, j).value)
  }

  ghost predicate ClearsFrom(env: Environment, s: Session, i: nat) {
    exists j: nat :: ClearedAt(env, s, i, j)
  }

  lemma ClearsLater(env: Environment, s: Session, i: nat)
    requires RoundPasses(env, s, i) && !Cleared(Before(env, i).value)
    ensures ClearsFrom(env, s, i) <==> ClearsFrom(env, s, i + 1)
  {
    hide GoesThrough, Cleared;
    if ClearsFrom(env, s, i) {
      var j: nat :| ClearedAt(env, s, i, j);
      assert ClearedAt(env, s, i + 1, j);
    }
    if ClearsFrom(env, s, i + 1) {
      var j: nat :| ClearedAt(env, s, i + 1, j);
      assert ClearedAt(env, s, i, j);
    }
  }

  lemma {:induction false} RoundsSucceed(env: Environment, s: Session, i: nat)
    requires i <= MAX_ROUNDS && Before(env, i).Ok?
    ensures Rounds(env, s, Before(env, i).value, i).result.Ok? <==> ClearsFrom(env, s, i)
    decreases MAX_ROUNDS - i
  {
    if i < MAX_ROUNDS {
      var status := Before(env, i).value;
      RoundCases(env, s, status, i);
      hide Rounds, GoesThrough, Cleared, Script, Performed;
      if GoesThrough(env, s, status, i) {
        assert RoundPasses(env, s, i) && Before(env, i + 1) == env.verify(i);
        RoundsSucceed(env, s, i + 1);
        ClearsLater(env, s, i);
      } else if Cleared(status) {
        assert ClearedAt(env, s, i, i);
      } else {
        assert !RoundPasses(env, s, i);
      }
    }
  }

  /** The exact condition for success: some status before one of the five rounds is clear, and every
      round up to it goes through. A status that only the fifth verify clears is never looked at. */
  lemma SucceedsExactlyWhen(env: Environment, s: Session, hasCodeProvider: bool)
    ensures Clear(env, s, hasCodeProvider).result.Ok? <==> hasCodeProvider && s.token != "" && ClearsFrom(env, s, 0)
  {
    hide Rounds, GoesThrough, Cleared;
    if env.status.Ok? {
      RoundsSucceed(env, s, 0);
    } else {
      assert forall j: nat :: ClearedAt(env, s, 0, j) && j > 0 ==> RoundPasses(env, s, 0);
    }
  }

  /** A run whose five rounds all go through reports the token as uncleared, whatever its fifth verify
      brought. */
  lemma FifthVerifyIgnored(env: Environment, s: Session)
    requires s.token != "" && forall i :: 0 <= i < MAX_ROUNDS ==> RoundPasses(env, s, i)
    ensures Clear(env, s, true).result == Err(Uncleared)
  {
    assert RoundPasses(env, s, 0);
    hide Rounds;
    AllRoundsPass(env, s, 0);
  }

  lemma {:induction false} AllRoundsPass(env: Environment, s: Session, i: nat)
    requires i <= MAX_ROUNDS && Before(env, i).Ok?
    requires forall k :: i <= k < MAX_ROUNDS ==> RoundPasses(env, s, k)
    ensures Rounds(env, s, Before(env, i).value, i).result == Err(Uncleared)
    decreases MAX_ROUNDS - i
  {
    if i < MAX_ROUNDS {
      RoundCases(env, s, Before(env, i).value, i);
      hide Rounds, GoesThrough, Cleared, Script, Performed;
      assert RoundPasses(env, s, i);
      AllRoundsPass(env, s, i + 1);
    }
  }

  /** The events from some point on begin a round. */
  ghost predicate Begins(env: Environment, s: Session, i: nat, event: Event) {
    && Before(env, i).Ok? && !Cleared(Before(env, i).value)
    && Offers(First(Before(env, i).value), s.channel) && Phone(s.channel)
    && event == TriggerCall(s)
  }

  lemma FirstEvent(env: Environment, s: Session, i: nat, trace: seq<Event>)
    requires RoundsTrace(env, s, i, trace) && trace != []
    ensures Begins(env, s, i, trace[0])
    ensures |trace| >= 3 ==> RoundsTrace(env, s, i + 1, trace[3..])
  {
    hide Cleared, First, Offers, Phone, Pending;
    var n := if |trace| < 3 then |trace| else 3;
    assert trace[..n][0] == trace[0];
  }

  lemma {:induction false} RoundBegins(env: Environment, s: Session, i: nat, trace: seq<Event>, k: nat)
    requires RoundsTrace(env, s, i, trace) && 3 * k < |trace|
    ensures Begins(env, s, i + k, trace[3 * k])
    decreases k
  {
    hide *;
    FirstEvent(env, s, i, trace);
    if k > 0 {
      RoundBegins(env, s, i + 1, trace[3..], k - 1);
      assert trace[3..][3 * (k - 1)] == trace[3 * k];
    }
  }

  /** Round k begins with a trigger, and only for a supported first pending challenge over a phone
      channel. */
  lemma TriggersAreSupported(env: Environment, s: Session, hasCodeProvider: bool, k: nat)
    requires |Clear(env, s, hasCodeProvider).trace| > 1 + 3 * k
    ensures Clear(env, s, hasCodeProvider).trace[1 + 3 * k] == TriggerCall(s)
    ensures k < MAX_ROUNDS && Before(env, k).Ok? && !Cleared(Before(env, k).value)
    ensures Offers(First(Before(env, k).value), s.channel) && Phone(s.channel)
  {
    hide RoundsTrace, Clear, Offers, Phone, Cleared, First;
    var trace := Clear(env, s, hasCodeProvider).trace;
    EveryRun(env, s, hasCodeProvider);
    RoundBegins(env, s, 0, trace[1..], k);
    assert trace[1..][3 * k] == trace[1 + 3 * k];
  }

  // ----- How a run ends -----

  /** What ends a run at round i, read off the answers: a clear status, else the first obstacle; and how
      many events there are in that round. */
  ghost predicate EndsAt(env: Environment, s: Session, i: nat, r: Result<Status, Failure>, events: nat) {
    Before(env, i).Ok? &&
    var status := Before(env, i).value;
    if i == 5 then r == Err(Uncleared) && events == 0
    else if Cleared(status) then r == Ok(status) && events == 0
    else if !Offers(First(status), s.channel) then r == Err(Unsupported(First(status))) && events == 0
    else if !Phone(s.channel) then r == Err(NotPhoneChannel) && events == 0
    else
      match env.trigger(i)
      case Err(e) => r == Err(TriggerFailed(e)) && events == 1
      case Ok(hint) =>
        match env.code(i, First(status), hint)
        case Err(e) => r == Err(CodeFailed(e)) && events == 2
        case Ok(code) =>
          if code == "" then r == Err(EmptyCode) && events == 2
          else env.verify(i).Err? && r == Err(VerifyFailed(env.verify(i).error)) && events == 3
  }

  /** That after rounds i to j - 1 have passed; n events since round i. */
  ghost predicate EndsAfter(env: Environment, s: Session, i: nat, j: nat, r: Result<Status, Failure>, n: int) {
    && i <= j <= 5 && (forall k :: i <= k < j ==> RoundPasses(env, s, k))
    && n >= 3 * (j - i) && EndsAt(env, s, j, r, n - 3 * (j - i))
  }

  lemma RoundEnds(env: Environment, s: Session, i: nat)
    requires i < 5 && Before(env, i).Ok? && !RoundPasses(env, s, i)
    ensures var o := Rounds(env, s, Before(env, i).value, i); EndsAt(env, s, i, o.result, |o.trace|)
  {
    hide Pending, Supports, IsPhoneChannel, First, Cleared, Offers, Phone;
    var status := Before(env, i).value;
    if !Cleared(status) { SupportsIsOffers(First(status), s.channel); }
  }

  lemma NoRoundEnds(env: Environment, s: Session)
    requires Before(env, 5).Ok?
    ensures var o := Rounds(env, s, Before(env, 5).value, 5); EndsAt(env, s, 5, o.result, |o.trace|)
  {
  }

  lemma EndsNow(env: Environment, s: Session, i: nat, r: Result<Status, Failure>, n: nat)
    requires i <= 5 && EndsAt(env, s, i, r, n)
    ensures EndsAfter(env, s, i, i, r, n)
  {
    hide EndsAt;
  }

  lemma EndsLater(env: Environment, s: Session, i: nat, j: nat, o: Outcome, script: seq<Event>)
    requires RoundPasses(env, s, i) && EndsAfter(env, s, i + 1, j, o.result, |o.trace|) && |script| == 3
    ensures EndsAfter(env, s, i, j, After(script, o).result, |After(script, o).trace|)
  {
    hide EndsAt, RoundPasses;
  }

  lemma NextStatus(env: Environment, s: Session, i: nat)
    ensures RoundPasses(env, s, i) <==> Before(env, i).Ok? && GoesThrough(env, s, Before(env, i).value, i)
    ensures Before(env, i + 1) == env.verify(i)
  {
    hide GoesThrough;
  }

  lemma {:induction false} RoundsEnd(env: Environment, s: Session, i: nat) returns (j: nat)
    requires i <= 5 && Before(env, i).Ok?
    ensures var o := Rounds(env, s, Before(env, i).value, i); EndsAfter(env, s, i, j, o.result, |o.trace|)
    decreases 5 - i
  {
    hide Rounds, GoesThrough, RoundPasses, Before, EndsAfter, EndsAt, Cleared, Script, Performed, After;
    var o := Rounds(env, s, Before(env, i).value, i);
    NextStatus(env, s, i);
    if i == 5 {
      j := i;
      NoRoundEnds(env, s);
      EndsNow(env, s, i, o.result, |o.trace|);
    } else if RoundPasses(env, s, i) {
      RoundCases(env, s, Before(env, i).value, i);
      j := RoundsEnd(env, s, i + 1);
      EndsLater(env, s, i, j, Rounds(env, s, Before(env, i + 1).value, i + 1),
                Script(env, s, Before(env, i).value, i));
    } else {
      j := i;
      RoundEnds(env, s, i);
      EndsNow(env, s, i, o.result, |o.trace|);
    }
  }

  lemma PassesOrEnds(env: Environment, s: Session, i: nat, r: Result<Status, Failure>, n: nat)
    requires i < 5 && RoundPasses(env, s, i)
    ensures !EndsAt(env, s, i, r, n)
  {
    hide Cleared, First, Offers, Phone;
  }

  lemma EndsOnce(env: Environment, s: Session, j: nat, k: nat, r: Result<Status, Failure>, n: int,
                 q: Result<Status, Failure>, m: int)
    requires EndsAfter(env, s, 0, j, r, n) && EndsAfter(env, s, 0, k, q, m)
    ensures j == k && r == q && n == m
  {
    hide Cleared, First, Offers, Phone, RoundPasses;
    if j < k { PassesOrEnds(env, s, j, r, n - 3 * j); }
    if k < j { PassesOrEnds(env, s, k, q, m - 3 * k); }
  }

  /** Every way a run can end: after some rounds that pass, at most five, at the first one that does
      not, with the result that its answers call for and nothing sent after the obstacle. */
  lemma RunEnds(env: Environment, s: Session, r: Result<Status, Failure>, n: int)
    requires s.token != "" && env.status.Ok?
    ensures var o := Clear(env, s, true);
            o.result == r && |o.trace| == 1 + n <==> exists j: nat :: EndsAfter(env, s, 0, j, r, n)
  {
    hide Rounds, EndsAfter;
    var j := RoundsEnd(env, s, 0);
    var o := Clear(env, s, true);
    if k: nat :| EndsAfter(env, s, 0, k, r, n) { EndsOnce(env, s, j, k, o.result, |o.trace| - 1, r, n); }
  }

  ghost predicate UnsupportedAt(env: Environment, s: Session, j: nat, c: Challenge) {
    && j < 5 && (forall k :: 0 <= k < j ==> RoundPasses(env, s, k))
    && Before(env, j).Ok? && !Cleared(Before(env, j).value) && First(Before(env, j).value) == c
    && !HasType(c, if s.channel == "sms" then "SMS" else if s.channel == "whatsapp" then "WHATSAPP" else "VOICE")
  }

  lemma EndsUnsupported(env: Environment, s: Session, j: nat, c: Challenge, n: int)
    requires Phone(s.channel)
    ensures EndsAfter(env, s, 0, j, Err(Unsupported(c)), n) <==> n == 3 * j && UnsupportedAt(env, s, j, c)
  {
    hide Cleared, First, HasType, RoundPasses;
  }

  /** In particular it ends as unsupported exactly when, after rounds that pass, the first pending
      challenge has neither as its primary type nor among its alternatives the one of the channel. */
  lemma UnsupportedIff(env: Environment, s: Session, c: Challenge)
    requires s.token != "" && env.status.Ok? && Phone(s.channel)
    ensures Clear(env, s, true).result == Err(Unsupported(c)) <==> exists j: nat :: UnsupportedAt(env, s, j, c)
  {
    hide *;
    var r: Result<Status, Failure> := Err(Unsupported(c));
    var n := |Clear(env, s, true).trace| - 1;
    RunEnds(env, s, r, n);
    if j: nat :| EndsAfter(env, s, 0, j, r, n) { EndsUnsupported(env, s, j, c, n); }
    if j: nat :| UnsupportedAt(env, s, j, c) {
      EndsUnsupported(env, s, j, c, 3 * j);
      RunEnds(env, s, r, 3 * j);
    }
  }

  // ----- A server that passes the first pending challenge with each verify -----

  function PassFirst(cs: seq<Challenge>): seq<Challenge> {
    if cs == [] then []
    else if IsPending(cs[0]) then [cs[0].(passed := true)] + cs[1..]
    else [cs[0]] + PassFirst(cs[1..])
  }

  lemma {:induction false} PassFirstPending(cs: seq<Challenge>)
    requires Pending(cs) != []
    ensures Pending(PassFirst(cs)) == Pending(cs)[1..]
  {
    var ds := PassFirst(cs);
    if IsPending(cs[0]) {
      assert ds[1..] == cs[1..];
    } else {
      PassFirstPending(cs[1..]);
      assert ds[1..] == PassFirst(cs[1..]);
    }
  }

  ghost predicate Willing(env: Environment) {
    && env.status.Ok?
    && (forall i: nat :: env.trigger(i).Ok? && env.verify(i).Ok?)
    && (forall i: nat, c: Challenge, hint: string :: env.code(i, c, hint).Ok? && env.code(i, c, hint).value != "")
  }

  ghost predicate Cooperative(env: Environment, channel: string) {
    && Phone(channel) && Willing(env)
    && (forall c <- env.status.value.challenges :: c.required && !c.passed ==> Offers(c, channel))
    && (forall i: nat :: env.verify(i).value.challenges == PassFirst(Before(env, i).value.challenges))
  }

  /** Before round i the pending challenges are ps without its first i. */
  ghost predicate PendingFrom(env: Environment, i: nat, ps: seq<Challenge>) {
    i <= |ps| && Before(env, i).Ok? && Pending(Before(env, i).value.challenges) == ps[i..]
  }

  lemma PendingStep(env: Environment, i: nat, ps: seq<Challenge>)
    requires PendingFrom(env, i, ps) && i < |ps| && env.verify(i).Ok?
    requires env.verify(i).value.challenges == PassFirst(Before(env, i).value.challenges)
    ensures PendingFrom(env, i + 1, ps)
  {
    hide Pending, PassFirst;
    PassFirstPending(Before(env, i).value.challenges);
    assert ps[i..][1..] == ps[i + 1..];
  }

  lemma BeforeKnown(env: Environment, i: nat, ps: seq<Challenge>)
    requires PendingFrom(env, i, ps)
    ensures Before(env, i).Ok?
  {
  }

  lemma CooperativeStep(env: Environment, channel: string, i: nat, ps: seq<Challenge>)
    requires i < |ps|
    ensures Cooperative(env, channel) && PendingFrom(env, i, ps) ==> PendingFrom(env, i + 1, ps)
  {
    hide PendingFrom, PassFirst, Offers, Phone, IsPending;
    if Cooperative(env, channel) && PendingFrom(env, i, ps) {
      BeforeKnown(env, i, ps);
      PendingStep(env, i, ps);
    }
  }

  lemma {:induction false} CooperativePending(env: Environment, channel: string, i: nat, ps: seq<Challenge>)
    requires Cooperative(env, channel) && PendingFrom(env, 0, ps) && i <= |ps|
    ensures PendingFrom(env, i, ps)
  {
    hide *;
    if i > 0 {
      CooperativePending(env, channel, i - 1, ps);
      CooperativeStep(env, channel, i - 1, ps);
    }
  }

  lemma PendingAtStart(env: Environment)
    requires env.status.Ok?
    ensures PendingFrom(env, 0, Pending(env.status.value.challenges))
  {
    hide Pending;
    var ps := Pending(env.status.value.challenges);
    assert ps[0..] == ps;
  }

  lemma CooperativeRound(env: Environment, s: Session, i: nat, ps: seq<Challenge>)
    requires Cooperative(env, s.channel) && PendingFrom(env, 0, ps) && i < |ps|
    ensures RoundPasses(env, s, i)
  {
    CooperativePending(env, s.channel, i, ps);
    assert ps[0..] == ps && ps[i] in Pending(env.status.value.challenges) && IsPending(ps[i]);
    hide Pending, Offers, Phone, PassFirst;
    assert Pending(Before(env, i).value.challenges)[0] == ps[i];
  }

  lemma ClearedAfterAll(env: Environment, channel: string, ps: seq<Challenge>)
    requires Cooperative(env, channel) && PendingFrom(env, 0, ps)
    ensures Before(env, |ps|).Ok? && Cleared(Before(env, |ps|).value)
  {
    CooperativePending(env, channel, |ps|, ps);
    hide Pending, PassFirst, Offers, Phone;
  }

  /** Against such a server, clearing succeeds exactly when at most four challenges are pending: the
      fifth round has no status check after it. With five, the token is cleared and reported as not. */
  lemma AtMostFourChallenges(env: Environment, s: Session)
    requires s.token != "" && Cooperative(env, s.channel)
    ensures var n := |Pending(env.status.value.challenges)|;
            && (Clear(env, s, true).result.Ok? <==> n <= 4)
            && (n > 4 ==> Clear(env, s, true).result == Err(Uncleared))
            && (n == 5 ==> Cleared(env.verify(4).value))
  {
    hide Cooperative, RoundPasses, Pending, Clear, Cleared, PendingFrom;
    StartsWilling(env, s.channel);
    var ps := Pending(env.status.value.challenges);
    PendingAtStart(env);
    forall i | 0 <= i < |ps|
      ensures RoundPasses(env, s, i)
    {
      CooperativeRound(env, s, i, ps);
    }
    SucceedsExactlyWhen(env, s, true);
    ClearedAfterAll(env, s.channel, ps);
    if |ps| <= 4 {
      assert ClearedAt(env, s, 0, |ps|);
    } else {
      FifthVerifyIgnored(env, s);
    }
  }

  lemma StartsWilling(env: Environment, channel: string)
    requires Cooperative(env, channel)
    ensures env.status.Ok? && env.verify(4).Ok?
  {
  }

  function PassTimes(cs: seq<Challenge>, n: nat): seq<Challenge> {
    if n == 0 then cs else PassFirst(PassTimes(cs, n - 1))
  }

  /** There is such a server for every list of challenges that SMS can clear. */
  function CooperativeServer(cs: seq<Challenge>): Environment {
    Environment(Ok(Status(cs)), (i: nat) => Ok("*1234"), (i: nat, c: Challenge, hint: string) => Ok("111111"),
                (i: nat) => Ok(Status(PassTimes(cs, i + 1))))
  }

  /** Five challenges that SMS can pass only as an alternative to a PIN. */
  function FiveBySms(): seq<Challenge> {
    seq(5, i => Challenge("PIN", ["SMS"], true, false))
  }

  lemma ServerIsCooperative(cs: seq<Challenge>)
    requires forall c <- cs :: Offers(c, "sms")
    ensures Cooperative(CooperativeServer(cs), "sms")
  {
    hide PassFirst, Offers, IsPending;
    assert Phone("sms");
    var env := CooperativeServer(cs);
    forall i: nat
      ensures env.verify(i).value.challenges == PassFirst(Before(env, i).value.challenges)
    {
      assert PassTimes(cs, i + 1) == PassFirst(PassTimes(cs, i));
      assert PassTimes(cs, 0) == cs;
    }
  }

  /** With five required challenges the fifth verify clears the token and the run still fails. */
  lemma ClearedButReportedUncleared(token: string)
    requires token != ""
    ensures var env := CooperativeServer(FiveBySms());
            && Cooperative(env, "sms") && |Pending(env.status.value.challenges)| == 5
            && Cleared(env.verify(4).value)
            && Clear(env, Session(token, "sms"), true).result == Err(Uncleared)
  {
    FivePending();
    ServerIsCooperative(FiveBySms());
    hide Pending, PassTimes, Cooperative, FiveBySms, Cleared, Clear, Offers;
    AtMostFourChallenges(CooperativeServer(FiveBySms()), Session(token, "sms"));
  }

  lemma FivePending()
    ensures |Pending(FiveBySms())| == 5
    ensures forall c <- FiveBySms() :: Offers(c, "sms")
  {
    AllPending(FiveBySms());
  }

  lemma {:induction false} AllPending(cs: seq<Challenge>)
    requires forall c <- cs :: IsPending(c)
    ensures Pending(cs) == cs
  {
    if cs != [] { AllPending(cs[1..]); }
  }

  // ----- Requests on the wire -----

  function ApiCalls(trace: seq<Event>): nat {
    if trace == [] then 0 else (if trace[0].CodeAsked? then 0 else 1) + ApiCalls(trace[1..])
  }

  /** The HTTP requests behind a trace: its k-th API call is one run of the retry executor against
      calls(k). */
  ghost function HttpRequests(trace: seq<Event>, c: Retry.Config, calls: nat -> Retry.Environment, k: nat): nat
    requires c.maxAttempts >= 1
  {
    if trace == [] then 0
    else if trace[0].CodeAsked? then HttpRequests(trace[1..], c, calls, k)
    else |Retry.RunFrom(c, calls(k), 0).attempts| + HttpRequests(trace[1..], c, calls, k + 1)
  }

  lemma {:induction false} RequestsPerCall(trace: seq<Event>, c: Retry.Config, calls: nat -> Retry.Environment, k: nat)
    requires c.maxAttempts >= 1
    ensures HttpRequests(trace, c, calls, k) <= ApiCalls(trace) * c.maxAttempts
  {
    hide Retry.RunFrom;
    if trace != [] {
      Retry.AttemptHappens(c, calls(k), 0, c.maxAttempts);
      RequestsPerCall(trace[1..], c, calls, if trace[0].CodeAsked? then k else k + 1);
      Distribute(ApiCalls(trace[1..]), c.maxAttempts);
    }
  }

  lemma Distribute(n: nat, m: nat)
    ensures (n + 1) * m == n * m + m
  {
  }

  lemma {:induction false} CallsInRounds(env: Environment, s: Session, i: nat, trace: seq<Event>, rounds: nat)
    requires RoundsTrace(env, s, i, trace) && |trace| <= 3 * rounds
    ensures ApiCalls(trace) <= 2 * rounds
    decreases |trace|
  {
    if |trace| >= 3 {
      FullRoundCalls(env, s, i, trace);
      hide Performed, ApiCalls;
      CallsInRounds(env, s, i + 1, trace[3..], rounds - 1);
    } else if trace != [] {
      assert trace[..|trace|] == trace;
      OneOrTwoCalls(trace);
    }
  }

  lemma OneOrTwoCalls(trace: seq<Event>)
    requires 1 <= |trace| <= 2
    ensures ApiCalls(trace) <= 2
  {
    if |trace| == 2 { assert trace[1..][1..] == []; }
  }

  lemma FullRoundCalls(env: Environment, s: Session, i: nat, trace: seq<Event>)
    requires RoundsTrace(env, s, i, trace) && |trace| >= 3
    ensures ApiCalls(trace) == 2 + ApiCalls(trace[3..])
  {
    var full := trace[..3];
    assert Performed(env, s, Before(env, i).value, i, full);
    assert full[0].TriggerCall? && full[1].CodeAsked? && full[2].VerifyCall?;
    hide RoundsTrace, Performed;
    assert trace[1..][1..] == trace[2..] && trace[2..][1..] == trace[3..];
    assert ApiCalls(trace) == 1 + ApiCalls(trace[1..]);
    assert ApiCalls(trace[1..]) == ApiCalls(trace[2..]);
    assert ApiCalls(trace[2..]) == 1 + ApiCalls(trace[3..]);
  }

  /** Any run sends at most 11 * maxAttempts HTTP requests, whatever the server answers to them. */
  lemma ElevenCalls(env: Environment, s: Session, hasCodeProvider: bool,
                    c: Retry.Config, calls: nat -> Retry.Environment)
    requires c.maxAttempts >= 1
    ensures HttpRequests(Clear(env, s, hasCodeProvider).trace, c, calls, 0) <= 11 * c.maxAttempts
  {
    hide HttpRequests, RoundsTrace, Clear;
    var trace := Clear(env, s, hasCodeProvider).trace;
    EveryRun(env, s, hasCodeProvider);
    if trace != [] { CallsInRounds(env, s, 0, trace[1..], MAX_ROUNDS); }
    RequestsPerCall(trace, c, calls, 0);
    Scale(ApiCalls(trace), 11, c.maxAttempts);
  }

  lemma Scale(a: nat, b: nat, m: nat)
    requires a <= b
    ensures a * m <= b * m
  {
  }
}

/** The Retry-After header: its parsing into a duration, and the wait the SDK derives from it.
    Durations are int64 nanoseconds, as in Go. */
module RetryAfter {
  import opened Wrappers
  import opened Decimal
  import opened ApiErrors

  const SECOND: int := 1_000_000_000
  const TWO_63: int := 0x8000_0000_0000_0000
  const TWO_64: int := 0x1_0000_0000_0000_0000

  /** Two's-complement wrap-around to int64. */
  function WrapInt64(n: int): (w: int)
    ensures -TWO_63 <= w < TWO_63 && (w - n) % TWO_64 == 0
    ensures -TWO_63 <= n < TWO_63 ==> w == n
  {
    (n + TWO_63) % TWO_64 - TWO_63
  }

  /** strconv.Atoi: an optional sign, decimal digits, and a value inside int64. */
  function Atoi(s: string): Option<int> {
    var digits := if s != [] && (s[0] == '+' || s[0] == '-') then s[1..] else s;
    if digits == [] || !AllDigits(digits) then None
    else
      var n: int := (if s[0] == '-' then -1 else 1) * Value(digits);
      if -TWO_63 <= n < TWO_63 then Some(n) else None
  }

  /** untilDate is the time left until the header's date when it is one in RFC 1123 form. */
  function ParseRetryAfter(value: string, untilDate: Option<int>): int {
    if value == "" then SECOND
    else if Atoi(value).Some? && Atoi(value).value >= 0 then WrapInt64(Atoi(value).value * SECOND)
    else if untilDate.Some? && untilDate.value > 0 then untilDate.value
    else SECOND
  }

  function Cap(delay: int, maxDelay: int): int {
    if delay <= 0 then 0 else Min(delay, maxDelay)
  }

  function Min(a: int, b: int): int { if a < b then a else b }

  /** The configured DelayFunc: 0 means that the executor's own backoff applies. */
  function HonoredDelay(e: Error, maxDelay: int): int {
    match AsType(e, RateLimit)
    case None => 0
    case Some(rle) => Cap(rle.retryAfter, maxDelay)
  }

  /** Whatever the header says, the steered wait is between 0 and the configured maximum. */
  lemma {:induction false} HonoredDelayBounded(contexts: seq<string>, r: Response, maxDelay: int)
    requires maxDelay > 0
    ensures 0 <= HonoredDelay(WrapAll(contexts, ErrorOf(r)), maxDelay) <= maxDelay
    ensures HonoredDelay(WrapAll(contexts, ErrorOf(r)), maxDelay) > 0 <==> r.status == 429 && r.retryAfter > 0
  {
    AsTypeThroughWraps(contexts, ErrorOf(r), RateLimit);
  }

  lemma CapHonors(seconds: nat, n: int, w: int, half: int)
    requires n == seconds * SECOND && (n < TWO_63 ==> w == n) && w == 2 * half < TWO_63
    ensures (forall maxDelay :: 0 < maxDelay < TWO_63 ==> Cap(w, maxDelay) == Min(n, maxDelay))
       <==> seconds <= 9_223_372_036
  {
    if seconds > 9_223_372_036 {
      var most := TWO_63 - 1;
      assert Cap(w, most) != Min(n, most);
    }
  }

  /** A 429 asking for whole seconds is honored up to every configurable maximum exactly when the
      seconds fit an int64 of nanoseconds; a longer request wraps around and is cut short or dropped. */
  lemma SecondsHonored(value: string, untilDate: Option<int>, seconds: nat, r: Response)
    requires Atoi(value) == Some(seconds)
    requires r.status == 429 && r.retryAfter == ParseRetryAfter(value, untilDate)
    ensures (forall maxDelay :: 0 < maxDelay < TWO_63 ==>
                HonoredDelay(ErrorOf(r), maxDelay) == Min(seconds * SECOND, maxDelay))
       <==> seconds <= 9_223_372_036
  {
    hide WrapInt64, Cap, Min, Atoi, HonoredDelay, ParseRetryAfter, ErrorOf;
    SecondsCapped(seconds);
    forall maxDelay
      ensures HonoredDelay(ErrorOf(r), maxDelay) == Cap(WrapInt64(seconds * SECOND), maxDelay)
    {
      HonoredSeconds(value, untilDate, seconds, r, maxDelay);
    }
  }

  lemma SecondsCapped(seconds: nat)
    ensures (forall maxDelay :: 0 < maxDelay < TWO_63 ==>
                Cap(WrapInt64(seconds * SECOND), maxDelay) == Min(seconds * SECOND, maxDelay))
       <==> seconds <= 9_223_372_036
  {
    hide WrapInt64, Cap, Min;
    var n := seconds * SECOND;
    var half := HalfOfWrapped(n, 500_000_000 * seconds);
    CapHonors(seconds, n, WrapInt64(n), half);
  }

  /** The wrap-around of an even number is even. */
  lemma HalfOfWrapped(n: int, h: int) returns (half: int)
    requires n == 2 * h
    ensures WrapInt64(n) == 2 * half < TWO_63
    ensures 0 <= n < TWO_63 ==> WrapInt64(n) == n
  {
    half := h - (n + TWO_63) / TWO_64 * TWO_63;
  }

  lemma HonoredSeconds(value: string, untilDate: Option<int>, seconds: nat, r: Response, maxDelay: int)
    requires Atoi(value) == Some(seconds)
    requires r.status == 429 && r.retryAfter == ParseRetryAfter(value, untilDate)
    ensures HonoredDelay(ErrorOf(r), maxDelay) == Cap(WrapInt64(seconds * SECOND), maxDelay)
  {
    hide WrapInt64, Cap;
    assert value != "";
  }

  /** A printed number is read back as long as it fits an int64. */
  lemma AtoiText(n: nat)
    ensures Atoi(Text(n)) == if n < TWO_63 then Some(n) else None
  {
    TextValue(n);
    hide Text, Value;
    assert IsDigit(Text(n)[0]);
  }

  /** A server asking for 18446744074 seconds is retried after 0.29 seconds. */
  lemma WrappedRetryAfter(r: Response)
    requires r.status == 429
    ensures r.retryAfter == ParseRetryAfter(Text(18_446_744_074), None) ==>
              HonoredDelay(ErrorOf(r), 5 * SECOND) == 290_448_384
  {
    hide Text, Value, Atoi;
    AtoiText(18_446_744_074);
  }

  predicate SignedDigits(s: string) {
    var digits := if s != "" && (s[0] == '+' || s[0] == '-') then s[1..] else s;
    digits != "" && forall i :: 0 <= i < |digits| ==> '0' <= digits[i] <= '9'
  }

  lemma SignedText(sign: char, n: nat)
    requires sign == '+' || sign == '-'
    ensures Atoi([sign] + Text(n)) == var v: int := if sign == '-' then -(n as int) else n;
                                      if -TWO_63 <= v < TWO_63 then Some(v) else None
  {
    TextValue(n);
    hide Text, Value;
    assert ([sign] + Text(n))[1..] == Text(n);
  }

  /** What a header asks for: a number of seconds, with or without a plus sign; the time until a date;
      and one second when it is missing, negative, out of range or neither. */
  lemma HintIs(value: string, n: nat, untilDate: Option<int>)
    ensures ParseRetryAfter("", untilDate) == 1_000_000_000
    ensures n < TWO_63 && (value == Text(n) || value == "+" + Text(n)) ==>
              ParseRetryAfter(value, untilDate) == WrapInt64(n * 1_000_000_000)
    ensures value != "" && (!SignedDigits(value) || (n > 0 && value == "-" + Text(n))
                            || (n >= TWO_63 && (value == Text(n) || value == "+" + Text(n)))) ==>
              ParseRetryAfter(value, untilDate)
              == if untilDate.Some? && untilDate.value > 0 then untilDate.value else 1_000_000_000
  {
    AtoiText(n);
    SignedText('+', n);
    SignedText('-', n);
    NoNumber(value);
    hide Text, Atoi, WrapInt64, SignedDigits;
  }

  lemma NoNumber(value: string)
    ensures !SignedDigits(value) ==> Atoi(value).None?
  {
    hide Value;
  }
}

/**
 The transparent retry of a throttled request (client.go): which requests may be repeated, how long
 each wait is, and the loop itself. The answers, the jitter and the caller's cancellation are
 functions of the attempt number.
 */
module Retry {
  import opened Arithmetic
  import opened Bytes
  import opened Wrappers

  // ----- which requests

  datatype Method = GET | POST | PATCH | DELETE

  const SUFFIXES: seq<string> := [
    "/actions/validate",
    "/actions/validate-key",
    "/actions/check-in",
    "/actions/check-out",
    "/actions/ping",
    "/actions/ping-heartbeat",
    "/actions/reset-heartbeat"
  ]

  predicate HasSuffix(s: string, suffix: string) {
    |suffix| <= |s| && s[|s| - |suffix|..] == suffix
  }

  /** `isRetryable`. The path is the decoded one, with whatever ids the caller supplied. */
  predicate IsRetryable(m: Method, path: string) {
    m == GET || (m == POST && exists i :: 0 <= i < |SUFFIXES| && HasSuffix(path, SUFFIXES[i]))
  }

  /** The requests that must reach the server once: creates, and the meter actions. */
  const ONCE: seq<string> := [
    "/machines",
    "/components",
    "/processes",
    "/actions/increment",
    "/actions/decrement",
    "/actions/reset"
  ]

  lemma SuffixEnds(s: string, suffix: string, k: nat)
    requires HasSuffix(s, suffix) && k < |suffix|
    ensures s[|s| - |suffix| + k] == suffix[k]
  {
    assert s[|s| - |suffix|..][k] == suffix[k];
  }

  // Two suffixes of one string agree at their ends.
  lemma SuffixesAgree(s: string, a: string, b: string, k: nat)
    requires HasSuffix(s, a) && HasSuffix(s, b) && k < |a| && k < |b|
    ensures a[|a| - 1 - k] == b[|b| - 1 - k]
  {
    SuffixEnds(s, a, |a| - 1 - k);
    SuffixEnds(s, b, |b| - 1 - k);
  }

  /** For every account and resource id: no create and no meter action is ever repeated. */
  lemma CreatesAndMetersAreNotRetried(path: string, i: nat)
    requires i < |ONCE| && HasSuffix(path, ONCE[i])
    ensures !IsRetryable(POST, path)
  {
    forall j | 0 <= j < |SUFFIXES| ensures !HasSuffix(path, SUFFIXES[j]) {
      if HasSuffix(path, SUFFIXES[j]) {
        SuffixesAgree(path, ONCE[i], SUFFIXES[j], 0);
        SuffixesAgree(path, ONCE[i], SUFFIXES[j], 1);
      }
    }
  }

  /** The path ends in one of the seven actions that are safe to repeat. */
  ghost predicate EndsInSafeAction(path: string) {
    exists p :: || path == p + "/actions/validate" || path == p + "/actions/validate-key"
                || path == p + "/actions/check-in" || path == p + "/actions/check-out"
                || path == p + "/actions/ping" || path == p + "/actions/ping-heartbeat"
                || path == p + "/actions/reset-heartbeat"
  }

  /** Every GET, and every POST of one of those actions under any prefix; nothing else. */
  ghost predicate MayBeRepeated(verb: Method, path: string) {
    verb == GET || (verb == POST && EndsInSafeAction(path))
  }

  lemma SuffixExactly(s: string, suffix: string)
    ensures HasSuffix(s, suffix) <==> exists p :: s == p + suffix
  {
    if HasSuffix(s, suffix) { assert s == s[..|s| - |suffix|] + suffix; }
    forall p | s == p + suffix ensures HasSuffix(s, suffix) {
      assert s[|p|..] == suffix;
    }
  }

  lemma SuffixesInFull()
    ensures SUFFIXES[0] == "/actions/validate" && SUFFIXES[1] == "/actions/validate-key"
    ensures SUFFIXES[2] == "/actions/check-in" && SUFFIXES[3] == "/actions/check-out"
    ensures SUFFIXES[4] == "/actions/ping" && SUFFIXES[5] == "/actions/ping-heartbeat"
    ensures SUFFIXES[6] == "/actions/reset-heartbeat" && |SUFFIXES| == 7
  {
  }

  lemma RetryableExactly(verb: Method, path: string)
    ensures IsRetryable(verb, path) <==> MayBeRepeated(verb, path)
  {
    SuffixesInFull();
    hide SUFFIXES;
    forall i | 0 <= i < 7 ensures HasSuffix(path, SUFFIXES[i]) <==> exists p :: path == p + SUFFIXES[i] {
      SuffixExactly(path, SUFFIXES[i]);
    }
    if EndsInSafeAction(path) {
      var p :| || path == p + "/actions/validate" || path == p + "/actions/validate-key"
               || path == p + "/actions/check-in" || path == p + "/actions/check-out"
               || path == p + "/actions/ping" || path == p + "/actions/ping-heartbeat"
               || path == p + "/actions/reset-heartbeat";
      assert exists i :: 0 <= i < 7 && path == p + SUFFIXES[i] && HasSuffix(path, SUFFIXES[i]);
    }
  }

  // ----- how long

  const SECOND: int := 1_000_000_000

  function Digits(s: bytes, from: nat, value: nat): Option<nat>
    requires from <= |s|
    decreases |s| - from
  {
    if from == |s| then Some(value)
    else if IsDigit(s[from]) then Digits(s, from + 1, value * 10 + DigitValue(s[from]))
    else None
  }

  const PLUS: byte := 0x2B
  const MINUS: byte := 0x2D
  const MAX_INT: int := 0x7FFF_FFFF_FFFF_FFFF

  /** Go's strconv.Atoi on a 64-bit platform. */
  function Atoi(s: bytes): Option<int> {
    var negative := s != [] && s[0] == MINUS;
    var from := if s != [] && (s[0] == MINUS || s[0] == PLUS) then 1 else 0;
    if from == |s| then None
    else match Digits(s, from, 0)
         case None => None
         case Some(n) =>
           var magnitude: int := n;
           if negative then (if magnitude > MAX_INT + 1 then None else Some(-magnitude))
           else if magnitude > MAX_INT then None else Some(magnitude)
  }

  /** `parseRetryAfter` on the trimmed header; dates, negatives and overflows count as absent. */
  function ParseRetryAfter(raw: bytes): Option<nat> {
    match Atoi(raw)
    case Some(secs) => if secs < 0 then None else Some(secs)
    case None => None
  }

  /** The header spells this many seconds: digits, after at most one sign, that fit an int64; `-0` is zero. */
  ghost predicate SpellsSeconds(raw: bytes, n: nat) {
    n <= 0x7FFF_FFFF_FFFF_FFFF && exists sign, d :: raw == sign + d && d != [] && AllDigits(d) && DecimalValue(d) == n
                                      && (sign == [] || sign == Ascii("+") || (sign == Ascii("-") && n == 0))
  }

  // Reading the digits one by one builds the number they spell.
  lemma {:induction false} DigitsSpell(s: bytes, from: nat, value: nat)
    requires from <= |s| && AllDigits(s[..from]) && DecimalValue(s[..from]) == value
    ensures Digits(s, from, value).Some? <==> AllDigits(s)
    ensures AllDigits(s) ==> DecimalValue(s) >= 0 && Digits(s, from, value) == Some(DecimalValue(s))
    decreases |s| - from
  {
    if from == |s| {
      assert s[..from] == s;
    } else if IsDigit(s[from]) {
      var t := s[..from + 1];
      assert t[..|t| - 1] == s[..from];
      DigitsSpell(s, from + 1, value * 10 + DigitValue(s[from]));
    }
  }

  lemma DigitsFrom(s: bytes, from: nat)
    requires from <= |s|
    ensures Digits(s, from, 0) == Digits(s[from..], 0, 0)
  {
    DigitsShift(s, from, from, 0);
  }

  lemma {:induction false} DigitsShift(s: bytes, from: nat, at: nat, value: nat)
    requires from <= at <= |s|
    ensures Digits(s, at, value) == Digits(s[from..], at - from, value)
    decreases |s| - at
  {
    if at < |s| && IsDigit(s[at]) { DigitsShift(s, from, at + 1, value * 10 + DigitValue(s[at])); }
  }

  function SignEnd(raw: bytes): (from: nat)
    ensures from <= |raw|
  {
    if raw != [] && (raw[0] == MINUS || raw[0] == PLUS) then 1 else 0
  }

  // What the digits after the sign make of the header.
  lemma ParsedAfterSign(raw: bytes, n: nat)
    ensures var d := raw[SignEnd(raw)..];
            ParseRetryAfter(raw) == Some(n)
            <==> d != [] && AllDigits(d) && DecimalValue(d) == n <= MAX_INT && (raw[0] == MINUS ==> n == 0)
  {
    var from := SignEnd(raw);
    var d := raw[from..];
    DigitsFrom(raw, from);
    assert d[..0] == [] && DecimalValue([]) == 0;
    DigitsSpell(d, 0, 0);
    hide Digits, AllDigits, DecimalValue;
  }

  /** Which headers are honoured, exactly: dates, negative numbers and overflows count as absent. */
  lemma RetryAfterExactly(raw: bytes, n: nat)
    ensures ParseRetryAfter(raw) == Some(n) <==> SpellsSeconds(raw, n)
  {
    hide ParseRetryAfter, AllDigits, DecimalValue;
    var from := SignEnd(raw);
    ParsedAfterSign(raw, n);
    Signs();
    assert raw == raw[..from] + raw[from..];
    assert raw[..from] == if from == 0 then [] else [raw[0]];
    forall sign, e | raw == sign + e && e != [] && AllDigits(e)
                     && (sign == [] || sign == Ascii("+") || sign == Ascii("-"))
      ensures sign == raw[..from] && e == raw[from..]
    {
      OneSign(raw, sign, e);
    }
  }

  lemma Signs()
    ensures Ascii("+") == [PLUS] && Ascii("-") == [MINUS]
  {
  }

  // A sign is not a digit, so a text has at most one reading as a sign and digits.
  lemma OneSign(raw: bytes, sign: bytes, e: bytes)
    requires raw == sign + e && e != [] && AllDigits(e) && (sign == [] || sign == [PLUS] || sign == [MINUS])
    ensures sign == raw[..SignEnd(raw)] && e == raw[SignEnd(raw)..]
  {
    if sign == [] { assert raw[0] == e[0]; } else { assert raw[0] == sign[0]; }
  }

  /** `retryDelay`, in nanoseconds. */
  function RetryDelay(attempt: nat, retryAfter: Option<nat>, jitter: int): int {
    match retryAfter
    case Some(secs) => (if secs > 60 then 60 else secs) * SECOND
    case None => Pow2(if attempt > 5 then 5 else attempt) * SECOND + jitter
  }

  /** The closed form of n capped backoffs with a full second of jitter each. */
  function BackoffBound(n: nat): int {
    if n <= 6 then (Pow2(n) - 1 + n) * SECOND else (63 + 32 * (n - 6) + n) * SECOND
  }

  lemma SmallPowers()
    ensures Pow2(0) == 1 && Pow2(1) == 2 && Pow2(2) == 4 && Pow2(3) == 8
    ensures Pow2(4) == 16 && Pow2(5) == 32 && Pow2(6) == 64
  {
  }

  lemma BackoffStep(n: nat)
    ensures BackoffBound(0) == 0
    ensures BackoffBound(n + 1) == BackoffBound(n) + Pow2(if n > 5 then 5 else n) * SECOND + SECOND
  {
    SmallPowers();
  }

  // ----- the loop

  /** One answer from the transport: a status with its Retry-After header, or a failure. */
  datatype Answer = Response(status: int, retryAfter: bytes) | Broken

  datatype Outcome = Returned(answer: Answer) | RequestFailed | Cancelled

  const TOO_MANY_REQUESTS: int := 429

  function Sum(s: seq<int>): int {
    if s == [] then 0 else Sum(s[..|s| - 1]) + s[|s| - 1]
  }

  predicate Throttled(a: Answer) {
    a.Response? && a.status == TOO_MANY_REQUESTS
  }

  /** The first attempt, up to `cap`, whose answer is not a 429. */
  function Attempts(answers: nat -> Answer, cap: nat, from: nat): (n: nat)
    requires from <= cap
    ensures from <= n <= cap
    ensures n < cap ==> !Throttled(answers(n))
    ensures forall i :: from <= i < n ==> Throttled(answers(i))
    decreases cap - from
  {
    if from == cap || !Throttled(answers(from)) then from else Attempts(answers, cap, from + 1)
  }

  lemma {:induction false} AttemptsAre(answers: nat -> Answer, cap: nat, from: nat, n: nat)
    requires from <= n <= cap && forall i :: from <= i < n ==> Throttled(answers(i))
    ensures n == cap || !Throttled(answers(n)) ==> Attempts(answers, cap, from) == n
    decreases n - from
  {
    if from < n { AttemptsAre(answers, cap, from + 1, n); }
  }

  // ----- bodies

  type Body = bytes

  /** An io.Reader over a buffer. Reading consumes it. */
  class Reader {
    const content: Body
    var position: nat

    ghost predicate Valid()
      reads this
    {
      position <= |content|
    }

    constructor (content: Body)
      ensures this.content == content && position == 0
    {
      this.content := content;
      position := 0;
    }

    method ReadAll() returns (s: Body)
      requires Valid()
      modifies this
      ensures Valid() && s == old(content[position..]) && position == |content|
    {
      s := content[position..];
      position := |content|;
    }
  }

  /** An http.Request: a body that is read once, and perhaps a GetBody that gives a new reader over its bytes. */
  class Request {
    const verb: Method
    const path: string
    const getBody: Option<Body>
    var body: Reader?

    ghost predicate Valid()
      reads this, body
    {
      body != null ==> body.Valid()
    }

    /** What a send would put on the wire now. */
    ghost function Remaining(): Body
      requires Valid()
      reads this, body
    {
      if body == null then [] else body.content[body.position..]
    }

    /** `newRequest`: http.NewRequest keeps a way to read a bytes.Reader again. */
    constructor (verb: Method, path: string, encoded: Option<Body>)
      ensures this.verb == verb && this.path == path && Valid()
      ensures body != null ==> fresh(body)
      ensures getBody == encoded && (body == null <==> encoded.None?)
      ensures Remaining() == if encoded.Some? then encoded.value else []
    {
      this.verb := verb;
      this.path := path;
      getBody := encoded;
      new;
      if encoded.Some? {
        body := new Reader(encoded.value);
      } else {
        body := null;
      }
    }

    /** hc.Do, as far as the body goes: it is drained onto the wire. */
    method Send() returns (sent: Body)
      requires Valid()
      modifies body
      ensures Valid() && sent == old(Remaining()) && Remaining() == []
    {
      if body == null {
        return [];
      }
      sent := body.ReadAll();
    }
  }

  /** What send `i` carries: first what the request still held, then whatever was buffered. */
  function Sent(first: Body, buffered: Option<Body>, i: nat): Body {
    if i == 0 then first else if buffered.Some? then buffered.value else []
  }

  /** Seconds of backoff before each retry. */
  const BACKOFF: seq<int> := [1, 2, 4, 8, 16, 32]

  /** A wait after a 429: what the header spells, up to a minute, or else the backoff and the jitter. */
  ghost predicate IsWait(attempt: nat, answer: Answer, jitter: int, delay: int) {
    && Throttled(answer) && 0 <= delay <= 60 * SECOND
    && (forall n: nat :: SpellsSeconds(answer.retryAfter, n) ==> delay == (if n < 60 then n else 60) * SECOND)
    && ((forall n: nat :: !SpellsSeconds(answer.retryAfter, n)) ==>
          delay == BACKOFF[if attempt < 5 then attempt else 5] * SECOND + jitter)
  }

  lemma PrescribedWait(attempt: nat, answer: Answer, jitter: int)
    requires Throttled(answer) && 0 <= jitter < SECOND
    ensures IsWait(attempt, answer, jitter, RetryDelay(attempt, ParseRetryAfter(answer.retryAfter), jitter))
  {
    var parsed := ParseRetryAfter(answer.retryAfter);
    forall n: nat ensures parsed == Some(n) <==> SpellsSeconds(answer.retryAfter, n) {
      RetryAfterExactly(answer.retryAfter, n);
    }
    DelayIsBounded(attempt, parsed, jitter);
    SmallPowers();
    hide SpellsSeconds, ParseRetryAfter;
  }

  /** The top of the loop: a retry replaces the drained body before sending. */
  method SendAttempt(req: Request, buffered: Option<Body>, attempt: nat) returns (sent: Body)
    requires req.Valid() && (buffered.Some? ==> req.body != null)
    modifies req`body, req.body
    ensures req.Valid() && req.Remaining() == []
    ensures sent == if attempt > 0 && buffered.Some? then buffered.value else old(req.Remaining())
    ensures req.body == old(req.body) || (req.body != null && old(req.body) != null && fresh(req.body))
  {
    if attempt > 0 && buffered.Some? {
      req.body := new Reader(buffered.value);
    }
    sent := req.Send();
  }

  /** How the loop ends after `n` sends and so many waits, when the request may or may not be repeated. */
  ghost predicate Ends(outcome: Outcome, n: nat, waits: nat, answers: nat -> Answer, cancelled: nat -> bool,
                       repeat: bool, maxRetries: nat)
    requires 1 <= n <= maxRetries + 1
  {
    // One send only when the request may not be repeated.
    && (!repeat ==> n == 1 && waits == 0)
    // When nothing breaks or is cancelled: up to the first answer that is not a 429, or to the last attempt.
    && ((forall i :: 0 <= i <= maxRetries ==> answers(i).Response? && !cancelled(i)) ==>
          n == (if repeat then Attempts(answers, maxRetries, 0) else 0) + 1 && outcome == Returned(answers(n - 1)))
    // Every answer but the last was a 429, and the last is what the caller gets.
    && (forall i :: 0 <= i < n - 1 ==> Throttled(answers(i)))
    && match outcome
       case Returned(a) => a == answers(n - 1) && a.Response? && waits == n - 1
                           && (Throttled(a) ==> !repeat || n == maxRetries + 1)
       case RequestFailed => answers(n - 1).Broken? && waits == n - 1
       case Cancelled => cancelled(n - 1) && Throttled(answers(n - 1)) && waits == n
  }

  lemma FailureEnds(attempt: nat, answers: nat -> Answer, cancelled: nat -> bool, repeat: bool, maxRetries: nat)
    requires attempt <= maxRetries && (attempt > 0 ==> repeat) && answers(attempt).Broken?
    requires forall i :: 0 <= i < attempt ==> Throttled(answers(i))
    ensures Ends(RequestFailed, attempt + 1, attempt, answers, cancelled, repeat, maxRetries)
  {
  }

  lemma CancelEnds(attempt: nat, answers: nat -> Answer, cancelled: nat -> bool, repeat: bool, maxRetries: nat)
    requires attempt <= maxRetries && repeat && Throttled(answers(attempt)) && cancelled(attempt)
    requires forall i :: 0 <= i < attempt ==> Throttled(answers(i))
    ensures Ends(Cancelled, attempt + 1, attempt + 1, answers, cancelled, repeat, maxRetries)
  {
  }

  lemma ReturnEnds(attempt: nat, answers: nat -> Answer, cancelled: nat -> bool, repeat: bool, maxRetries: nat)
    requires attempt <= maxRetries && (attempt > 0 ==> repeat) && answers(attempt).Response?
    requires forall i :: 0 <= i < attempt ==> Throttled(answers(i))
    requires !Throttled(answers(attempt)) || !repeat || attempt >= maxRetries
    ensures Ends(Returned(answers(attempt)), attempt + 1, attempt, answers, cancelled, repeat, maxRetries)
  {
    AttemptsAre(answers, maxRetries, 0, attempt);
  }

  /**
   `doWith`. `sends` are the bodies that went out and `sleeps` the waits between them. The body is buffered
   once, from GetBody, and every retry reads a new reader over that buffer: the first send has drained the old.
   */
  method DoWith(req: Request, maxRetries: nat, answers: nat -> Answer, jitter: nat -> int, cancelled: nat -> bool)
    returns (outcome: Outcome, sends: seq<Body>, sleeps: seq<int>)
    requires req.Valid()
    requires forall i :: 0 <= jitter(i) < SECOND
    modifies req, req.body
    ensures 1 <= |sends| <= maxRetries + 1
    ensures Ends(outcome, |sends|, |sleeps|, answers, cancelled, MayBeRepeated(req.verb, req.path), maxRetries)
    // The first send is what the request held, every later one the buffered body.
    ensures forall i :: 0 <= i < |sends| ==>
              sends[i] == Sent(old(req.Remaining()), if old(req.body) == null then None else req.getBody, i)
    // Each wait follows a 429, is the prescribed one, and is at most a minute.
    ensures forall i :: 0 <= i < |sleeps| ==> IsWait(i, answers(i), jitter(i), sleeps[i])
    // Without Retry-After the waits together stay below the closed form.
    ensures BelowBound(answers, sleeps)
  {
    hide RetryDelay, ParseRetryAfter, Pow2, BackoffBound, Sum, IsRetryable, MayBeRepeated, BelowBound, IsWait, Ends;
    var retryable := IsRetryable(req.verb, req.path);
    RetryableExactly(req.verb, req.path);
    var buffered: Option<Body> := None;
    if req.body != null && req.getBody.Some? {
      var rc := new Reader(req.getBody.value);
      var all := rc.ReadAll();
      buffered := Some(all);
    }
    ghost var first := req.Remaining();
    sends, sleeps := [], [];
    NothingWaited(answers);
    var attempt := 0;
    while true
      invariant 0 <= attempt <= maxRetries
      invariant |sends| == attempt && |sleeps| == attempt
      invariant req.Valid() && (req.body == old(req.body) || fresh(req.body))
      invariant req.Remaining() == if attempt == 0 then first else []
      invariant req.body == null <==> old(req.body) == null
      invariant forall i :: 0 <= i < |sends| ==> sends[i] == Sent(first, buffered, i)
      invariant attempt > 0 ==> retryable
      invariant forall i :: 0 <= i < attempt ==> Throttled(answers(i))
      invariant forall i :: 0 <= i < attempt ==> IsWait(i, answers(i), jitter(i), sleeps[i])
      invariant BelowBound(answers, sleeps)
      decreases maxRetries - attempt
    {
      var sent := SendAttempt(req, buffered, attempt);
      sends := sends + [sent];
      var answer := answers(attempt);
      if answer.Broken? {
        outcome := RequestFailed;
        FailureEnds(attempt, answers, cancelled, retryable, maxRetries);
        return;
      }
      if answer.status != TOO_MANY_REQUESTS || !retryable || attempt >= maxRetries {
        outcome := Returned(answer);
        ReturnEnds(attempt, answers, cancelled, retryable, maxRetries);
        return;
      }
      var delay := RetryDelay(attempt, ParseRetryAfter(answer.retryAfter), jitter(attempt));
      PrescribedWait(attempt, answer, jitter(attempt));
      BelowBoundStep(answers, sleeps, delay, jitter(attempt));
      sleeps := sleeps + [delay];
      if cancelled(attempt) {
        outcome := Cancelled;
        CancelEnds(attempt, answers, cancelled, retryable, maxRetries);
        return;
      }
      attempt := attempt + 1;
    }
  }

  /** A request newRequest built is sent with one identical body every time, or with none every time. */
  method SendNew(verb: Method, path: string, encoded: Option<Body>, maxRetries: nat, answers: nat -> Answer,
                 jitter: nat -> int, cancelled: nat -> bool)
    returns (outcome: Outcome, sends: seq<Body>, sleeps: seq<int>)
    requires forall i :: 0 <= jitter(i) < SECOND
    ensures 1 <= |sends| <= maxRetries + 1
    ensures forall i :: 0 <= i < |sends| ==> sends[i] == if encoded.Some? then encoded.value else []
  {
    var req := new Request(verb, path, encoded);
    outcome, sends, sleeps := DoWith(req, maxRetries, answers, jitter, cancelled);
  }

  lemma DelayIsBounded(attempt: nat, retryAfter: Option<nat>, jitter: int)
    requires 0 <= jitter < SECOND
    ensures 0 <= RetryDelay(attempt, retryAfter, jitter) <= 60 * SECOND
  {
    SmallPowers();
  }

  ghost predicate NoRetryAfter(answers: nat -> Answer, n: nat) {
    forall i :: 0 <= i < n ==> answers(i).Response? && ParseRetryAfter(answers(i).retryAfter).None?
  }

  /** Without Retry-After, the waits together stay below the closed form. */
  ghost predicate BelowBound(answers: nat -> Answer, sleeps: seq<int>) {
    NoRetryAfter(answers, |sleeps|) ==>
      Sum(sleeps) <= BackoffBound(|sleeps|) && (sleeps != [] ==> Sum(sleeps) < BackoffBound(|sleeps|))
  }

  lemma NothingWaited(answers: nat -> Answer)
    ensures BelowBound(answers, [])
  {
  }

  lemma BelowBoundStep(answers: nat -> Answer, sleeps: seq<int>, delay: int, jitter: int)
    requires BelowBound(answers, sleeps) && 0 <= jitter < SECOND
    requires answers(|sleeps|).Response?
    requires delay == RetryDelay(|sleeps|, ParseRetryAfter(answers(|sleeps|).retryAfter), jitter)
    ensures BelowBound(answers, sleeps + [delay])
  {
    if NoRetryAfter(answers, |sleeps| + 1) {
      assert NoRetryAfter(answers, |sleeps|);
      BackoffStep(|sleeps|);
      assert (sleeps + [delay])[..|sleeps|] == sleeps;
    }
  }
}

/**
 The request loop: expiry gate, budget, retry with bounded sleeps, rotation over
 validated addresses, and the capped body reader. Clocks, jitter and what the
 network does are inputs, one `Turn` per attempt.
 */
module Http {
  import opened Prelude
  import opened Numerals

  const DAY := 86400.0

  function RMin(a: real, b: real): real {
    if a <= b then a else b
  }

  function RMax(a: real, b: real): real {
    if a <= b then b else a
  }

  // ----- policy and script ----------------------------------------------------------------

  datatype RetryPolicy = RetryPolicy(
    attempts: int, backoffBase: real, backoffMax: real, retryStatuses: set<int>, retryAfterMax: Option<real>)

  /** What the address guard answers for an attempt; `Resolved` holds validated, distinct
      addresses in the resolver's order. */
  datatype Guard = NoGuard | Resolved(addresses: seq<string>) | Refused | Unresolved

  type BodyError = string

  /** What a request that was sent comes to. */
  datatype Reply =
    | TransportError
    | InvalidUrl
    | Undecodable
    | BodyRefused(e: BodyError)
    | Answer(status: int, body: bytes, retryAfter: Option<real>)

  /** The readings and events of one attempt: wall clock and monotonic clock at its start, the
      guard, the reply, the random draw of the backoff, and the monotonic clock before a sleep. */
  datatype Turn = Turn(wall: real, mono: real, guard: Guard, reply: Reply, jitter: real, sleepAt: real)

  /** A validated answer is never empty and names no address twice. */
  predicate TurnOk(t: Turn) {
    && 0.0 <= t.jitter <= 1.0
    && (t.guard.Resolved? ==> t.guard.addresses != [] && DistinctAddresses(t.guard.addresses))
  }

  predicate DistinctAddresses(s: seq<string>) {
    forall i, j :: 0 <= i < j < |s| ==> s[i] != s[j]
  }

  datatype Call = Call(hostOk: bool, validUntil: Option<real>, until: Option<real>, probe: bool, acceptNotModified: bool)

  datatype Outcome =
    | Done(status: int, body: bytes)
    | ListExpired | DeadlineExceeded | ForbiddenHost | ForbiddenAddress | Malformed
    | NotFound | Unexpected(code: int) | BodyFailed(e: BodyError) | Exhausted(last: Option<int>)

  datatype Opening = Opening(attempt: nat, wall: real, mono: real, address: Option<string>)

  datatype Pause = Pause(at: real, length: real)

  /** What a call has done so far, and the validated addresses it has used since every one had its
      turn. */
  datatype Trace = Trace(sent: seq<Opening>, pauses: seq<Pause>, tried: seq<string>)

  // ----- one sleep ---------------------------------------------------------------------------

  function Power2(k: nat): real {
    if k == 0 then 1.0 else 2.0 * Power2(k - 1)
  }

  /** A random share of a quantity, drawn by `jitter` between 0 and 1. */
  function Share(jitter: real, whole: real): real {
    jitter * whole
  }

  function BackoffCeiling(p: RetryPolicy, attempt: nat): real {
    RMin(p.backoffBase * Power2(attempt), p.backoffMax)
  }

  /** `RetryPolicy.backoff`: half fixed, half random. */
  function Backoff(p: RetryPolicy, attempt: nat, jitter: real): real {
    var half := BackoffCeiling(p, attempt) / 2.0;
    half + Share(jitter, half)
  }

  function PolicyCeiling(p: RetryPolicy): real {
    if p.retryAfterMax.Some? then p.retryAfterMax.value else p.backoffMax
  }

  /** The length of a sleep of `_sleep_before_retry`. */
  function Delay(p: RetryPolicy, attempt: nat, retryAfter: Option<real>, until: Option<real>, t: Turn): real {
    var asked := Backoff(p, attempt, t.jitter);
    var longer := if retryAfter.Some? then RMax(asked, retryAfter.value) else asked;
    var capped := RMin(RMin(longer, PolicyCeiling(p)), DAY);
    var budgeted := if until.Some? then RMin(capped, RMax(0.0, until.value - t.sleepAt)) else capped;
    RMax(0.0, budgeted)
  }

  /** The longest any sleep can be. */
  function LongestSleep(p: RetryPolicy): real {
    RMax(0.0, RMin(PolicyCeiling(p), DAY))
  }

  lemma DelayBounded(p: RetryPolicy, attempt: nat, retryAfter: Option<real>, until: Option<real>, t: Turn)
    ensures var d := Delay(p, attempt, retryAfter, until, t);
      && 0.0 <= d <= LongestSleep(p) <= DAY
      && (until.Some? && d > 0.0 ==> t.sleepAt + d <= until.value)
      && (until.Some? ==> (t.sleepAt + d <= until.value <==> t.sleepAt <= until.value))
  {
  }

  lemma Power2Grows(k: nat)
    ensures Power2(k) >= 1.0 && Power2(k + 1) == 2.0 * Power2(k)
  {
    if k > 0 { Power2Grows(k - 1); }
  }

  /** A sleep without a `Retry-After`: from half to the whole of a ceiling; the random part decides
      where between. */
  lemma BackoffRange(p: RetryPolicy, attempt: nat, jitter: real)
    requires BackoffCeiling(p, attempt) >= 0.0 && 0.0 <= jitter <= 1.0
    ensures var whole := BackoffCeiling(p, attempt);
      && whole <= 2.0 * Backoff(p, attempt, jitter) <= 2.0 * whole
      && (jitter == 0.0 ==> 2.0 * Backoff(p, attempt, jitter) == whole)
      && (jitter == 1.0 ==> Backoff(p, attempt, jitter) == whole)
  {
    hide BackoffCeiling, Share;
    ShareRange(jitter, BackoffCeiling(p, attempt) / 2.0);
  }

  lemma ShareRange(jitter: real, whole: real)
    requires 0.0 <= jitter <= 1.0 && whole >= 0.0
    ensures 0.0 <= Share(jitter, whole) <= whole
    ensures jitter == 0.0 ==> Share(jitter, whole) == 0.0
    ensures jitter == 1.0 ==> Share(jitter, whole) == whole
  {
    ProductNotNegative(jitter, whole);
    ProductNotNegative(1.0 - jitter, whole);
    assert (1.0 - jitter) * whole == whole - jitter * whole;
  }

  lemma ProductNotNegative(x: real, y: real)
    requires x >= 0.0 && y >= 0.0
    ensures x * y >= 0.0
  {
  }

  /** The ceiling doubles with each attempt until it meets the policy's maximum, and stays there. */
  lemma CeilingDoubles(p: RetryPolicy, attempt: nat)
    ensures p.backoffBase <= p.backoffMax ==> BackoffCeiling(p, 0) == p.backoffBase
    ensures p.backoffMax >= 0.0 ==>
      BackoffCeiling(p, attempt + 1) == if 2.0 * BackoffCeiling(p, attempt) <= p.backoffMax then 2.0 * BackoffCeiling(p, attempt) else p.backoffMax
  {
    var x := p.backoffBase * Power2(attempt);
    assert p.backoffBase * Power2(attempt + 1) == 2.0 * x by { DoubleProduct(p.backoffBase, Power2(attempt)); }
    hide Power2;
  }

  lemma DoubleProduct(x: real, y: real)
    ensures x * (2.0 * y) == 2.0 * (x * y)
  {
  }

  /** A server's `Retry-After` is waited out in full unless the policy's ceiling, a day or the budget is
      shorter; then the shortest of those is waited, and the jittered backoff is never undercut
      otherwise. */
  lemma RetryAfterHonoured(p: RetryPolicy, attempt: nat, retryAfter: Option<real>, until: Option<real>, t: Turn)
    ensures var d := Delay(p, attempt, retryAfter, until, t);
      var limits := [if p.retryAfterMax.Some? then p.retryAfterMax.value else p.backoffMax, 86400.0]
                    + if until.Some? then [until.value - t.sleepAt] else [];
      var wishes := [Backoff(p, attempt, t.jitter)] + if retryAfter.Some? then [retryAfter.value] else [];
      && (forall l | l in limits :: d <= l || d == 0.0)
      && (forall w | w in wishes :: d >= w || d in limits || (d == 0.0 && exists l | l in limits :: l < 0.0))
      && (d in wishes || d in limits || d == 0.0)
      && ((exists w | w in wishes :: w > 0.0) && (forall l | l in limits :: l > 0.0) ==> d > 0.0)
  {
    hide Backoff;
  }

  // ----- one address ---------------------------------------------------------------------------

  function Fresh(addresses: seq<string>, tried: seq<string>): (r: seq<string>)
    ensures forall a | a in r :: a in addresses && a !in tried
    ensures r == [] ==> forall a | a in addresses :: a in tried
  {
    if addresses == [] then []
    else (if addresses[0] in tried then [] else [addresses[0]]) + Fresh(addresses[1..], tried)
  }

  /** The address an attempt uses and the used list it leaves. */
  function Pick(addresses: seq<string>, tried: seq<string>): (r: (string, seq<string>))
    requires addresses != []
    ensures r.0 in addresses
    ensures (exists a | a in addresses :: a !in tried) ==> r.0 !in tried
  {
    var unused := Fresh(addresses, tried);
    if unused == [] then (addresses[0], [addresses[0]]) else (unused[0], tried + [unused[0]])
  }

  // ----- the loop ---------------------------------------------------------------------------------

  /** How an attempt ends: the call is over, or another attempt follows after this status. */
  datatype Verdict = Over(outcome: Outcome) | Again(status: Option<int>)

  function Sleep(p: RetryPolicy, c: Call, attempt: nat, t: Turn, retryAfter: Option<real>, trace: Trace): Trace {
    if attempt >= p.attempts - 1 then trace
    else trace.(pauses := trace.pauses + [Pause(t.sleepAt, Delay(p, attempt, retryAfter, c.until, t))])
  }

  /** What the loop makes of the reply to a request that was sent. */
  function Answered(p: RetryPolicy, c: Call, attempt: nat, t: Turn, trace: Trace): (Trace, Verdict) {
    match t.reply
    case InvalidUrl => (trace, Over(ForbiddenHost))
    case Undecodable => (trace, Over(Malformed))
    case BodyRefused(e) => (trace, Over(BodyFailed(e)))
    case TransportError => (Sleep(p, c, attempt, t, None, trace), Again(None))
    case Answer(status, body, retryAfter) =>
      if status == 200 then (trace, Over(Done(status, body)))
      else if (status == 304 && c.acceptNotModified) || c.probe then (trace, Over(Done(status, [])))
      else if status == 404 then (trace, Over(NotFound))
      else if status in p.retryStatuses then (Sleep(p, c, attempt, t, retryAfter, trace), Again(Some(status)))
      else (trace, Over(Unexpected(status)))
  }

  /** The body of the loop of `_request`. */
  function Attempt(p: RetryPolicy, c: Call, attempt: nat, t: Turn, trace: Trace): (Trace, Verdict)
    requires TurnOk(t)
  {
    if c.validUntil.Some? && t.wall >= c.validUntil.value then (trace, Over(ListExpired))
    else if c.until.Some? && c.until.value - t.mono <= 0.0 then (trace, Over(DeadlineExceeded))
    else
      match t.guard
      case Refused => (trace, Over(ForbiddenAddress))
      case Unresolved => (Sleep(p, c, attempt, t, None, trace), Again(None))
      case NoGuard =>
        Answered(p, c, attempt, t, trace.(sent := trace.sent + [Opening(attempt, t.wall, t.mono, None)]))
      case Resolved(addresses) =>
        var (address, tried) := Pick(addresses, trace.tried);
        Answered(p, c, attempt, t,
                 trace.(sent := trace.sent + [Opening(attempt, t.wall, t.mono, Some(address))], tried := tried))
  }

  ghost predicate ScriptOk(script: nat -> Turn) {
    forall k :: TurnOk(script(k))
  }

  function Loop(p: RetryPolicy, c: Call, script: nat -> Turn, attempt: nat, trace: Trace, last: Option<int>): (Trace, Outcome)
    requires ScriptOk(script)
    decreases p.attempts - attempt
  {
    if attempt >= p.attempts then (trace, Exhausted(last))
    else
      var (next, verdict) := Attempt(p, c, attempt, script(attempt), trace);
      match verdict
      case Over(outcome) => (next, outcome)
      case Again(status) => Loop(p, c, script, attempt + 1, next, status)
  }

  /** A probe runs only the last attempt index. */
  function First(p: RetryPolicy, c: Call): nat {
    if c.probe && p.attempts >= 1 then p.attempts - 1 else 0
  }

  const START := Trace([], [], [])

  function RequestOf(p: RetryPolicy, c: Call, script: nat -> Turn): (Trace, Outcome)
    requires ScriptOk(script)
  {
    if !c.hostOk then (START, ForbiddenHost) else Loop(p, c, script, First(p, c), START, None)
  }

  /** `_request`. */
  method Request(p: RetryPolicy, c: Call, script: nat -> Turn) returns (trace: Trace, outcome: Outcome)
    requires ScriptOk(script)
    ensures (trace, outcome) == RequestOf(p, c, script)
  {
    hide Attempt;
    trace := START;
    if !c.hostOk {
      return trace, ForbiddenHost;
    }
    var last: Option<int> := None;
    var attempt := First(p, c);
    while attempt < p.attempts
      invariant RequestOf(p, c, script) == Loop(p, c, script, attempt, trace, last)
      decreases p.attempts - attempt
    {
      var (next, verdict) := Attempt(p, c, attempt, script(attempt), trace);
      trace := next;
      match verdict {
        case Over(o) => return trace, o;
        case Again(status) => last := status;
      }
      attempt := attempt + 1;
    }
    return trace, Exhausted(last);
  }

  // ----- bounds ---------------------------------------------------------------------------------------

  function Total(pauses: seq<Pause>): real {
    if pauses == [] then 0.0 else Total(pauses[..|pauses| - 1]) + pauses[|pauses| - 1].length
  }

  /** Requests sent in time, at most one per index; sleeps within the ceiling and the budget, at
      most one per index but the last. */
  ghost predicate Bounded(p: RetryPolicy, c: Call, first: nat, attempt: nat, trace: Trace) {
    && |trace.sent| <= attempt - first
    && (forall i :: 0 <= i < |trace.sent| ==> OpenedInTime(c, trace.sent[i]))
    && (forall i, j :: 0 <= i < j < |trace.sent| ==> trace.sent[i].attempt < trace.sent[j].attempt)
    && (forall i :: 0 <= i < |trace.sent| ==> first <= trace.sent[i].attempt < attempt)
    && |trace.pauses| <= attempt - first
    && |trace.pauses| <= Max(0, p.attempts - 1 - first)
    && (forall i :: 0 <= i < |trace.pauses| ==> PauseOk(p, c, trace.pauses[i]))
  }

  predicate OpenedInTime(c: Call, o: Opening) {
    && (c.validUntil.Some? ==> o.wall < c.validUntil.value)
    && (c.until.Some? ==> o.mono < c.until.value)
  }

  predicate PauseOk(p: RetryPolicy, c: Call, s: Pause) {
    && 0.0 <= s.length <= LongestSleep(p)
    && (c.until.Some? && s.length > 0.0 ==> s.at + s.length <= c.until.value)
    && (c.until.Some? ==> (s.at + s.length <= c.until.value <==> s.at <= c.until.value))
  }

  lemma SleepBounded(p: RetryPolicy, c: Call, first: nat, attempt: nat, t: Turn, retryAfter: Option<real>, trace: Trace)
    requires first <= attempt < p.attempts && |trace.pauses| <= attempt - first
    requires forall i :: 0 <= i < |trace.pauses| ==> PauseOk(p, c, trace.pauses[i])
    ensures var next := Sleep(p, c, attempt, t, retryAfter, trace);
      && next.sent == trace.sent && next.tried == trace.tried
      && |next.pauses| <= attempt + 1 - first && |next.pauses| <= Max(0, p.attempts - 1 - first)
      && (forall i :: 0 <= i < |next.pauses| ==> PauseOk(p, c, next.pauses[i]))
  {
    DelayBounded(p, attempt, retryAfter, c.until, t);
  }

  lemma AnsweredBounded(p: RetryPolicy, c: Call, first: nat, attempt: nat, t: Turn, trace: Trace)
    requires first <= attempt < p.attempts
    requires |trace.pauses| <= attempt - first && Bounded(p, c, first, attempt + 1, trace)
    ensures Bounded(p, c, first, attempt + 1, Answered(p, c, attempt, t, trace).0)
  {
    hide Sleep, PauseOk, OpenedInTime;
    SleepBounded(p, c, first, attempt, t, None, trace);
    if t.reply.Answer? { SleepBounded(p, c, first, attempt, t, t.reply.retryAfter, trace); }
  }

  lemma AttemptBounded(p: RetryPolicy, c: Call, first: nat, attempt: nat, t: Turn, trace: Trace)
    requires TurnOk(t) && first <= attempt < p.attempts && Bounded(p, c, first, attempt, trace)
    ensures Bounded(p, c, first, attempt + 1, Attempt(p, c, attempt, t, trace).0)
  {
    hide Sleep, PauseOk, Pick, Answered;
    SleepBounded(p, c, first, attempt, t, None, trace);
    if !(c.validUntil.Some? && t.wall >= c.validUntil.value) && !(c.until.Some? && c.until.value - t.mono <= 0.0) {
      var address, tried := None, trace.tried;
      if t.guard.Resolved? {
        address, tried := Some(Pick(t.guard.addresses, trace.tried).0), Pick(t.guard.addresses, trace.tried).1;
      }
      var o := Opening(attempt, t.wall, t.mono, address);
      var sent := trace.(sent := trace.sent + [o], tried := tried);
      assert OpenedInTime(c, o);
      assert Bounded(p, c, first, attempt + 1, sent);
      AnsweredBounded(p, c, first, attempt, t, sent);
    }
  }

  lemma {:induction false} LoopBounded(p: RetryPolicy, c: Call, script: nat -> Turn, first: nat, attempt: nat, trace: Trace, last: Option<int>)
    requires ScriptOk(script) && first <= attempt && (attempt <= p.attempts || trace == START)
    requires Bounded(p, c, first, attempt, trace)
    ensures Bounded(p, c, first, Max(attempt, p.attempts), Loop(p, c, script, attempt, trace, last).0)
    decreases p.attempts - attempt
  {
    hide Attempt, Bounded;
    if attempt < p.attempts {
      AttemptBounded(p, c, first, attempt, script(attempt), trace);
      var (next, verdict) := Attempt(p, c, attempt, script(attempt), trace);
      match verdict {
        case Over(_) => BoundedLater(p, c, first, attempt + 1, p.attempts, next);
        case Again(status) => LoopBounded(p, c, script, first, attempt + 1, next, status);
      }
    }
  }

  lemma BoundedLater(p: RetryPolicy, c: Call, first: nat, attempt: nat, later: nat, trace: Trace)
    requires attempt <= later && Bounded(p, c, first, attempt, trace)
    ensures Bounded(p, c, first, later, trace)
  {
  }

  function Times(n: nat, x: real): real {
    n as real * x
  }

  lemma {:induction false} TotalBounded(pauses: seq<Pause>, longest: real)
    requires 0.0 <= longest && forall i :: 0 <= i < |pauses| ==> pauses[i].length <= longest
    ensures Total(pauses) <= Times(|pauses|, longest)
    decreases |pauses|
  {
    if pauses != [] {
      TotalBounded(pauses[..|pauses| - 1], longest);
      var n := |pauses| - 1;
      assert (n + 1) as real == n as real + 1.0;
      assert (n as real + 1.0) * longest == n as real * longest + longest;
    }
  }

  lemma MoreTimes(n: nat, m: nat, x: real)
    requires n <= m && 0.0 <= x
    ensures Times(n, x) <= Times(m, x)
  {
    assert m as real * x - n as real * x == (m - n) as real * x;
  }

  /** Whatever the network answers: at most `attempts` requests are sent, a probe's at most one;
      none once the wall clock reads the end of the list's life or the budget is spent; sleeps
      total at most (attempts - 1) times the ceiling, whatever `Retry-After` asks; a sleep ends
      within the budget exactly when it starts within it, and one that takes any time always does. */
  lemma RequestBounded(p: RetryPolicy, c: Call, script: nat -> Turn)
    requires ScriptOk(script)
    ensures var trace := RequestOf(p, c, script).0;
      && |trace.sent| <= Max(0, p.attempts) && (c.probe ==> |trace.sent| <= 1 && trace.pauses == [])
      && (forall o | o in trace.sent :: OpenedInTime(c, o))
      && (forall i, j :: 0 <= i < j < |trace.sent| ==> trace.sent[i].attempt < trace.sent[j].attempt)
      && Total(trace.pauses) <= Times(Max(0, p.attempts - 1), LongestSleep(p))
      && (forall s | s in trace.pauses :: PauseOk(p, c, s))
  {
    hide Loop, OpenedInTime, PauseOk;
    var trace := RequestOf(p, c, script).0;
    var first := First(p, c);
    assert Bounded(p, c, first, first, START);
    LoopBounded(p, c, script, first, first, START, None);
    assert c.hostOk ==> Bounded(p, c, first, Max(first, p.attempts), trace);
    hide Total, LongestSleep, Times;
    PausesTotal(p, c, trace.pauses, Max(0, p.attempts - 1));
  }

  lemma PausesTotal(p: RetryPolicy, c: Call, pauses: seq<Pause>, n: nat)
    requires |pauses| <= n && forall i :: 0 <= i < |pauses| ==> PauseOk(p, c, pauses[i])
    ensures Total(pauses) <= Times(n, LongestSleep(p))
  {
    CeilingNotNegative(p);
    hide LongestSleep, Times, Total;
    TotalBounded(pauses, LongestSleep(p));
    MoreTimes(|pauses|, n, LongestSleep(p));
  }

  /** The gate reads the clock before the request, not after it: a request that outlasts the budget
      is followed by a sleep of no length that starts, and so ends, past it. */
  lemma SleepCanStartLate()
    ensures var p := RetryPolicy(2, 1.0, 1.0, {}, None);
      var c := Call(true, None, Some(1.0), false, false);
      var script := (k: nat) => Turn(0.0, 2.0 * k as real, NoGuard, TransportError, 0.0, 2.0);
      ScriptOk(script) && RequestOf(p, c, script) ==
        (Trace([Opening(0, 0.0, 0.0, None)], [Pause(2.0, 0.0)], []), DeadlineExceeded)
  {
    var p := RetryPolicy(2, 1.0, 1.0, {}, None);
    var c := Call(true, None, Some(1.0), false, false);
    var script := (k: nat) => Turn(0.0, 2.0 * k as real, NoGuard, TransportError, 0.0, 2.0);
    var after := Trace([Opening(0, 0.0, 0.0, None)], [Pause(2.0, 0.0)], []);
    assert Delay(p, 0, None, c.until, script(0)) == 0.0;
    assert START.sent + [Opening(0, 0.0, 0.0, None)] == after.sent && START.pauses + [Pause(2.0, 0.0)] == after.pauses;
    assert Attempt(p, c, 0, script(0), START) == (after, Again(None));
    assert Loop(p, c, script, 1, after, None) == (after, DeadlineExceeded);
  }

  lemma CeilingNotNegative(p: RetryPolicy)
    ensures 0.0 <= LongestSleep(p) <= DAY
  {
  }

  // ----- the outcome ----------------------------------------------------------------------------------

  /** The list is alive and the budget not spent when the attempt begins. */
  predicate Begins(c: Call, t: Turn) {
    (c.validUntil.Some? ==> t.wall < c.validUntil.value) && (c.until.Some? ==> t.mono < c.until.value)
  }

  /** Another attempt follows: the name did not resolve, the network failed, or the answer of a call that
      is not a probe has a status the policy retries; a 200, a 404 and an accepted 304 are never retried. */
  predicate Retried(p: RetryPolicy, c: Call, t: Turn) {
    && Begins(c, t) && !t.guard.Refused?
    && (t.guard.Unresolved? || t.reply.TransportError?
        || (t.reply.Answer? && !c.probe && t.reply.status in p.retryStatuses && t.reply.status != 200 && t.reply.status != 404
            && !(t.reply.status == 304 && c.acceptNotModified)))
  }

  /** The attempt ends the call with this outcome. */
  predicate EndsAs(p: RetryPolicy, c: Call, t: Turn, outcome: Outcome) {
    if c.validUntil.Some? && t.wall >= c.validUntil.value then outcome == ListExpired
    else if c.until.Some? && t.mono >= c.until.value then outcome == DeadlineExceeded
    else if t.guard.Refused? then outcome == ForbiddenAddress
    else if t.guard.Unresolved? then false
    else
      match t.reply
      case TransportError => false
      case InvalidUrl => outcome == ForbiddenHost
      case Undecodable => outcome == Malformed
      case BodyRefused(e) => outcome == BodyFailed(e)
      case Answer(status, body, _) =>
        || (status == 200 && outcome == Done(200, body))
        || (status != 200 && (c.probe || (status == 304 && c.acceptNotModified)) && outcome == Done(status, []))
        || (status == 404 && !c.probe && outcome == NotFound)
        || (status !in {200, 404} && !c.probe && !(status == 304 && c.acceptNotModified)
            && status !in p.retryStatuses && outcome == Unexpected(status))
  }

  lemma AttemptRule(p: RetryPolicy, c: Call, attempt: nat, t: Turn, trace: Trace)
    requires TurnOk(t)
    ensures var verdict := Attempt(p, c, attempt, t, trace).1;
      && (forall outcome :: verdict == Over(outcome) <==> EndsAs(p, c, t, outcome))
      && (verdict.Again? <==> Retried(p, c, t))
      && (verdict.Again? ==> verdict.status == if !t.guard.Unresolved? && t.reply.Answer? then Some(t.reply.status) else None)
  {
    hide Pick, Sleep;
  }

  /** The outcome of a call, exactly: that of the first attempt that is not retried, or, when every one
      is, the exhaustion with the last status answered. A probe has the one last attempt. */
  lemma {:induction false} LoopRule(p: RetryPolicy, c: Call, script: nat -> Turn, attempt: nat, trace: Trace, last: Option<int>, outcome: Outcome)
    requires ScriptOk(script) && attempt <= p.attempts
    ensures Loop(p, c, script, attempt, trace, last).1 == outcome <==>
      || (exists k: nat | attempt <= k < p.attempts :: EndsAs(p, c, script(k), outcome) && AllRetried(p, c, script, attempt, k))
      || (AllRetried(p, c, script, attempt, p.attempts)
          && outcome == Exhausted(if attempt == p.attempts then last else LastStatus(script(p.attempts - 1))))
    decreases p.attempts - attempt
  {
    hide Attempt, EndsAs, Retried;
    if attempt < p.attempts {
      var t := script(attempt);
      AttemptRule(p, c, attempt, t, trace);
      EndsOrRetried(p, c, t);
      var (next, verdict) := Attempt(p, c, attempt, t, trace);
      if verdict.Again? {
        LoopRule(p, c, script, attempt + 1, next, verdict.status, outcome);
        assert forall k: nat | attempt < k <= p.attempts ::
          AllRetried(p, c, script, attempt, k) <==> AllRetried(p, c, script, attempt + 1, k);
      } else {
        assert EndsAs(p, c, t, verdict.outcome) && AllRetried(p, c, script, attempt, attempt);
      }
    }
  }

  ghost predicate AllRetried(p: RetryPolicy, c: Call, script: nat -> Turn, from: nat, to: int) {
    forall k: nat | from <= k < to :: Retried(p, c, script(k))
  }

  function LastStatus(t: Turn): Option<int> {
    if !t.guard.Unresolved? && t.reply.Answer? then Some(t.reply.status) else None
  }

  lemma EndsOrRetried(p: RetryPolicy, c: Call, t: Turn)
    ensures Retried(p, c, t) ==> forall outcome :: !EndsAs(p, c, t, outcome)
  {
  }

  /** `_request`, exactly. */
  lemma RequestRule(p: RetryPolicy, c: Call, script: nat -> Turn, outcome: Outcome)
    requires ScriptOk(script)
    ensures RequestOf(p, c, script).1 == outcome <==>
      if !c.hostOk then outcome == ForbiddenHost
      else if p.attempts < 1 then outcome == Exhausted(None)
      else
        var first: nat := if c.probe then p.attempts - 1 else 0;
        || (exists k: nat | first <= k < p.attempts :: EndsAs(p, c, script(k), outcome) && AllRetried(p, c, script, first, k))
        || (AllRetried(p, c, script, first, p.attempts) && outcome == Exhausted(LastStatus(script(p.attempts - 1))))
  {
    hide EndsAs, Retried, Attempt;
    if c.hostOk && p.attempts < 1 {
      assert Loop(p, c, script, 0, START, None).1 == Exhausted(None);
    } else if c.hostOk {
      LoopRule(p, c, script, First(p, c), START, None, outcome);
    }
  }

  // ----- the requests and the sleeps ----------------------------------------------------------------------

  /** The attempt sends a request: it begins, and its guard gives an address or there is none. */
  predicate Sends(c: Call, t: Turn) {
    Begins(c, t) && (t.guard.NoGuard? || t.guard.Resolved?)
  }

  function SentAt(c: Call, t: Turn, attempt: nat): seq<(nat, real, real)> {
    if Sends(c, t) then [(attempt, t.wall, t.mono)] else []
  }

  /** A sleep as long as the attempt's backoff or the `Retry-After` its answer carried asks for. */
  function SleepAt(p: RetryPolicy, c: Call, t: Turn, attempt: nat): Pause {
    var asked := if !t.guard.Unresolved? && t.reply.Answer? then t.reply.retryAfter else None;
    Pause(t.sleepAt, Delay(p, attempt, asked, c.until, t))
  }

  /** The attempts from `from` to `to` that send a request, with their two clock readings. */
  ghost function SendingAttempts(c: Call, script: nat -> Turn, from: nat, to: int): seq<(nat, real, real)>
    decreases to - from
  {
    if from >= to then [] else SentAt(c, script(from), from) + SendingAttempts(c, script, from + 1, to)
  }

  /** A sleep after each of the attempts. */
  ghost function SleepsAfter(p: RetryPolicy, c: Call, script: nat -> Turn, from: nat, to: int): seq<Pause>
    decreases to - from
  {
    if from >= to then [] else [SleepAt(p, c, script(from), from)] + SleepsAfter(p, c, script, from + 1, to)
  }

  /** The openings of a trace without their addresses. */
  function Openings(sent: seq<Opening>): (r: seq<(nat, real, real)>)
    ensures |r| == |sent|
  {
    seq(|sent|, i requires 0 <= i < |sent| => (sent[i].attempt, sent[i].wall, sent[i].mono))
  }

  lemma AttemptTrace(p: RetryPolicy, c: Call, attempt: nat, t: Turn, trace: Trace)
    requires TurnOk(t)
    ensures var next := Attempt(p, c, attempt, t, trace).0;
      && Openings(next.sent) == Openings(trace.sent) + SentAt(c, t, attempt)
      && next.pauses == trace.pauses + (if Retried(p, c, t) && attempt < p.attempts - 1 then [SleepAt(p, c, t, attempt)] else [])
  {
    hide Pick, Delay;
  }

  /** The attempts a call makes stop at the first that is not retried, or at the last. */
  predicate StopsAt(p: RetryPolicy, c: Call, script: nat -> Turn, first: nat, stop: nat) {
    && first <= stop < p.attempts
    && (stop == p.attempts - 1 || !Retried(p, c, script(stop)))
    && forall k: nat | first <= k < stop :: Retried(p, c, script(k))
  }

  lemma {:induction false} LoopTrace(p: RetryPolicy, c: Call, script: nat -> Turn, attempt: nat, trace: Trace, last: Option<int>, stop: nat)
    requires ScriptOk(script) && StopsAt(p, c, script, attempt, stop)
    ensures var end := Loop(p, c, script, attempt, trace, last).0;
      && Openings(end.sent) == Openings(trace.sent) + SendingAttempts(c, script, attempt, stop + 1)
      && end.pauses == trace.pauses + SleepsAfter(p, c, script, attempt, stop)
    decreases stop - attempt
  {
    hide *;
    var t := script(attempt);
    LoopNext(p, c, script, attempt, trace, last, stop);
    var (next, verdict) := Attempt(p, c, attempt, t, trace);
    AttemptTrace(p, c, attempt, t, trace);
    if attempt < stop {
      LoopTrace(p, c, script, attempt + 1, next, verdict.status, stop);
      ConcatAssoc(Openings(trace.sent), SentAt(c, t, attempt), SendingAttempts(c, script, attempt + 1, stop + 1));
      ConcatAssoc(trace.pauses, [SleepAt(p, c, t, attempt)], SleepsAfter(p, c, script, attempt + 1, stop));
    }
  }

  lemma LoopNext(p: RetryPolicy, c: Call, script: nat -> Turn, attempt: nat, trace: Trace, last: Option<int>, stop: nat)
    requires ScriptOk(script) && StopsAt(p, c, script, attempt, stop)
    ensures TurnOk(script(attempt)) && attempt <= stop
    ensures var (next, verdict) := Attempt(p, c, attempt, script(attempt), trace);
      Loop(p, c, script, attempt, trace, last).0
        == if attempt < stop && verdict.Again? then Loop(p, c, script, attempt + 1, next, verdict.status).0 else next
    ensures attempt < stop ==>
      StopsAt(p, c, script, attempt + 1, stop) && Retried(p, c, script(attempt)) && attempt < p.attempts - 1
      && Attempt(p, c, attempt, script(attempt), trace).1.Again?
    ensures attempt == stop ==> !(Retried(p, c, script(attempt)) && attempt < p.attempts - 1)
    ensures SendingAttempts(c, script, attempt, stop + 1)
         == SentAt(c, script(attempt), attempt) + SendingAttempts(c, script, attempt + 1, stop + 1)
    ensures SendingAttempts(c, script, stop + 1, stop + 1) == [] && SleepsAfter(p, c, script, stop, stop) == []
    ensures attempt < stop ==>
      SleepsAfter(p, c, script, attempt, stop) == [SleepAt(p, c, script(attempt), attempt)] + SleepsAfter(p, c, script, attempt + 1, stop)
  {
    hide Attempt, SentAt, SleepAt, Retried;
    AttemptRule(p, c, attempt, script(attempt), trace);
  }

  /** Everything a call does, exactly: one request per attempt that begins and is not stopped by the
      guard, and one sleep after every attempt but the last. */
  lemma TraceRule(p: RetryPolicy, c: Call, script: nat -> Turn) returns (stop: nat)
    requires ScriptOk(script) && c.hostOk && p.attempts >= 1
    ensures var first: nat := if c.probe then p.attempts - 1 else 0;
      && StopsAt(p, c, script, first, stop)
      && Openings(RequestOf(p, c, script).0.sent) == SendingAttempts(c, script, first, stop + 1)
      && RequestOf(p, c, script).0.pauses == SleepsAfter(p, c, script, first, stop)
  {
    hide Retried, Sends, Delay, Attempt;
    stop := First(p, c);
    while stop < p.attempts - 1 && Retried(p, c, script(stop))
      invariant First(p, c) <= stop < p.attempts
      invariant forall k: nat | First(p, c) <= k < stop :: Retried(p, c, script(k))
    {
      stop := stop + 1;
    }
    LoopTrace(p, c, script, First(p, c), START, None, stop);
    assert Openings([]) == [];
  }

  // ----- rotation -----------------------------------------------------------------------------------------

  /** How many addresses have had their turn after `k` attempts on `n` addresses. */
  function Used(k: nat, n: nat): (r: nat)
    requires n >= 1
    ensures r <= n
  {
    if k == 0 then 0 else (k - 1) % n + 1
  }

  lemma {:induction false} FreshAfter(addresses: seq<string>, tried: seq<string>, r: nat)
    requires DistinctAddresses(addresses) && r <= |addresses|
    requires forall a | a in addresses[..r] :: a in tried
    requires forall a | a in addresses[r..] :: a !in tried
    ensures Fresh(addresses, tried) == addresses[r..]
    decreases |addresses|
  {
    if addresses != [] {
      var rest := addresses[1..];
      assert forall i :: 0 <= i < |rest| ==> rest[i] == addresses[i + 1];
      if r == 0 {
        assert addresses[0] in addresses[0..];
        assert rest[..0] == [] && addresses[0..] == [addresses[0]] + rest && rest[0..] == rest;
        FreshAfter(rest, tried, 0);
      } else {
        assert addresses[0] in addresses[..r];
        assert rest[..r - 1] == addresses[1..r] && rest[r - 1..] == addresses[r..];
        assert addresses[..r] == [addresses[0]] + addresses[1..r];
        FreshAfter(rest, tried, r - 1);
      }
    }
  }

  lemma PickNext(addresses: seq<string>, r: nat)
    requires addresses != [] && DistinctAddresses(addresses) && r <= |addresses|
    ensures Pick(addresses, addresses[..r]) ==
      if r < |addresses| then (addresses[r], addresses[..r + 1]) else (addresses[0], addresses[..1])
  {
    var tried := addresses[..r];
    forall a | a in addresses[r..]
      ensures a !in tried
    {
      var j :| 0 <= j < |addresses| - r && addresses[r..][j] == a;
      assert addresses[r + j] == a;
    }
    FreshAfter(addresses, tried, r);
    hide Fresh, DistinctAddresses;
    if r < |addresses| {
      assert tried + [addresses[r]] == addresses[..r + 1];
    } else {
      assert addresses[r..] == [];
      assert addresses[..1] == [addresses[0]];
    }
  }

  lemma PickRotates(addresses: seq<string>, k: nat)
    requires addresses != [] && DistinctAddresses(addresses)
    ensures var n := |addresses|;
      Pick(addresses, addresses[..Used(k, n)]) == (addresses[k % n], addresses[..Used(k + 1, n)])
  {
    hide Pick, DistinctAddresses;
    PickNext(addresses, Used(k, |addresses|));
    NextIndex(k, |addresses|);
  }

  lemma NextIndex(k: nat, n: nat)
    requires n >= 1
    ensures k % n == if Used(k, n) == n then 0 else Used(k, n)
    ensures Used(k + 1, n) == k % n + 1
  {
    if k == 0 {
      DivModUnique(0, 0, n);
      assert 0 * n + 0 == 0;
    } else {
      var q, r := (k - 1) / n, (k - 1) % n + 1;
      DivMod2(k - 1, n);
      if r == n {
        assert (q + 1) * n + 0 == q * n + n;
        DivModUnique(q + 1, 0, n);
      } else {
        DivModUnique(q, r, n);
      }
    }
  }

  lemma DivMod2(k: nat, n: nat)
    requires n >= 1
    ensures k == (k / n) * n + k % n && 0 <= k % n < n
  {
  }

  /** The address attempt `k` of a call must use. */
  ghost predicate Rotated(trace: Trace, addresses: seq<string>, first: nat, k: nat)
    requires addresses != []
  {
    && |trace.sent| == k && trace.tried == addresses[..Used(k, |addresses|)]
    && forall i :: 0 <= i < k ==> trace.sent[i].address == Some(addresses[i % |addresses|])
  }

  lemma AttemptRotates(p: RetryPolicy, c: Call, first: nat, attempt: nat, t: Turn, trace: Trace, addresses: seq<string>)
    requires TurnOk(t) && t.guard == Resolved(addresses) && first <= attempt
    requires Rotated(trace, addresses, first, attempt - first)
    ensures var next := Attempt(p, c, attempt, t, trace).0;
      next == trace || Rotated(next, addresses, first, attempt + 1 - first)
    ensures Attempt(p, c, attempt, t, trace).1.Again? ==>
      Rotated(Attempt(p, c, attempt, t, trace).0, addresses, first, attempt + 1 - first)
  {
    hide Delay, Pick, Used;
    PickRotates(addresses, attempt - first);
  }

  lemma {:induction false} LoopRotates(p: RetryPolicy, c: Call, script: nat -> Turn, first: nat, attempt: nat, trace: Trace, last: Option<int>,
                      addresses: seq<string>)
    requires ScriptOk(script) && first <= attempt && addresses != [] && Rotated(trace, addresses, first, attempt - first)
    requires forall k :: script(k).guard == Resolved(addresses)
    ensures var end := Loop(p, c, script, attempt, trace, last).0;
      Rotated(end, addresses, first, |end.sent|)
    decreases p.attempts - attempt
  {
    hide Attempt, Rotated;
    assert |trace.sent| == attempt - first by { OpenedCount(trace, addresses, first, attempt - first); }
    if attempt < p.attempts {
      var (next, verdict) := Attempt(p, c, attempt, script(attempt), trace);
      AttemptRotates(p, c, first, attempt, script(attempt), trace, addresses);
      if next != trace { OpenedCount(next, addresses, first, attempt + 1 - first); }
      match verdict {
        case Over(_) =>
        case Again(status) => LoopRotates(p, c, script, first, attempt + 1, next, status, addresses);
      }
    }
  }

  lemma OpenedCount(trace: Trace, addresses: seq<string>, first: nat, k: nat)
    requires addresses != [] && Rotated(trace, addresses, first, k)
    ensures |trace.sent| == k
  {
  }

  /** While the resolver keeps giving the same n addresses, the i-th request goes to address
      i mod n: every address has its turn before any has a second. */
  lemma StableAnswerRotates(p: RetryPolicy, c: Call, script: nat -> Turn, addresses: seq<string>)
    requires ScriptOk(script) && addresses != [] && forall k :: script(k).guard == Resolved(addresses)
    ensures var sent := RequestOf(p, c, script).0.sent;
      forall i :: 0 <= i < |sent| ==> sent[i].address == Some(addresses[i % |addresses|])
  {
    hide Loop;
    var first := First(p, c);
    assert Rotated(START, addresses, first, 0);
    if c.hostOk {
      LoopRotates(p, c, script, first, first, START, None, addresses);
    }
  }

  // ----- the body ---------------------------------------------------------------------------------------------

  /** A chunk of a 200 body: its wire bytes, the clock when it arrives, and what the decompressor
      can make of it: nothing readable, or output that may end the stream or be followed by bytes
      that do not belong to it. */
  datatype Chunk = Chunk(data: bytes, at: real, decoded: Option<bytes>, ends: bool, extra: bool)

  datatype ReadError = TooLarge | TooLate | BadStream

  function Wire(chunks: seq<Chunk>): nat {
    if chunks == [] then 0 else Wire(chunks[..|chunks| - 1]) + |chunks[|chunks| - 1].data|
  }

  /** The whole body: the wire bytes, or everything they decode to. */
  function Whole(chunks: seq<Chunk>, coded: bool): bytes {
    if chunks == [] then []
    else
      var last := chunks[|chunks| - 1];
      Whole(chunks[..|chunks| - 1], coded)
      + if coded then (if last.decoded.Some? then last.decoded.value else []) else last.data
  }

  /** Nothing follows the end of a compressed stream, and every chunk decodes. */
  predicate StreamOk(chunks: seq<Chunk>, coded: bool) {
    coded ==> forall i :: 0 <= i < |chunks| ==> ChunkOk(chunks, i)
  }

  predicate ChunkOk(chunks: seq<Chunk>, i: int)
    requires 0 <= i < |chunks|
  {
    chunks[i].decoded.Some? && !chunks[i].extra && (i > 0 ==> !chunks[i - 1].ends)
  }

  predicate Complete(chunks: seq<Chunk>, coded: bool) {
    StreamOk(chunks, coded) && (coded ==> chunks != [] && chunks[|chunks| - 1].ends)
  }

  predicate InTime(chunks: seq<Chunk>, deadline: real) {
    forall i :: 0 <= i < |chunks| ==> chunks[i].at <= deadline
  }

  lemma {:induction false} SizesGrow(chunks: seq<Chunk>, coded: bool, k: nat)
    requires k <= |chunks|
    ensures Wire(chunks[..k]) <= Wire(chunks) && |Whole(chunks[..k], coded)| <= |Whole(chunks, coded)|
    decreases |chunks|
  {
    if k < |chunks| {
      assert chunks[..|chunks| - 1][..k] == chunks[..k];
      SizesGrow(chunks[..|chunks| - 1], coded, k);
    } else {
      assert chunks[..k] == chunks;
    }
  }

  /** One more chunk. */
  lemma NextChunk(chunks: seq<Chunk>, coded: bool, i: nat)
    requires i < |chunks|
    ensures Wire(chunks[..i + 1]) == Wire(chunks[..i]) + |chunks[i].data| <= Wire(chunks)
    ensures Whole(chunks[..i + 1], coded) == Whole(chunks[..i], coded)
      + if coded then (if chunks[i].decoded.Some? then chunks[i].decoded.value else []) else chunks[i].data
    ensures |Whole(chunks[..i + 1], coded)| <= |Whole(chunks, coded)|
  {
    assert chunks[..i + 1][..i] == chunks[..i];
    SizesGrow(chunks, coded, i + 1);
  }

  lemma NextStream(chunks: seq<Chunk>, coded: bool, i: nat)
    requires i < |chunks| && StreamOk(chunks[..i], coded)
    ensures StreamOk(chunks[..i + 1], coded) <==> !coded || ChunkOk(chunks, i)
    ensures StreamOk(chunks, coded) ==> !coded || ChunkOk(chunks, i)
  {
    var before, upto := chunks[..i], chunks[..i + 1];
    if coded && ChunkOk(chunks, i) {
      forall j | 0 <= j < |upto|
        ensures ChunkOk(upto, j)
      {
        if j < i { assert ChunkOk(before, j); }
      }
    }
    if coded && StreamOk(upto, coded) {
      assert ChunkOk(upto, i);
    }
  }

  /** `_read_verbatim`: a body is accepted exactly when its declared length, its wire bytes and its
      decoded bytes are all within the cap, every chunk came in time and a compressed stream is
      complete with nothing after it; and then it is the whole body, never a truncation. */
  method ReadVerbatim(chunks: seq<Chunk>, coded: bool, declared: Option<nat>, cap: nat, deadline: real)
    returns (r: Result<bytes, ReadError>)
    ensures r.Ok? <==>
      && (declared.Some? ==> declared.value <= cap)
      && Wire(chunks) <= cap && |Whole(chunks, coded)| <= cap
      && InTime(chunks, deadline) && Complete(chunks, coded)
    ensures r.Ok? ==> r.value == Whole(chunks, coded) && |r.value| <= cap && Wire(chunks) <= cap
  {
    hide Wire, Whole, StreamOk;
    if declared.Some? && declared.value > cap {
      return Err(TooLarge);
    }
    var wire, body, eof := 0, [], false;
    NoChunks(chunks[..0], coded);
    for i := 0 to |chunks|
      invariant wire == Wire(chunks[..i]) <= cap
      invariant body == Whole(chunks[..i], coded) && |body| <= cap && (!coded ==> |body| == wire)
      invariant InTime(chunks[..i], deadline) && StreamOk(chunks[..i], coded)
      invariant coded ==> (eof <==> i > 0 && chunks[i - 1].ends)
    {
      var chunk := chunks[i];
      NextChunk(chunks, coded, i);
      NextStream(chunks, coded, i);
      if chunk.at > deadline {
        return Err(TooLate);
      }
      wire := wire + |chunk.data|;
      if wire > cap {
        return Err(TooLarge);
      }
      if !coded {
        body := body + chunk.data;
        continue;
      }
      if eof || chunk.decoded.None? {
        return Err(BadStream);
      }
      var room := cap - |body|;
      var output := chunk.decoded.value;
      var piece := if |output| <= room + 1 then output else output[..room + 1];
      if |piece| > room {
        return Err(TooLarge);
      }
      body := body + piece;
      eof := chunk.ends;
      if chunk.extra {
        return Err(BadStream);
      }
    }
    assert chunks[..|chunks|] == chunks;
    if coded && !eof {
      return Err(BadStream);
    }
    return Ok(body);
  }

  lemma NoChunks(chunks: seq<Chunk>, coded: bool)
    requires chunks == []
    ensures Wire(chunks) == 0 && Whole(chunks, coded) == [] && StreamOk(chunks, coded)
  {
  }
}

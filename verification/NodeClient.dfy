/**
 Failover between verified nodes: classification of errors, the session that pins a
 walk to one node, and the loop that discards and restarts whole walks. What the
 nodes, the network and the walk do is an input: one `Visit` per origin and call,
 since a call visits an origin at most once.
 */
module NodeClient {
  import opened Prelude
  import opened Cache

  const MAX_NODES := 512

  type Origin = string

  // ----- errors ------------------------------------------------------------------------------

  /** The exact class of an exception the client can meet. */
  datatype Class =
    | PlainHttp | TransientExhausted | NotFound | UnexpectedEncoding
    | ForbiddenHost | ForbiddenAddress | ListExpired | ConfigError | OtherEbsi

  datatype Error = Error(cls: Class, status: Option<int>)

  datatype FailureKind = Unreachable | Unavailable | Forbidden | Redirect | Limits | Unhealthy

  datatype NodeFailure = NodeFailure(origin: Origin, kind: FailureKind, status: Option<int>)

  function StatusOrZero(e: Error): int {
    if e.status.Some? then e.status.value else 0
  }

  /** `classify`: the table, first match wins. */
  function Classify(e: Error): Option<FailureKind> {
    if e.cls.ForbiddenAddress? then Some(Unreachable)
    else if e.cls.TransientExhausted? && e.status == None then Some(Unreachable)
    else if e.cls.TransientExhausted? then Some(Unavailable)
    else if e.cls.PlainHttp? && (e.status == Some(429) || StatusOrZero(e) >= 500) then Some(Unavailable)
    else if e.cls.PlainHttp? && e.status == Some(403) then Some(Forbidden)
    else if e.cls.PlainHttp? && 300 <= StatusOrZero(e) < 400 then Some(Redirect)
    else if e.cls.PlainHttp? && (e.status == None || e.status == Some(200)) then Some(Limits)
    else None
  }

  predicate IsTerminal(e: Error) {
    e.cls.ListExpired? || e.cls.ConfigError? || e.cls.ForbiddenHost?
  }

  /** What is blamed on a node: a refused address, exhausted retries, and of the plain HTTP errors
      every status but the 4xx that are answers and the unassigned rest. A terminal error, a 404
      and an error about content never are. */
  lemma ClassifyExactly(e: Error)
    ensures Classify(e) == None <==>
      || e.cls in {NotFound, UnexpectedEncoding, ForbiddenHost, ListExpired, ConfigError, OtherEbsi}
      || (e.cls.PlainHttp? && e.status.Some?
          && (e.status.value < 200 || 200 < e.status.value < 300 || 400 <= e.status.value < 500)
          && e.status.value != 403 && e.status.value != 429)
    ensures IsTerminal(e) ==> Classify(e) == None
  {
  }

  // ----- one session ------------------------------------------------------------------------------

  datatype Target = NotText | OffNode | OnNode

  /** One call of `get_json`: whether the list had expired, where the URL points, and what the HTTP
      client would answer (`None` for a body). */
  datatype Read = Read(expired: bool, target: Target, reply: Option<Error>)

  /** The error the call ends with; only an on-node URL under a valid list is fetched. */
  function ReadError(r: Read): Option<Error> {
    if r.expired then Some(Error(ListExpired, None))
    else if r.target != OnNode then Some(Error(ForbiddenHost, None))
    else r.reply
  }

  datatype Notes = Notes(failure: Option<NodeFailure>, terminal: Option<Error>)

  function Note(n: Notes, origin: Origin, e: Error): Notes {
    if IsTerminal(e) then if n.terminal.None? then n.(terminal := Some(e)) else n
    else if n.failure.None? && Classify(e).Some? then
      n.(failure := Some(NodeFailure(origin, Classify(e).value, e.status)))
    else n
  }

  /** What a session has recorded after some reads. */
  function NotesOf(origin: Origin, fetches: seq<Read>): Notes {
    if fetches == [] then Notes(None, None)
    else
      var before := NotesOf(origin, fetches[..|fetches| - 1]);
      var e := ReadError(fetches[|fetches| - 1]);
      if e.None? then before else Note(before, origin, e.value)
  }

  class NodeSession {
    const origin: Origin
    var failure: Option<NodeFailure>
    var terminal: Option<Error>

    constructor (origin: Origin)
      ensures this.origin == origin && failure == None && terminal == None
    {
      this.origin, failure, terminal := origin, None, None;
    }

    /** `get_json`, and `_note` on every error it raises. */
    method GetJson(r: Read) returns (error: Option<Error>)
      modifies this
      ensures error == ReadError(r)
      ensures Notes(failure, terminal) ==
        if error.None? then old(Notes(failure, terminal)) else Note(old(Notes(failure, terminal)), origin, error.value)
    {
      if r.expired {
        error := Some(Error(ListExpired, None));
      } else if r.target != OnNode {
        error := Some(Error(ForbiddenHost, None));
      } else {
        error := r.reply;
      }
      if error.None? {
        return;
      }
      var e := error.value;
      if IsTerminal(e) {
        if terminal.None? {
          terminal := Some(e);
        }
        return;
      }
      if failure.None? && Classify(e).Some? {
        failure := Some(NodeFailure(origin, Classify(e).value, e.status));
      }
    }
  }

  /** A session that recorded nothing: every read went to this node under a valid list, and none
      met a failure of the node or a terminal error. */
  lemma {:induction false} CleanSession(origin: Origin, fetches: seq<Read>)
    ensures NotesOf(origin, fetches) == Notes(None, None) <==>
      forall r | r in fetches :: !r.expired && r.target == OnNode
        && (r.reply.Some? ==> !IsTerminal(r.reply.value) && Classify(r.reply.value) == None)
    decreases |fetches|
  {
    if fetches != [] {
      var front, last := fetches[..|fetches| - 1], fetches[|fetches| - 1];
      CleanSession(origin, front);
      assert fetches == front + [last];
      hide Classify;
      if last.expired || last.target != OnNode { TerminalRead(last); }
    }
  }

  lemma TerminalRead(r: Read)
    requires r.expired || r.target != OnNode
    ensures ReadError(r).Some? && IsTerminal(ReadError(r).value)
  {
  }

  // ----- the order of candidates ------------------------------------------------------------------

  /** What the caller's policy gives: an exception, or items of which some may not be strings. */
  datatype PolicyOutput = PolicyRaises | Items(items: seq<Option<Origin>>)

  /** One or more of the client's origins, none twice. */
  predicate IsOrder(items: seq<Option<Origin>>, origins: seq<Origin>) {
    && items != []
    && (forall i :: 0 <= i < |items| ==> items[i].Some? && items[i].value in origins)
    && (forall i, j :: 0 <= i < j < |items| ==> items[i] != items[j])
  }

  function Origins(items: seq<Option<Origin>>): (r: seq<Origin>)
    requires forall i :: 0 <= i < |items| ==> items[i].Some?
    ensures |r| == |items| && forall i :: 0 <= i < |r| ==> items[i] == Some(r[i])
  {
    seq(|items|, i requires 0 <= i < |items| => items[i].value)
  }

  /** `islice(..., limit + 1)`. */
  function Taken(items: seq<Option<Origin>>, limit: nat): seq<Option<Origin>> {
    if |items| <= limit + 1 then items else items[..limit + 1]
  }

  /** `_order`: `None` is NodeClientConfigError. */
  method Order(policy: PolicyOutput, origins: seq<Origin>) returns (r: Option<seq<Origin>>)
    ensures r == OrderOf(policy, origins)
  {
    if policy.PolicyRaises? {
      return None;
    }
    var items := Taken(policy.items, |origins|);
    if items == [] {
      return None;
    }
    var seen: set<Origin> := {};
    for i := 0 to |items|
      invariant forall j :: 0 <= j < i ==> items[j].Some? && items[j].value in origins
      invariant forall j, k :: 0 <= j < k < i ==> items[j] != items[k]
      invariant forall o :: o in seen <==> exists j :: 0 <= j < i && items[j] == Some(o)
    {
      if items[i].None? || items[i].value !in origins {
        return None;
      }
      if items[i].value in seen {
        return None;
      }
      assert forall j :: 0 <= j < i ==> items[j] != items[i];
      seen := seen + {items[i].value};
    }
    return Some(Origins(items));
  }

  function OrderOf(policy: PolicyOutput, origins: seq<Origin>): Option<seq<Origin>> {
    if policy.PolicyRaises? then None
    else
      var items := Taken(policy.items, |origins|);
      if IsOrder(items, origins) then Some(Origins(items)) else None
  }

  lemma {:induction false} DistinctFit(items: seq<Option<Origin>>, origins: set<Origin>)
    requires forall i :: 0 <= i < |items| ==> items[i].Some? && items[i].value in origins
    requires forall i, j :: 0 <= i < j < |items| ==> items[i] != items[j]
    ensures |items| <= |origins|
    decreases |items|
  {
    if items != [] {
      var front, last := items[..|items| - 1], items[|items| - 1];
      assert forall i :: 0 <= i < |front| ==> front[i] == items[i] && items[i] != last;
      DistinctFit(front, origins - {last.value});
    }
  }

  function OriginSet(origins: seq<Origin>): set<Origin> {
    set o | o in origins
  }

  lemma {:induction false} OriginSetFits(origins: seq<Origin>)
    ensures |OriginSet(origins)| <= |origins|
    decreases |origins|
  {
    if origins != [] {
      var front, last := origins[..|origins| - 1], origins[|origins| - 1];
      OriginSetFits(front);
      assert origins == front + [last];
      assert OriginSet(origins) == OriginSet(front) + {last};
    }
  }

  /** Looking at one item more than there are nodes decides for the whole output, however long. */
  lemma OrderExactly(policy: PolicyOutput, origins: seq<Origin>)
    ensures OrderOf(policy, origins).Some? <==> policy.Items? && IsOrder(policy.items, origins)
    ensures OrderOf(policy, origins).Some? ==> OrderOf(policy, origins).value == Origins(policy.items)
  {
    if policy.Items? && |policy.items| > |origins| + 1 {
      var items := Taken(policy.items, |origins|);
      OriginSetFits(origins);
      if IsOrder(items, origins) {
        DistinctFit(items, OriginSet(origins));
      }
      if IsOrder(policy.items, origins) {
        DistinctFit(policy.items, OriginSet(origins));
      }
    }
  }

  // ----- one candidate ------------------------------------------------------------------------------

  /** A memoised verdict: `None` for a healthy node. */
  type Verdict = Option<NodeFailure>

  /** What a probe gets: a reply, of which only status 200 with an `alive` body is healthy, or an
      exception. */
  datatype ProbeReply = Reply(status: int, alive: bool) | ProbeError(e: Error)

  /** `_probe`; an expired list and a bad configuration are raised. */
  function ProbeOf(origin: Origin, p: ProbeReply): Result<Verdict, Error> {
    match p
    case Reply(status, alive) =>
      if status == 200 && alive then Ok(None) else Ok(Some(NodeFailure(origin, Unhealthy, Some(status))))
    case ProbeError(e) =>
      if e.cls.ListExpired? || e.cls.ConfigError? then Err(e)
      else Ok(Some(NodeFailure(origin, Unhealthy, e.status)))
  }

  /** How the caller's walk ends: a value, one of the library's errors, or any other exception. */
  datatype Ending<T> = Returned(v: T) | Raised(e: Error) | Foreign

  /** What happens when a call reaches an origin, with the readings of the health memo's clock. */
  datatype Visit<T> = Visit(seenAt: real, probe: ProbeReply, probedAt: real,
                            fetches: seq<Read>, ending: Ending<T>, failedAt: real)

  datatype Outcome<T> = Value(v: T) | NoHealthyNode(failures: seq<NodeFailure>) | Fails(e: Error) | ForeignError

  type Log = seq<Step<Origin, Verdict>>

  /** The state of a call: every operation on the health memo so far, the failures listed, how many
      candidates cost a request, and which. */
  datatype State = State(log: Log, failures: seq<NodeFailure>, spent: nat, contacted: seq<Origin>)

  datatype Progress<T> = Next(st: State) | Stop(st: State, outcome: Outcome<T>) | Exhausted(st: State)

  /** The verdict the memo gives at an instant. */
  function Known(log: Log, origin: Origin, now: real, ttl: real): Option<Verdict> {
    GetResult(Cache.Run(log, Some(ttl), MAX_NODES), origin, now)
  }

  /** How an attempt ends the call, or `None` when the node failed and the next is tried. */
  function Ended<T>(n: Notes, ending: Ending<T>): (r: Option<Outcome<T>>)
    ensures r.None? ==> n.failure.Some? && n.terminal.None?
    ensures r.Some? ==> !r.value.NoHealthyNode?
  {
    match ending
    case Foreign => Some(ForeignError)
    case Raised(e) =>
      if n.terminal.Some? then Some(Fails(n.terminal.value))
      else if IsTerminal(e) || n.failure.None? then Some(Fails(e))
      else None
    case Returned(v) =>
      if n.terminal.Some? then Some(Fails(n.terminal.value))
      else if n.failure.None? then Some(Value(v))
      else None
  }

  function Attempt<T>(st: State, origin: Origin, v: Visit<T>): Progress<T> {
    var n := NotesOf(origin, v.fetches);
    match Ended(n, v.ending)
    case Some(outcome) => Stop(st, outcome)
    case None =>
      Next(st.(log := st.log + [Step(v.failedAt, Put(origin, n.failure))],
               failures := st.failures + [n.failure.value]))
  }

  /** One turn of the loop of `run`. */
  function Candidate<T>(st: State, origin: Origin, v: Visit<T>, ttl: real, maxNodes: nat): Progress<T> {
    var known := Known(st.log, origin, v.seenAt, ttl);
    var asked := st.(log := st.log + [Step(v.seenAt, Ask(origin))]);
    if known.Some? && known.value.Some? then Next(asked.(failures := asked.failures + [known.value.value]))
    else if st.spent >= maxNodes then Exhausted(asked)
    else
      var begun := asked.(spent := asked.spent + 1, contacted := asked.contacted + [origin]);
      if known.Some? then Attempt(begun, origin, v)
      else
        match ProbeOf(origin, v.probe)
        case Err(e) => Stop(begun, Fails(e))
        case Ok(verdict) =>
          var recorded := begun.(log := begun.log + [Step(v.probedAt, Put(origin, verdict))]);
          if verdict.Some? then Next(recorded.(failures := recorded.failures + [verdict.value]))
          else Attempt(recorded, origin, v)
  }

  function Candidates<T>(st: State, order: seq<Origin>, visit: Origin -> Visit<T>, ttl: real, maxNodes: nat)
    : (State, Outcome<T>)
    decreases |order|
  {
    if order == [] then (st, NoHealthyNode(st.failures))
    else
      match Candidate(st, order[0], visit(order[0]), ttl, maxNodes)
      case Next(st') => Candidates(st', order[1..], visit, ttl, maxNodes)
      case Stop(st', outcome) => (st', outcome)
      case Exhausted(st') => (st', NoHealthyNode(st'.failures))
  }

  /** One call of `run`. */
  datatype Call<T> = Call(expired: bool, policy: PolicyOutput, visit: Origin -> Visit<T>)

  function RunOf<T>(log: Log, origins: seq<Origin>, call: Call<T>, ttl: real, maxNodes: nat): (State, Outcome<T>) {
    var start := State(log, [], 0, []);
    if call.expired then (start, Fails(Error(ListExpired, None)))
    else
      match OrderOf(call.policy, origins)
      case None => (start, Fails(Error(ConfigError, None)))
      case Some(order) => Candidates(start, order, call.visit, ttl, maxNodes)
  }

  /** The memo after `check_health`. */
  function Checked(log: Log, origin: Origin, p: ProbeReply, at: real): Log {
    match ProbeOf(origin, p)
    case Ok(verdict) => log + [Step(at, Put(origin, verdict))]
    case Err(_) => log
  }
}

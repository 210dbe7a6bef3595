/**
 The failover loop as the client runs it, and what holds of every call and of every
 sequence of calls: whose value comes back, what is contacted, and how long a failed
 node is left alone.
 */
module NodeFailover {
  import opened Prelude
  import opened Cache
  import opened NodeClient

  lemma RunAppend(log: Log, s: Step<Origin, Verdict>, ttl: real)
    ensures Cache.Run(log + [s], Some(ttl), MAX_NODES) == Apply(Cache.Run(log, Some(ttl), MAX_NODES), s, Some(ttl), MAX_NODES)
  {
    assert (log + [s])[..|log|] == log;
  }

  class EbsiNodeClient {
    const origins: seq<Origin>
    const ttl: real
    const maxNodes: nat
    const health: TtlCache<Origin, Verdict>
    /** Every operation on the health memo. */
    ghost var log: Log

    ghost predicate Valid()
      reads this, health
    {
      && health.ttl == Some(ttl) && health.max == MAX_NODES
      && health.data == Cache.Run(log, Some(ttl), MAX_NODES)
    }

    constructor (origins: seq<Origin>, ttl: real, maxNodes: nat)
      ensures Valid() && log == [] && fresh(health)
      ensures this.origins == origins && this.ttl == ttl && this.maxNodes == maxNodes
    {
      this.origins, this.ttl, this.maxNodes, this.log := origins, ttl, maxNodes, [];
      health := new TtlCache(Some(ttl), MAX_NODES);
    }

    method Remember(origin: Origin, verdict: Verdict, now: real)
      requires Valid()
      modifies this`log, health`data
      ensures Valid() && log == old(log) + [Step(now, Put(origin, verdict))]
    {
      RunAppend(log, Step(now, Put(origin, verdict)), ttl);
      health.Set(origin, verdict, now);
      log := log + [Step(now, Put(origin, verdict))];
    }

    method Recall(origin: Origin, now: real) returns (known: Option<Verdict>)
      requires Valid()
      modifies this`log, health`data
      ensures Valid() && log == old(log) + [Step(now, Ask(origin))]
      ensures known == Known(old(log), origin, now, ttl)
    {
      RunAppend(log, Step(now, Ask(origin)), ttl);
      known := health.Get(origin, now);
      log := log + [Step(now, Ask(origin))];
    }

    /** `check_health` for one of the origins: a fresh probe, recorded. */
    method CheckHealth(origin: Origin, p: ProbeReply, now: real) returns (r: Result<bool, Error>)
      requires Valid() && origin in origins
      modifies this`log, health`data
      ensures Valid() && log == Checked(old(log), origin, p, now)
      ensures r == match ProbeOf(origin, p) case Ok(verdict) => Ok(verdict.None?) case Err(e) => Err(e)
    {
      var verdict := ProbeOf(origin, p);
      if verdict.Err? {
        return Err(verdict.error);
      }
      Remember(origin, verdict.value, now);
      return Ok(verdict.value.None?);
    }

    /** One walk on one node: what the session recorded. */
    method Walk(origin: Origin, fetches: seq<Read>) returns (n: Notes)
      ensures n == NotesOf(origin, fetches)
    {
      hide Note;
      var session := new NodeSession(origin);
      for i := 0 to |fetches|
        invariant fresh(session) && session.origin == origin
        invariant Notes(session.failure, session.terminal) == NotesOf(origin, fetches[..i])
      {
        assert fetches[..i + 1][..i] == fetches[..i];
        var error := session.GetJson(fetches[i]);
      }
      assert fetches[..|fetches|] == fetches;
      return Notes(session.failure, session.terminal);
    }

    /** The body of `run`'s loop for one candidate. */
    method Try<T>(origin: Origin, v: Visit<T>, spent: nat, ghost st: State)
      returns (turn: Turn<T>, cost: nat, ghost next: State)
      requires Valid() && log == st.log && spent == st.spent
      modifies this`log, health`data
      ensures Valid() && log == next.log && next.spent == spent + cost
      ensures Candidate(st, origin, v, ttl, maxNodes) == ProgressOf(turn, next)
      ensures next.failures == if turn.PassedOver? then st.failures + [turn.failure] else st.failures
    {
      hide Known, NotesOf, ProbeOf, Ended;
      var known := Recall(origin, v.seenAt);
      next := st.(log := log);
      if known.Some? && known.value.Some? {
        next := next.(failures := next.failures + [known.value.value]);
        return PassedOver(known.value.value), 0, next;
      }
      if spent >= maxNodes {
        return OutOfBudget, 0, next;
      }
      next := next.(spent := next.spent + 1, contacted := next.contacted + [origin]);
      if known.None? {
        var probed := ProbeOf(origin, v.probe);
        if probed.Err? {
          return EndedWith(Fails(probed.error)), 1, next;
        }
        Remember(origin, probed.value, v.probedAt);
        next := next.(log := log);
        if probed.value.Some? {
          next := next.(failures := next.failures + [probed.value.value]);
          return PassedOver(probed.value.value), 1, next;
        }
      }
      var n := Walk(origin, v.fetches);
      var ended := Ended(n, v.ending);
      if ended.Some? {
        return EndedWith(ended.value), 1, next;
      }
      Remember(origin, n.failure, v.failedAt);
      next := next.(log := log, failures := next.failures + [n.failure.value]);
      return PassedOver(n.failure.value), 1, next;
    }

    /** `run`. */
    method Run<T>(call: Call<T>) returns (outcome: Outcome<T>, ghost st: State)
      requires Valid()
      modifies this`log, health`data
      ensures Valid() && log == st.log
      ensures (st, outcome) == RunOf(old(log), origins, call, ttl, maxNodes)
    {
      hide Candidate, OrderOf, Cache.Run;
      st := State(log, [], 0, []);
      if call.expired {
        return Fails(Error(ListExpired, None)), st;
      }
      var order := Order(call.policy, origins);
      if order.None? {
        return Fails(Error(ConfigError, None)), st;
      }
      var candidates := order.value;
      ghost var whole := Candidates(st, candidates, call.visit, ttl, maxNodes);
      var failures: seq<NodeFailure>, spent := [], 0;
      assert candidates[0..] == candidates;
      for i := 0 to |candidates|
        invariant Valid() && log == st.log && failures == st.failures && spent == st.spent
        invariant whole == Candidates(st, candidates[i..], call.visit, ttl, maxNodes)
      {
        var origin := candidates[i];
        assert candidates[i..][0] == origin && candidates[i..][1..] == candidates[i + 1..];
        var turn, cost;
        turn, cost, st := Try(origin, call.visit(origin), spent, st);
        spent := spent + cost;
        match turn {
          case PassedOver(failure) => failures := failures + [failure];
          case EndedWith(o) => return o, st;
          case OutOfBudget => return NoHealthyNode(failures), st;
        }
      }
      return NoHealthyNode(failures), st;
    }
  }

  /** How a turn of the loop ends, without the ghost state. */
  datatype Turn<T> = PassedOver(failure: NodeFailure) | EndedWith(outcome: Outcome<T>) | OutOfBudget

  function ProgressOf<T>(turn: Turn<T>, st: State): Progress<T> {
    match turn
    case PassedOver(_) => Next(st)
    case EndedWith(o) => Stop(st, o)
    case OutOfBudget => Exhausted(st)
  }

  // ----- one call -------------------------------------------------------------------------------------

  predicate Distinct(s: seq<Origin>) {
    forall i, j :: 0 <= i < j < |s| ==> s[i] != s[j]
  }

  /** Every verdict in the memo is about the origin it is filed under. */
  ghost predicate OwnVerdicts(log: Log) {
    forall s | s in log :: s.op.Put? && s.op.value.Some? ==> s.op.value.value.origin == s.op.key
  }

  lemma {:induction false} StoredWasPut(log: Log, ttl: real, e: Entry<Origin, Verdict>)
    requires e in Cache.Run(log, Some(ttl), MAX_NODES)
    ensures exists s :: s in log && s.op == Put(e.key, e.value)
    decreases |log|
  {
    var front, s := log[..|log| - 1], log[|log| - 1];
    assert log == front + [s];
    if e in Cache.Run(front, Some(ttl), MAX_NODES) {
      StoredWasPut(front, ttl, e);
    } else {
      assert s.op == Put(e.key, e.value);
    }
  }

  lemma KnownIsOwn(log: Log, origin: Origin, now: real, ttl: real)
    requires OwnVerdicts(log)
    requires Known(log, origin, now, ttl).Some? && Known(log, origin, now, ttl).value.Some?
    ensures Known(log, origin, now, ttl).value.value.origin == origin
  {
    var e := Lookup(Cache.Run(log, Some(ttl), MAX_NODES), origin).value;
    StoredWasPut(log, ttl, e);
  }

  lemma {:induction false} NotesAreOwn(origin: Origin, fetches: seq<Read>)
    ensures NotesOf(origin, fetches).failure.Some? ==> NotesOf(origin, fetches).failure.value.origin == origin
    decreases |fetches|
  {
    if fetches != [] {
      NotesAreOwn(origin, fetches[..|fetches| - 1]);
    }
  }

  /** The new failure, when there is one, is about the candidate; the memo stays well filed. */
  lemma CandidateFiles<T>(st: State, origin: Origin, v: Visit<T>, ttl: real, maxNodes: nat)
    requires OwnVerdicts(st.log)
    ensures var p := Candidate(st, origin, v, ttl, maxNodes);
      && OwnVerdicts(p.st.log) && st.log <= p.st.log
      && (p.Next? ==>
            && |p.st.failures| == |st.failures| + 1 && p.st.failures[..|st.failures|] == st.failures
            && p.st.failures[|st.failures|].origin == origin)
      && (!p.Next? ==> p.st.failures == st.failures)
      && (p.Stop? ==> !p.outcome.NoHealthyNode?)
  {
    hide Known, NotesOf, Ended;
    NotesAreOwn(origin, v.fetches);
    if Known(st.log, origin, v.seenAt, ttl).Some? && Known(st.log, origin, v.seenAt, ttl).value.Some? {
      KnownIsOwn(st.log, origin, v.seenAt, ttl);
    }
  }

  /** What a candidate costs, and when it is contacted. */
  lemma CandidateCosts<T>(st: State, origin: Origin, v: Visit<T>, ttl: real, maxNodes: nat)
    ensures var p := Candidate(st, origin, v, ttl, maxNodes);
      || (p.st.spent == st.spent && p.st.contacted == st.contacted && !p.Stop?)
      || (st.spent < maxNodes && p.st.spent == st.spent + 1 && p.st.contacted == st.contacted + [origin] && !p.Exhausted?)
    ensures Candidate(st, origin, v, ttl, maxNodes).Exhausted? ==> st.spent >= maxNodes
  {
  }

  lemma DistinctAppend(s: seq<Origin>, o: Origin)
    requires Distinct(s) && o !in s
    ensures Distinct(s + [o])
  {
    forall i, j | 0 <= i < j < |s| + 1
      ensures (s + [o])[i] != (s + [o])[j]
    {
      assert (s + [o])[i] == s[i] && s[i] in s;
    }
  }

  /** In one call each origin is contacted at most once, at most `maxNodes` of them, all named by
      the policy. */
  lemma {:induction false} ContactsBounded<T>(st: State, order: seq<Origin>, visit: Origin -> Visit<T>, ttl: real, maxNodes: nat)
    requires Distinct(order) && Distinct(st.contacted) && forall o | o in st.contacted :: o !in order
    requires |st.contacted| == st.spent <= maxNodes
    ensures var end := Candidates(st, order, visit, ttl, maxNodes).0;
      && Distinct(end.contacted) && |end.contacted| == end.spent <= maxNodes
      && st.contacted <= end.contacted
      && forall o | o in end.contacted :: o in st.contacted || o in order
    decreases |order|
  {
    hide Candidate;
    if order != [] {
      CandidateCosts(st, order[0], visit(order[0]), ttl, maxNodes);
      var p := Candidate(st, order[0], visit(order[0]), ttl, maxNodes);
      assert order == [order[0]] + order[1..];
      DistinctAppend(st.contacted, order[0]);
      if p.Next? {
        assert forall i :: 0 <= i < |order| - 1 ==> order[1..][i] == order[i + 1];
        ContactsBounded(p.st, order[1..], visit, ttl, maxNodes);
      }
    }
  }

  /** How the loop ends, from the order alone: it stops at the `k`-th candidate, every earlier one
      having been passed over with a failure of its own. */
  lemma {:induction false} EndsAt<T>(st: State, order: seq<Origin>, visit: Origin -> Visit<T>, ttl: real, maxNodes: nat)
    returns (k: nat)
    requires OwnVerdicts(st.log)
    ensures var (end, outcome) := Candidates(st, order, visit, ttl, maxNodes);
      && k <= |order| && |end.failures| == |st.failures| + k
      && end.failures[..|st.failures|] == st.failures
      && (forall i :: 0 <= i < k ==> end.failures[|st.failures| + i].origin == order[i])
      && (outcome.NoHealthyNode? ==> outcome.failures == end.failures && (k == |order| || end.spent >= maxNodes))
      && (!outcome.NoHealthyNode? ==> k < |order|)
      && (outcome.Value? ==>
            visit(order[k]).ending == Returned(outcome.v) && NotesOf(order[k], visit(order[k]).fetches) == Notes(None, None))
    decreases |order|
  {
    hide Candidate, NotesOf;
    if order == [] {
      k := 0;
    } else {
      CandidateFiles(st, order[0], visit(order[0]), ttl, maxNodes);
      CandidateCosts(st, order[0], visit(order[0]), ttl, maxNodes);
      CandidateValue(st, order[0], visit(order[0]), ttl, maxNodes);
      var p := Candidate(st, order[0], visit(order[0]), ttl, maxNodes);
      if p.Next? {
        var rest := EndsAt(p.st, order[1..], visit, ttl, maxNodes);
        k := rest + 1;
        var end := Candidates(st, order, visit, ttl, maxNodes).0;
        forall i | 0 <= i < k
          ensures end.failures[|st.failures| + i].origin == order[i]
        {
          if i == 0 {
            assert end.failures[|st.failures|] == end.failures[..|p.st.failures|][|st.failures|];
          } else {
            assert order[i] == order[1..][i - 1];
          }
        }
        assert end.failures[..|st.failures|] == end.failures[..|p.st.failures|][..|st.failures|];
      } else {
        k := 0;
      }
    }
  }

  lemma CandidateValue<T>(st: State, origin: Origin, v: Visit<T>, ttl: real, maxNodes: nat)
    ensures var p := Candidate(st, origin, v, ttl, maxNodes);
      p.Stop? && p.outcome.Value? ==>
        v.ending == Returned(p.outcome.v) && NotesOf(origin, v.fetches) == Notes(None, None)
  {
  }

  /** A value comes only from the first candidate whose attempt succeeded: the walk on it returned
      that value, every read it made went to that one origin under a valid list, and none met a
      node failure or a terminal error, caught or not; every earlier candidate was passed over
      with a failure of its own. */
  lemma ValueIsClean<T>(log: Log, origins: seq<Origin>, call: Call<T>, ttl: real, maxNodes: nat)
    returns (k: nat, order: seq<Origin>)
    requires OwnVerdicts(log) && RunOf(log, origins, call, ttl, maxNodes).1.Value?
    ensures OrderOf(call.policy, origins) == Some(order) && k < |order|
    ensures var (end, outcome) := RunOf(log, origins, call, ttl, maxNodes);
      && call.visit(order[k]).ending == Returned(outcome.v)
      && (forall r | r in call.visit(order[k]).fetches :: !r.expired && r.target == OnNode
            && (r.reply.Some? ==> !IsTerminal(r.reply.value) && Classify(r.reply.value) == None))
      && |end.failures| == k && forall i :: 0 <= i < k ==> end.failures[i].origin == order[i]
  {
    hide Candidates, NotesOf, Classify, IsTerminal, OrderOf;
    order := OrderOf(call.policy, origins).value;
    k := EndsAt(State(log, [], 0, []), order, call.visit, ttl, maxNodes);
    CleanSession(order[k], call.visit(order[k]).fetches);
  }

  /** When no node could run the walk, the error lists one failure per candidate examined, in the
      policy's order; candidates are left out only when the request budget was spent. */
  lemma NoHealthyNodeLists<T>(log: Log, origins: seq<Origin>, call: Call<T>, ttl: real, maxNodes: nat)
    requires OwnVerdicts(log) && RunOf(log, origins, call, ttl, maxNodes).1.NoHealthyNode?
    ensures !call.expired && OrderOf(call.policy, origins).Some?
    ensures var (end, outcome) := RunOf(log, origins, call, ttl, maxNodes);
      var order := OrderOf(call.policy, origins).value;
      && |outcome.failures| <= |order|
      && (forall i :: 0 <= i < |outcome.failures| ==> outcome.failures[i].origin == order[i])
      && (|outcome.failures| < |order| ==> end.spent >= maxNodes)
  {
    hide Candidates, OrderOf, NotesOf;
    var order := OrderOf(call.policy, origins).value;
    var k := EndsAt(State(log, [], 0, []), order, call.visit, ttl, maxNodes);
  }

  lemma RunContacts<T>(log: Log, origins: seq<Origin>, call: Call<T>, ttl: real, maxNodes: nat)
    ensures var end := RunOf(log, origins, call, ttl, maxNodes).0;
      && Distinct(end.contacted) && |end.contacted| == end.spent <= maxNodes
      && forall o | o in end.contacted :: o in origins
  {
    hide Candidates, IsOrder;
    if !call.expired && OrderOf(call.policy, origins).Some? {
      var order := OrderOf(call.policy, origins).value;
      OrderIsDistinct(call.policy, origins);
      ContactsBounded(State(log, [], 0, []), order, call.visit, ttl, maxNodes);
    }
  }

  lemma OrderIsDistinct(policy: PolicyOutput, origins: seq<Origin>)
    requires OrderOf(policy, origins).Some?
    ensures Distinct(OrderOf(policy, origins).value) && forall o | o in OrderOf(policy, origins).value :: o in origins
  {
  }

  // ----- the health memo over many calls -----------------------------------------------------------------------

  /** The last verdict recorded for `o` is a failure, no earlier than `t`. */
  ghost predicate Marked(log: Log, o: Origin, t: real) {
    var w := LastWrite(log, o);
    w.Some? && w.value.value.Some? && t <= w.value.at
  }

  ghost predicate Files(log: Log, origins: seq<Origin>) {
    forall s | s in log :: s.op.Put? ==> s.op.key in origins
  }

  lemma {:induction false} SinceInside(log: Log, o: Origin, origins: seq<Origin>)
    requires Files(log, origins) && LastWrite(log, o).Some?
    ensures LastWrite(log, o).value.since <= OriginSet(origins) - {o}
    decreases |log|
  {
    var front, s := log[..|log| - 1], log[|log| - 1];
    assert log == front + [s];
    if LastWrite(front, o).Some? {
      SinceInside(front, o, origins);
    }
  }

  /** A marked origin is known bad: the memo, with room for every node, cannot have dropped it. */
  lemma MarkedIsKnown(log: Log, o: Origin, t: real, now: real, ttl: real, origins: seq<Origin>)
    requires Marked(log, o, t) && Timed(log, now) && now <= t + ttl
    requires Files(log, origins) && o in origins && |origins| <= MAX_NODES
    ensures Known(log, o, now, ttl).Some? && Known(log, o, now, ttl).value.Some?
  {
    HitsExactly(log, o, now, Some(ttl), MAX_NODES);
    SinceInside(log, o, origins);
    OriginSetFits(origins);
    var since, others := LastWrite(log, o).value.since, OriginSet(origins) - {o};
    SubsetSize(since, others);
    assert OriginSet(origins) == others + {o};
    assert |others| < |OriginSet(origins)|;
  }

  lemma {:induction false} SubsetSize(a: set<Origin>, b: set<Origin>)
    requires a <= b
    ensures |a| <= |b|
    decreases |a|
  {
    if a != {} {
      var x :| x in a;
      SubsetSize(a - {x}, b - {x});
    }
  }

  lemma LastWriteAppend(log: Log, s: Step<Origin, Verdict>, o: Origin)
    ensures s.op.Ask? ==> LastWrite(log + [s], o) == LastWrite(log, o)
    ensures s.op.Put? && s.op.key == o ==> LastWrite(log + [s], o) == Some(Write(s.at, s.op.value, {}))
    ensures s.op.Put? && s.op.key != o && LastWrite(log, o).Some? ==>
      LastWrite(log + [s], o).Some?
      && LastWrite(log + [s], o).value.at == LastWrite(log, o).value.at
      && LastWrite(log + [s], o).value.value == LastWrite(log, o).value.value
  {
    assert (log + [s])[..|log|] == log;
  }

  lemma MarkKept(log: Log, s: Step<Origin, Verdict>, o: Origin, t: real)
    requires Marked(log, o, t) && (s.op.Ask? || (s.op.Put? && s.op.key != o))
    ensures Marked(log + [s], o, t)
  {
    LastWriteAppend(log, s, o);
  }

  lemma FilesAppend(log: Log, s: Step<Origin, Verdict>, origins: seq<Origin>)
    requires Files(log, origins) && (s.op.Put? ==> s.op.key in origins)
    ensures Files(log + [s], origins)
  {
  }

  lemma TimedPrefix(log: Log, more: Log, now: real)
    requires Timed(more, now) && log <= more
    ensures Timed(log, now)
    ensures |log| < |more| ==> Timed(log, more[|log|].at) && more[|log|].at <= now
  {
    assert forall i :: 0 <= i < |log| ==> log[i] == more[i];
  }

  /** A marked origin is passed over without a request; any other leaves the mark alone. */
  lemma CandidateKeepsMark<T>(st: State, origin: Origin, v: Visit<T>, ttl: real, maxNodes: nat,
                              o: Origin, t: real, now: real, origins: seq<Origin>)
    requires Marked(st.log, o, t) && Files(st.log, origins) && o in origins && origin in origins && |origins| <= MAX_NODES
    requires Timed(Candidate(st, origin, v, ttl, maxNodes).st.log, now) && now <= t + ttl
    ensures var p := Candidate(st, origin, v, ttl, maxNodes);
      && Marked(p.st.log, o, t) && Files(p.st.log, origins)
      && (o in p.st.contacted ==> o in st.contacted)
  {
    hide Known, NotesOf, Ended, ProbeOf, Marked, Files, Timed;
    var p := Candidate(st, origin, v, ttl, maxNodes);
    var asked := st.log + [Step(v.seenAt, Ask(origin))];
    MarkKept(st.log, Step(v.seenAt, Ask(origin)), o, t);
    FilesAppend(st.log, Step(v.seenAt, Ask(origin)), origins);
    if origin == o {
      assert st.log <= p.st.log && p.st.log[|st.log|].at == v.seenAt;
      TimedPrefix(st.log, p.st.log, now);
      MarkedIsKnown(st.log, o, t, v.seenAt, ttl, origins);
    } else {
      forall verdict: Verdict, at: real
        ensures Marked(asked + [Step(at, Put(origin, verdict))], o, t) && Files(asked + [Step(at, Put(origin, verdict))], origins)
      {
        MarkKept(asked, Step(at, Put(origin, verdict)), o, t);
        FilesAppend(asked, Step(at, Put(origin, verdict)), origins);
      }
      forall a: Verdict, b: Verdict, at: real, bt: real
        ensures Marked(asked + [Step(at, Put(origin, a))] + [Step(bt, Put(origin, b))], o, t)
        ensures Files(asked + [Step(at, Put(origin, a))] + [Step(bt, Put(origin, b))], origins)
      {
        MarkKept(asked + [Step(at, Put(origin, a))], Step(bt, Put(origin, b)), o, t);
        FilesAppend(asked + [Step(at, Put(origin, a))], Step(bt, Put(origin, b)), origins);
      }
    }
  }

  lemma {:induction false} LogGrows<T>(st: State, order: seq<Origin>, visit: Origin -> Visit<T>, ttl: real, maxNodes: nat)
    ensures st.log <= Candidates(st, order, visit, ttl, maxNodes).0.log
    decreases |order|
  {
    hide Known, NotesOf, Ended, ProbeOf;
    if order != [] {
      var p := Candidate(st, order[0], visit(order[0]), ttl, maxNodes);
      assert st.log <= p.st.log;
      if p.Next? {
        LogGrows(p.st, order[1..], visit, ttl, maxNodes);
      }
    }
  }

  lemma {:induction false} CandidatesKeepMark<T>(st: State, order: seq<Origin>, visit: Origin -> Visit<T>, ttl: real, maxNodes: nat,
                                o: Origin, t: real, now: real, origins: seq<Origin>)
    requires Marked(st.log, o, t) && Files(st.log, origins) && o in origins && |origins| <= MAX_NODES
    requires forall x | x in order :: x in origins
    requires Timed(Candidates(st, order, visit, ttl, maxNodes).0.log, now) && now <= t + ttl
    ensures var end := Candidates(st, order, visit, ttl, maxNodes).0;
      && Marked(end.log, o, t) && Files(end.log, origins)
      && (o in end.contacted ==> o in st.contacted)
    decreases |order|
  {
    hide Candidate, Marked, Files, Timed;
    if order != [] {
      var p := Candidate(st, order[0], visit(order[0]), ttl, maxNodes);
      if p.Next? {
        LogGrows(p.st, order[1..], visit, ttl, maxNodes);
      }
      TimedPrefix(p.st.log, Candidates(st, order, visit, ttl, maxNodes).0.log, now);
      CandidateKeepsMark(st, order[0], visit(order[0]), ttl, maxNodes, o, t, now, origins);
      if p.Next? {
        CandidatesKeepMark(p.st, order[1..], visit, ttl, maxNodes, o, t, now, origins);
      }
    }
  }

  /** What a client is asked to do. */
  datatype Request<T> = RunIt(call: Call<T>) | CheckIt(origin: Origin, p: ProbeReply, at: real)

  function LogAfter<T>(log: Log, requests: seq<Request<T>>, origins: seq<Origin>, ttl: real, maxNodes: nat): Log {
    if requests == [] then log
    else
      var before := LogAfter(log, requests[..|requests| - 1], origins, ttl, maxNodes);
      match requests[|requests| - 1]
      case RunIt(call) => RunOf(before, origins, call, ttl, maxNodes).0.log
      case CheckIt(o, p, at) => Checked(before, o, p, at)
  }

  /** `check_health` is asked about the client's own nodes. */
  predicate OwnRequest<T>(r: Request<T>, origins: seq<Origin>) {
    r.CheckIt? ==> r.origin in origins
  }

  /** `check_health` does not record `o` as healthy. */
  predicate NotCleared<T>(r: Request<T>, o: Origin, origins: seq<Origin>) {
    OwnRequest(r, origins) && (r.CheckIt? && r.origin == o ==> ProbeOf(o, r.p) != Ok(None))
  }

  lemma RunKeepsMark<T>(log: Log, origins: seq<Origin>, call: Call<T>, ttl: real, maxNodes: nat, o: Origin, t: real, now: real)
    requires Marked(log, o, t) && Files(log, origins) && o in origins && |origins| <= MAX_NODES
    requires Timed(RunOf(log, origins, call, ttl, maxNodes).0.log, now) && now <= t + ttl
    ensures var end := RunOf(log, origins, call, ttl, maxNodes).0;
      Marked(end.log, o, t) && Files(end.log, origins) && o !in end.contacted
  {
    hide Candidates, Marked, Files, Timed, OrderOf;
    if !call.expired && OrderOf(call.policy, origins).Some? {
      var order := OrderOf(call.policy, origins).value;
      OrderIsDistinct(call.policy, origins);
      CandidatesKeepMark(State(log, [], 0, []), order, call.visit, ttl, maxNodes, o, t, now, origins);
    }
  }

  lemma RunLogGrows<T>(log: Log, origins: seq<Origin>, call: Call<T>, ttl: real, maxNodes: nat)
    ensures log <= RunOf(log, origins, call, ttl, maxNodes).0.log
  {
    hide Candidates, OrderOf;
    if !call.expired && OrderOf(call.policy, origins).Some? {
      LogGrows(State(log, [], 0, []), OrderOf(call.policy, origins).value, call.visit, ttl, maxNodes);
    }
  }

  /** While a node is marked as failed at `t` or later, no sequence of runs and health checks contacts
      it from `run` before the memo's clock reads `t` plus the time to live, unless `check_health`
      records it healthy in between. */
  lemma {:induction false} MarkedNodeLeftAlone<T>(log: Log, requests: seq<Request<T>>, origins: seq<Origin>, ttl: real, maxNodes: nat,
                                 o: Origin, t: real, now: real)
    requires Marked(log, o, t) && Files(log, origins) && o in origins && |origins| <= MAX_NODES
    requires forall r | r in requests :: NotCleared(r, o, origins)
    requires Timed(LogAfter(log, requests, origins, ttl, maxNodes), now) && now <= t + ttl
    ensures Marked(LogAfter(log, requests, origins, ttl, maxNodes), o, t)
    ensures Files(LogAfter(log, requests, origins, ttl, maxNodes), origins)
    ensures forall k :: 0 <= k < |requests| && requests[k].RunIt? ==>
      o !in RunOf(LogAfter(log, requests[..k], origins, ttl, maxNodes), origins, requests[k].call, ttl, maxNodes).0.contacted
    decreases |requests|
  {
    hide RunOf, Marked, Files, Timed, NotCleared;
    if requests != [] {
      var front, last := requests[..|requests| - 1], requests[|requests| - 1];
      assert requests == front + [last];
      var before, after := LogAfter(log, front, origins, ttl, maxNodes), LogAfter(log, requests, origins, ttl, maxNodes);
      assert NotCleared(last, o, origins);
      match last {
        case RunIt(call) => RunLogGrows(before, origins, call, ttl, maxNodes);
        case CheckIt(_, _, _) =>
      }
      TimedPrefix(before, after, now);
      MarkedNodeLeftAlone(log, front, origins, ttl, maxNodes, o, t, now);
      match last {
        case RunIt(call) => RunKeepsMark(before, origins, call, ttl, maxNodes, o, t, now);
        case CheckIt(x, p, at) => CheckKeepsMark(before, x, p, at, o, t, origins, last, now);
      }
      forall k | 0 <= k < |requests| && requests[k].RunIt?
        ensures o !in RunOf(LogAfter(log, requests[..k], origins, ttl, maxNodes), origins, requests[k].call, ttl, maxNodes).0.contacted
      {
        if k < |front| {
          assert requests[..k] == front[..k] && requests[k] == front[k];
        } else {
          assert requests[..k] == front;
        }
      }
    }
  }

  lemma CheckKeepsMark<T>(log: Log, x: Origin, p: ProbeReply, at: real, o: Origin, t: real, origins: seq<Origin>, r: Request<T>, now: real)
    requires r == CheckIt(x, p, at) && NotCleared(r, o, origins) && Marked(log, o, t) && Files(log, origins)
    requires Timed(Checked(log, x, p, at), now)
    ensures Marked(Checked(log, x, p, at), o, t) && Files(Checked(log, x, p, at), origins)
  {
    hide LastWrite;
    if ProbeOf(x, p).Ok? {
      var s := Step(at, Put(x, ProbeOf(x, p).value));
      FilesAppend(log, s, origins);
      if x == o {
        LastWriteAppend(log, s, o);
        WrittenBefore(log, s, o, now);
      } else {
        MarkKept(log, s, o, t);
      }
    }
  }

  lemma {:induction false} LastWriteIsStep(log: Log, o: Origin) returns (i: nat)
    requires LastWrite(log, o).Some?
    ensures i < |log| && log[i].at == LastWrite(log, o).value.at
    decreases |log|
  {
    i := |log| - 1;
    if !(log[i].op.Put? && log[i].op.key == o) {
      i := LastWriteIsStep(log[..i], o);
    }
  }

  lemma WrittenBefore(log: Log, s: Step<Origin, Verdict>, o: Origin, now: real)
    requires LastWrite(log, o).Some? && Timed(log + [s], now)
    ensures LastWrite(log, o).value.at <= s.at
  {
    var i := LastWriteIsStep(log, o);
    assert (log + [s])[i] == log[i] && (log + [s])[|log|] == s;
  }

  // ----- every failure is remembered ---------------------------------------------------------------------------------

  /** The last verdict recorded for `o` is the failure of this visit, dated by the step that failed:
      the probe, or the walk. */
  ghost predicate Recorded<T>(log: Log, o: Origin, v: Visit<T>) {
    var w := LastWrite(log, o);
    && w.Some? && w.value.value.Some?
    && ((w.value.at == v.probedAt && ProbeOf(o, v.probe) == Ok(w.value.value))
        || (w.value.at == v.failedAt && Ended(NotesOf(o, v.fetches), v.ending).None?
            && NotesOf(o, v.fetches).failure == w.value.value))
  }

  lemma RecordedKept<T>(log: Log, s: Step<Origin, Verdict>, o: Origin, v: Visit<T>)
    requires Recorded(log, o, v) && (s.op.Ask? || (s.op.Put? && s.op.key != o))
    ensures Recorded(log + [s], o, v)
  {
    hide LastWrite, ProbeOf, NotesOf, Ended;
    LastWriteAppend(log, s, o);
  }

  /** A candidate the loop contacted and moved on from has its failure recorded. */
  lemma CandidateRecords<T>(st: State, origin: Origin, v: Visit<T>, ttl: real, maxNodes: nat)
    ensures var p := Candidate(st, origin, v, ttl, maxNodes);
      p.Next? && p.st.contacted != st.contacted ==> Recorded(p.st.log, origin, v)
  {
    hide Known, NotesOf, ProbeOf, LastWrite, Ended;
    var p := Candidate(st, origin, v, ttl, maxNodes);
    if p.Next? && p.st.contacted != st.contacted {
      var front, last := p.st.log[..|p.st.log| - 1], p.st.log[|p.st.log| - 1];
      assert p.st.log == front + [last];
      LastWriteAppend(front, last, origin);
    }
  }

  /** What a candidate adds to the log: its look-up, then at most two verdicts about itself. */
  lemma CandidateLogs<T>(st: State, origin: Origin, v: Visit<T>, ttl: real, maxNodes: nat) returns (steps: Log)
    ensures Candidate(st, origin, v, ttl, maxNodes).st.log == st.log + steps
    ensures forall s | s in steps :: s.op.Ask? || (s.op.Put? && s.op.key == origin)
  {
    hide Known, NotesOf, ProbeOf, Ended;
    var log := Candidate(st, origin, v, ttl, maxNodes).st.log;
    assert st.log <= log;
    steps := log[|st.log|..];
  }

  lemma {:induction false} RecordedThrough<T>(log: Log, steps: Log, origin: Origin, o: Origin, v: Visit<T>)
    requires Recorded(log, o, v) && origin != o
    requires forall s | s in steps :: s.op.Ask? || (s.op.Put? && s.op.key == origin)
    ensures Recorded(log + steps, o, v)
    decreases |steps|
  {
    hide Recorded;
    if steps == [] {
      assert log + steps == log;
    } else {
      var front, last := steps[..|steps| - 1], steps[|steps| - 1];
      assert steps == front + [last] && log + steps == (log + front) + [last];
      RecordedThrough(log, front, origin, o, v);
      RecordedKept(log + front, last, o, v);
    }
  }

  lemma {:induction false} FilesThrough(log: Log, steps: Log, origin: Origin, origins: seq<Origin>)
    requires Files(log, origins) && origin in origins
    requires forall s | s in steps :: s.op.Ask? || (s.op.Put? && s.op.key == origin)
    ensures Files(log + steps, origins)
  {
  }

  lemma {:induction false} RecordsSurvive<T>(st: State, order: seq<Origin>, visit: Origin -> Visit<T>, ttl: real, maxNodes: nat, o: Origin)
    requires o !in order && Recorded(st.log, o, visit(o))
    ensures Recorded(Candidates(st, order, visit, ttl, maxNodes).0.log, o, visit(o))
    decreases |order|
  {
    hide Candidate, Recorded;
    if order != [] {
      var steps := CandidateLogs(st, order[0], visit(order[0]), ttl, maxNodes);
      RecordedThrough(st.log, steps, order[0], o, visit(o));
      var p := Candidate(st, order[0], visit(order[0]), ttl, maxNodes);
      if p.Next? {
        RecordsSurvive(p.st, order[1..], visit, ttl, maxNodes, o);
      }
    }
  }

  /** Every node the loop contacted and did not end on has its failure in the memo. */
  lemma {:induction false} FailuresAreRecorded<T>(st: State, order: seq<Origin>, visit: Origin -> Visit<T>, ttl: real, maxNodes: nat)
    requires Distinct(order) && forall o | o in st.contacted :: o !in order
    ensures var (end, outcome) := Candidates(st, order, visit, ttl, maxNodes);
      && st.contacted <= end.contacted
      && forall i :: |st.contacted| <= i < |end.contacted| && (outcome.NoHealthyNode? || i < |end.contacted| - 1) ==>
           Recorded(end.log, end.contacted[i], visit(end.contacted[i]))
    decreases |order|
  {
    hide Candidate, Recorded;
    if order != [] {
      var v := visit(order[0]);
      CandidateCosts(st, order[0], v, ttl, maxNodes);
      CandidateRecords(st, order[0], v, ttl, maxNodes);
      CandidateNeverEmptyHanded(st, order[0], v, ttl, maxNodes);
      var p := Candidate(st, order[0], v, ttl, maxNodes);
      assert order == [order[0]] + order[1..];
      if p.Next? {
        assert forall i :: 0 <= i < |order| - 1 ==> order[1..][i] == order[i + 1];
        FailuresAreRecorded(p.st, order[1..], visit, ttl, maxNodes);
        if p.st.contacted != st.contacted {
          RecordsSurvive(p.st, order[1..], visit, ttl, maxNodes, order[0]);
        }
      }
    }
  }

  lemma CandidateNeverEmptyHanded<T>(st: State, origin: Origin, v: Visit<T>, ttl: real, maxNodes: nat)
    ensures Candidate(st, origin, v, ttl, maxNodes).Stop? ==> !Candidate(st, origin, v, ttl, maxNodes).outcome.NoHealthyNode?
  {
  }

  /** The call contacted `o` and went on to another node, or found none healthy. */
  ghost predicate FailedOn<T>(log: Log, origins: seq<Origin>, call: Call<T>, ttl: real, maxNodes: nat, o: Origin) {
    var (end, outcome) := RunOf(log, origins, call, ttl, maxNodes);
    o in end.contacted && (outcome.NoHealthyNode? || o != end.contacted[|end.contacted| - 1])
  }

  lemma RunRecords<T>(log: Log, origins: seq<Origin>, call: Call<T>, ttl: real, maxNodes: nat, o: Origin)
    requires FailedOn(log, origins, call, ttl, maxNodes, o)
    ensures Recorded(RunOf(log, origins, call, ttl, maxNodes).0.log, o, call.visit(o)) && o in origins
  {
    hide Candidates, Recorded, OrderOf;
    RunContacts(log, origins, call, ttl, maxNodes);
    if !call.expired && OrderOf(call.policy, origins).Some? {
      var order := OrderOf(call.policy, origins).value;
      OrderIsDistinct(call.policy, origins);
      FailuresAreRecorded(State(log, [], 0, []), order, call.visit, ttl, maxNodes);
    }
  }

  lemma {:induction false} CandidatesFile<T>(st: State, order: seq<Origin>, visit: Origin -> Visit<T>, ttl: real, maxNodes: nat, origins: seq<Origin>)
    requires Files(st.log, origins) && forall x | x in order :: x in origins
    ensures Files(Candidates(st, order, visit, ttl, maxNodes).0.log, origins)
    decreases |order|
  {
    hide Candidate, Files;
    if order != [] {
      var steps := CandidateLogs(st, order[0], visit(order[0]), ttl, maxNodes);
      FilesThrough(st.log, steps, order[0], origins);
      var p := Candidate(st, order[0], visit(order[0]), ttl, maxNodes);
      if p.Next? {
        CandidatesFile(p.st, order[1..], visit, ttl, maxNodes, origins);
      }
    }
  }

  lemma RunFiles<T>(log: Log, origins: seq<Origin>, call: Call<T>, ttl: real, maxNodes: nat)
    requires Files(log, origins)
    ensures Files(RunOf(log, origins, call, ttl, maxNodes).0.log, origins)
  {
    hide Candidates, OrderOf, Files;
    if !call.expired && OrderOf(call.policy, origins).Some? {
      OrderIsDistinct(call.policy, origins);
      CandidatesFile(State(log, [], 0, []), OrderOf(call.policy, origins).value, call.visit, ttl, maxNodes, origins);
    }
  }

  lemma {:induction false} HistoryFiles<T>(requests: seq<Request<T>>, origins: seq<Origin>, ttl: real, maxNodes: nat)
    requires forall r | r in requests :: OwnRequest(r, origins)
    ensures Files(LogAfter([], requests, origins, ttl, maxNodes), origins)
    decreases |requests|
  {
    hide RunOf, ProbeOf;
    if requests != [] {
      var front, last := requests[..|requests| - 1], requests[|requests| - 1];
      assert requests == front + [last];
      HistoryFiles(front, origins, ttl, maxNodes);
      var before := LogAfter([], front, origins, ttl, maxNodes);
      assert OwnRequest(last, origins);
      match last {
        case RunIt(call) => RunFiles(before, origins, call, ttl, maxNodes);
        case CheckIt(o, p, at) =>
          if ProbeOf(o, p).Ok? { FilesAppend(before, Step(at, Put(o, ProbeOf(o, p).value)), origins); }
      }
    }
  }

  lemma {:induction false} LogAfterSplit<T>(log: Log, a: seq<Request<T>>, b: seq<Request<T>>, origins: seq<Origin>, ttl: real, maxNodes: nat)
    ensures LogAfter(log, a + b, origins, ttl, maxNodes) == LogAfter(LogAfter(log, a, origins, ttl, maxNodes), b, origins, ttl, maxNodes)
    decreases |b|
  {
    hide RunOf, Checked;
    if b == [] {
      assert a + b == a;
    } else {
      assert (a + b)[..|a + b| - 1] == a + b[..|b| - 1];
      LogAfterSplit(log, a, b[..|b| - 1], origins, ttl, maxNodes);
    }
  }

  lemma LeftAloneAfter<T>(upto: seq<Request<T>>, later: seq<Request<T>>, origins: seq<Origin>, ttl: real, maxNodes: nat,
                          o: Origin, t: real, now: real)
    requires Marked(LogAfter([], upto, origins, ttl, maxNodes), o, t) && Files(LogAfter([], upto, origins, ttl, maxNodes), origins)
    requires o in origins && |origins| <= MAX_NODES && forall r | r in later :: NotCleared(r, o, origins)
    requires Timed(LogAfter([], upto + later, origins, ttl, maxNodes), now) && now <= t + ttl
    ensures forall k :: 0 <= k < |later| && later[k].RunIt? ==>
      var before := upto + later[..k];
      o !in RunOf(LogAfter([], before, origins, ttl, maxNodes), origins, later[k].call, ttl, maxNodes).0.contacted
  {
    hide *;
    LogAfterSplit([], upto, later, origins, ttl, maxNodes);
    MarkedNodeLeftAlone(LogAfter([], upto, origins, ttl, maxNodes), later, origins, ttl, maxNodes, o, t, now);
    forall k | 0 <= k < |later| && later[k].RunIt?
      ensures o !in RunOf(LogAfter([], upto + later[..k], origins, ttl, maxNodes), origins, later[k].call, ttl, maxNodes).0.contacted
    {
      LogAfterSplit([], upto, later[..k], origins, ttl, maxNodes);
    }
  }
  /** The memo's log before request `k` of a client's history. */
  function LogBefore<T>(requests: seq<Request<T>>, k: nat, origins: seq<Origin>, ttl: real, maxNodes: nat): Log
    requires k <= |requests|
  {
    LogAfter([], requests[..k], origins, ttl, maxNodes)
  }

  /** Request `k` contacts the node, if it is a run. */
  ghost predicate ContactsAt<T>(requests: seq<Request<T>>, k: nat, origins: seq<Origin>, ttl: real, maxNodes: nat, o: Origin)
    requires k < |requests|
  {
    requests[k].RunIt? && o in RunOf(LogBefore(requests, k, origins, ttl, maxNodes), origins, requests[k].call, ttl, maxNodes).0.contacted
  }

  lemma FailureRecorded<T>(requests: seq<Request<T>>, i: nat, origins: seq<Origin>, ttl: real, maxNodes: nat, o: Origin)
    requires forall r | r in requests :: OwnRequest(r, origins)
    requires i < |requests| && requests[i].RunIt?
    requires FailedOn(LogBefore(requests, i, origins, ttl, maxNodes), origins, requests[i].call, ttl, maxNodes, o)
    ensures o in origins
    ensures Recorded(LogBefore(requests, i + 1, origins, ttl, maxNodes), o, requests[i].call.visit(o))
    ensures Marked(LogBefore(requests, i + 1, origins, ttl, maxNodes), o, LastWrite(LogBefore(requests, i + 1, origins, ttl, maxNodes), o).value.at)
    ensures Files(LogBefore(requests, i + 1, origins, ttl, maxNodes), origins)
  {
    hide RunOf, Files, LastWrite, ProbeOf, NotesOf, Ended, FailedOn, OwnRequest;
    var upto := requests[..i + 1];
    assert upto[..i] == requests[..i];
    RunRecords(LogBefore(requests, i, origins, ttl, maxNodes), origins, requests[i].call, ttl, maxNodes, o);
    HistoryFiles(upto, origins, ttl, maxNodes);
  }

  /** A client's history of runs and health checks. When run `i` contacts a node that fails it, the
      failure is recorded with the time of the step that failed, and no later run contacts the node
      while the memo's clock reads at most that time plus the time to live, unless a health check
      after run `i` records it healthy. */
  lemma FailedNodeLeftAlone<T>(requests: seq<Request<T>>, i: nat, origins: seq<Origin>, ttl: real, maxNodes: nat, o: Origin, now: real)
    requires |origins| <= MAX_NODES && forall r | r in requests :: OwnRequest(r, origins)
    requires Timed(LogBefore(requests, |requests|, origins, ttl, maxNodes), now)
    requires i < |requests| && requests[i].RunIt?
    requires FailedOn(LogBefore(requests, i, origins, ttl, maxNodes), origins, requests[i].call, ttl, maxNodes, o)
    ensures Recorded(LogBefore(requests, i + 1, origins, ttl, maxNodes), o, requests[i].call.visit(o))
    ensures now <= LastWrite(LogBefore(requests, i + 1, origins, ttl, maxNodes), o).value.at + ttl
      && (forall j | i < j < |requests| :: NotCleared(requests[j], o, origins))
      ==> forall k | i < k < |requests| :: !ContactsAt(requests, k, origins, ttl, maxNodes, o)
  {
    FailureRecorded(requests, i, origins, ttl, maxNodes, o);
    hide RunOf, Files, Timed, LastWrite, LogAfter, Marked, FailedOn, NotCleared, OwnRequest;
    var upto, later := requests[..i + 1], requests[i + 1..];
    var failed := LastWrite(LogBefore(requests, i + 1, origins, ttl, maxNodes), o).value.at;
    hide Recorded;
    assert requests[..|requests|] == requests == upto + later;
    if now <= failed + ttl && (forall j | i < j < |requests| :: NotCleared(requests[j], o, origins)) {
      forall r | r in later
        ensures NotCleared(r, o, origins)
      {
        var j :| 0 <= j < |later| && later[j] == r;
        assert requests[i + 1 + j] == r;
      }
      LeftAloneAfter(upto, later, origins, ttl, maxNodes, o, failed, now);
      forall k | i < k < |requests|
        ensures !ContactsAt(requests, k, origins, ttl, maxNodes, o)
      {
        assert requests[..k] == upto + later[..k - i - 1] && requests[k] == later[k - i - 1];
      }
    }
  }
}

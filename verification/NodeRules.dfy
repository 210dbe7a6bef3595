/**
 The rules of failover written out, from what the nodes answer and what the walk does
 alone: when a candidate is passed over, when it ends the call and with what, and the
 outcome of a whole call. The loop is proved to follow them.
 */
module NodeRules {
  import opened Prelude
  import opened Cache
  import opened NodeClient
  import NodeFailover

  // ----- one read ---------------------------------------------------------------------------

  /** Which failure of a node an error is: the table row by row, and nothing else. */
  lemma ClassifyRule(e: Error)
    ensures Classify(e) == Some(Unreachable) <==>
      e.cls.ForbiddenAddress? || (e.cls.TransientExhausted? && e.status.None?)
    ensures Classify(e) == Some(Unavailable) <==>
      (e.cls.TransientExhausted? && e.status.Some?)
      || (e.cls.PlainHttp? && e.status.Some? && (e.status.value == 429 || e.status.value >= 500))
    ensures Classify(e) == Some(Forbidden) <==> e.cls.PlainHttp? && e.status == Some(403)
    ensures Classify(e) == Some(Redirect) <==> e.cls.PlainHttp? && e.status.Some? && 300 <= e.status.value < 400
    ensures Classify(e) == Some(Limits) <==> e.cls.PlainHttp? && (e.status.None? || e.status == Some(200))
    ensures Classify(e) != Some(Unhealthy)
    ensures IsTerminal(e) <==> e.cls in {ListExpired, ConfigError, ForbiddenHost}
  {
  }

  /** The error of a read that ends the call whatever the walk does with it: the list has expired, the
      address is not on this node, or the client says one of the two or finds the configuration bad. */
  predicate TerminalRead(r: Read, e: Error) {
    || (r.expired && e == Error(ListExpired, None))
    || (!r.expired && r.target != OnNode && e == Error(ForbiddenHost, None))
    || (!r.expired && r.target == OnNode && r.reply == Some(e) && e.cls in {ListExpired, ConfigError, ForbiddenHost})
  }

  /** A read on the node, under a valid list, that fails as a node fails. */
  predicate FailedRead(origin: Origin, r: Read, f: NodeFailure) {
    && !r.expired && r.target == OnNode && r.reply.Some?
    && f.origin == origin && f.status == r.reply.value.status
    && Classify(r.reply.value) == Some(f.kind)
  }

  // ----- one walk -----------------------------------------------------------------------------

  /** The first terminal error of a walk's reads. */
  ghost predicate FirstTerminal(fetches: seq<Read>, e: Error) {
    exists i | 0 <= i < |fetches| :: TerminalRead(fetches[i], e) && forall j, d | 0 <= j < i :: !TerminalRead(fetches[j], d)
  }

  ghost predicate NoTerminal(fetches: seq<Read>) {
    forall r, e | r in fetches :: !TerminalRead(r, e)
  }

  /** The first failure of the node among them. */
  ghost predicate FirstFailure(origin: Origin, fetches: seq<Read>, f: NodeFailure) {
    exists i | 0 <= i < |fetches| :: FailedRead(origin, fetches[i], f) && forall j, d | 0 <= j < i :: !FailedRead(origin, fetches[j], d)
  }

  ghost predicate NoFailure(origin: Origin, fetches: seq<Read>) {
    forall r, f | r in fetches :: !FailedRead(origin, r, f)
  }

  lemma ReadRule(origin: Origin, r: Read)
    ensures ReadError(r).Some? && IsTerminal(ReadError(r).value) ==> TerminalRead(r, ReadError(r).value)
    ensures forall e :: TerminalRead(r, e) <==> ReadError(r) == Some(e) && IsTerminal(e)
    ensures forall f :: FailedRead(origin, r, f) <==>
      ReadError(r).Some? && !IsTerminal(ReadError(r).value) && Classify(ReadError(r).value).Some?
      && f == NodeFailure(origin, Classify(ReadError(r).value).value, ReadError(r).value.status)
  {
    if ReadError(r).Some? { ClassifyRule(ReadError(r).value); }
    if r.reply.Some? { ClassifyRule(r.reply.value); }
  }

  lemma TerminalNext(front: seq<Read>, r: Read)
    ensures NoTerminal(front + [r]) <==> NoTerminal(front) && forall e :: !TerminalRead(r, e)
    ensures forall e :: FirstTerminal(front + [r], e) <==> FirstTerminal(front, e) || (NoTerminal(front) && TerminalRead(r, e))
  {
    hide TerminalRead;
    var all := front + [r];
    assert forall i :: 0 <= i < |front| ==> all[i] == front[i];
    forall e
      ensures FirstTerminal(all, e) <==> FirstTerminal(front, e) || (NoTerminal(front) && TerminalRead(r, e))
    {
      if i :| 0 <= i < |all| && TerminalRead(all[i], e) && forall j, d | 0 <= j < i :: !TerminalRead(all[j], d) {
        if i < |front| { assert TerminalRead(front[i], e); }
      }
      if i :| 0 <= i < |front| && TerminalRead(front[i], e) && forall j, d | 0 <= j < i :: !TerminalRead(front[j], d) {
        assert TerminalRead(all[i], e);
      }
      if NoTerminal(front) && TerminalRead(r, e) {
        assert TerminalRead(all[|front|], e);
        assert forall j, d | 0 <= j < |front| :: !TerminalRead(all[j], d);
      }
    }
    assert forall x :: x in all <==> x in front || x == r;
  }

  lemma FailureNext(origin: Origin, front: seq<Read>, r: Read)
    ensures NoFailure(origin, front + [r]) <==> NoFailure(origin, front) && forall f :: !FailedRead(origin, r, f)
    ensures forall f :: FirstFailure(origin, front + [r], f) <==>
      FirstFailure(origin, front, f) || (NoFailure(origin, front) && FailedRead(origin, r, f))
  {
    hide FailedRead;
    var all := front + [r];
    assert forall i :: 0 <= i < |front| ==> all[i] == front[i];
    forall f
      ensures FirstFailure(origin, all, f) <==> FirstFailure(origin, front, f) || (NoFailure(origin, front) && FailedRead(origin, r, f))
    {
      if i :| 0 <= i < |all| && FailedRead(origin, all[i], f) && forall j, d | 0 <= j < i :: !FailedRead(origin, all[j], d) {
        if i < |front| { assert FailedRead(origin, front[i], f); }
      }
      if i :| 0 <= i < |front| && FailedRead(origin, front[i], f) && forall j, d | 0 <= j < i :: !FailedRead(origin, front[j], d) {
        assert FailedRead(origin, all[i], f);
      }
      if NoFailure(origin, front) && FailedRead(origin, r, f) {
        assert FailedRead(origin, all[|front|], f);
        assert forall j, d | 0 <= j < |front| :: !FailedRead(origin, all[j], d);
      }
    }
    assert forall x :: x in all <==> x in front || x == r;
  }

  /** What a session records, from the reads: the first of each kind. */
  lemma {:induction false} NotesRule(origin: Origin, fetches: seq<Read>)
    ensures NotesOf(origin, fetches).failure.None? <==> NoFailure(origin, fetches)
    ensures forall f :: NotesOf(origin, fetches).failure == Some(f) <==> FirstFailure(origin, fetches, f)
    ensures NotesOf(origin, fetches).terminal.None? <==> NoTerminal(fetches)
    ensures forall e :: NotesOf(origin, fetches).terminal == Some(e) <==> FirstTerminal(fetches, e)
    decreases |fetches|
  {
    if fetches == [] {
      NothingNoted(origin);
    } else {
      var front, r := fetches[..|fetches| - 1], fetches[|fetches| - 1];
      assert fetches == front + [r];
      NotesRule(origin, front);
      TerminalNext(front, r);
      FailureNext(origin, front, r);
      ReadRule(origin, r);
      hide TerminalRead, FailedRead, FirstTerminal, FirstFailure, NoTerminal, NoFailure, Classify, IsTerminal, ReadError;
      var before := NotesOf(origin, front);
      assert NotesOf(origin, fetches) == if ReadError(r).None? then before else Note(before, origin, ReadError(r).value);
      hide NotesOf;
      if before.failure.Some? { assert FirstFailure(origin, front, before.failure.value); }
      if before.terminal.Some? { assert FirstTerminal(front, before.terminal.value); }
      FirstIsNotNone(origin, front);
    }
  }

  lemma NothingNoted(origin: Origin)
    ensures NoFailure(origin, []) && NoTerminal([])
    ensures (forall f :: !FirstFailure(origin, [], f)) && forall e :: !FirstTerminal([], e)
  {
  }

  lemma FirstIsNotNone(origin: Origin, fetches: seq<Read>)
    ensures forall f :: FirstFailure(origin, fetches, f) ==> !NoFailure(origin, fetches)
    ensures forall e :: FirstTerminal(fetches, e) ==> !NoTerminal(fetches)
  {
    hide FailedRead, TerminalRead;
  }

  // ----- one candidate -------------------------------------------------------------------------------

  /** Healthy as far as is known: by a fresh verdict, or by a probe answered 200 with an alive body. */
  predicate Healthy<T>(known: Option<Verdict>, v: Visit<T>) {
    known == Some(None) || (known.None? && v.probe == Reply(200, true))
  }

  /** Why a candidate is passed over: its failure, and whether it cost a request. */
  datatype Passage = KnownBad(f: NodeFailure) | BadProbe(f: NodeFailure) | BadWalk(f: NodeFailure)

  /** A candidate is passed over when it is known bad, when its probe is answered with anything but an
      alive 200 or fails, or when its walk met a failure of the node, met nothing terminal, and ended by
      returning or with an error that is not terminal. */
  ghost predicate PassedOver<T>(known: Option<Verdict>, origin: Origin, v: Visit<T>, p: Passage) {
    match p
    case KnownBad(f) => known == Some(Some(f))
    case BadProbe(f) =>
      && known.None? && f.origin == origin && f.kind == Unhealthy
      && (match v.probe
          case Reply(status, alive) => !(status == 200 && alive) && f.status == Some(status)
          case ProbeError(e) => e.cls !in {ListExpired, ConfigError} && f.status == e.status)
    case BadWalk(f) =>
      && Healthy(known, v) && FirstFailure(origin, v.fetches, f) && NoTerminal(v.fetches)
      && (v.ending.Returned? || (v.ending.Raised? && v.ending.e.cls !in {ListExpired, ConfigError, ForbiddenHost}))
  }

  /** A candidate ends the call: with the error of a probe that says the list has expired or the
      configuration is bad; with any exception that is not the library's; with the first terminal error
      of its reads, caught or not; with the walk's own error when it is terminal or no failure of the
      node was met; and with the walk's value when nothing was met. */
  ghost predicate EndsWith<T>(known: Option<Verdict>, origin: Origin, v: Visit<T>, outcome: Outcome<T>) {
    || (known.None? && v.probe.ProbeError? && v.probe.e.cls in {ListExpired, ConfigError} && outcome == Fails(v.probe.e))
    || (Healthy(known, v) &&
          match v.ending
          case Foreign => outcome == ForeignError
          case Raised(e) =>
            || (outcome.Fails? && FirstTerminal(v.fetches, outcome.e))
            || (NoTerminal(v.fetches) && outcome == Fails(e)
                && (e.cls in {ListExpired, ConfigError, ForbiddenHost} || NoFailure(origin, v.fetches)))
          case Returned(x) =>
            || (outcome.Fails? && FirstTerminal(v.fetches, outcome.e))
            || (NoTerminal(v.fetches) && NoFailure(origin, v.fetches) && outcome == Value(x)))
  }

  /** What a candidate that is passed over leaves in the memo's log. */
  function Leaves<T>(known: Option<Verdict>, origin: Origin, v: Visit<T>, p: Passage): Log {
    [Step(v.seenAt, Ask(origin))]
    + match p
      case KnownBad(_) => []
      case BadProbe(f) => [Step(v.probedAt, Put(origin, Some(f)))]
      case BadWalk(f) =>
        (if known.None? then [Step(v.probedAt, Put(origin, None))] else []) + [Step(v.failedAt, Put(origin, Some(f)))]
  }

  /** The passage of a candidate the loop goes on from. */
  function Why<T>(known: Option<Verdict>, origin: Origin, v: Visit<T>): Passage {
    var f := NotesOf(origin, v.fetches).failure;
    if known.Some? && known.value.Some? then KnownBad(known.value.value)
    else if known.None? && ProbeOf(origin, v.probe).Ok? && ProbeOf(origin, v.probe).value.Some? then
      BadProbe(ProbeOf(origin, v.probe).value.value)
    else if f.Some? then BadWalk(f.value)
    else BadWalk(NodeFailure(origin, Unhealthy, None))
  }

  /** The turn of a candidate, in full. */
  lemma TurnRule<T>(st: State, origin: Origin, v: Visit<T>, ttl: real, maxNodes: nat)
    ensures var known := Known(st.log, origin, v.seenAt, ttl); var turn := Candidate(st, origin, v, ttl, maxNodes);
      && (turn.Exhausted? <==> !(known.Some? && known.value.Some?) && st.spent >= maxNodes)
      && (turn.Exhausted? ==> turn.st.failures == st.failures)
      && (forall outcome :: turn.Stop? && turn.outcome == outcome <==> st.spent < maxNodes && EndsWith(known, origin, v, outcome))
      && (forall p :: PassedOver(known, origin, v, p) && (p.KnownBad? || st.spent < maxNodes) ==>
            && turn.Next? && turn.st.log == st.log + Leaves(known, origin, v, p)
            && turn.st.failures == st.failures + [p.f]
            && turn.st.spent == if p.KnownBad? then st.spent else st.spent + 1)
      && (turn.Next? ==> PassedOver(known, origin, v, Why(known, origin, v)) && (Why(known, origin, v).KnownBad? || st.spent < maxNodes))
  {
    NotesRule(origin, v.fetches);
    hide Known, NotesOf, FirstTerminal, FirstFailure, NoTerminal, NoFailure;
  }

  // ----- one call ----------------------------------------------------------------------------------------

  /** How a call goes: candidates passed over one after the other, each of those contacted within the
      budget, and then its end: no candidate left, the budget spent at one that is not known bad, or one
      that ends it. */
  ghost predicate Goes<T>(log: Log, spent: nat, failures: seq<NodeFailure>, order: seq<Origin>, visit: Origin -> Visit<T>,
                          ttl: real, maxNodes: nat, ps: seq<Passage>, outcome: Outcome<T>)
    decreases |ps|
  {
    if order == [] then ps == [] && outcome == NoHealthyNode(failures)
    else
      var o, v := order[0], visit(order[0]);
      var known := Known(log, o, v.seenAt, ttl);
      if ps == [] then
        || (spent < maxNodes && EndsWith(known, o, v, outcome))
        || (spent >= maxNodes && !(known.Some? && known.value.Some?) && outcome == NoHealthyNode(failures))
      else
        && PassedOver(known, o, v, ps[0]) && (ps[0].KnownBad? || spent < maxNodes)
        && Goes(log + Leaves(known, o, v, ps[0]), if ps[0].KnownBad? then spent else spent + 1, failures + [ps[0].f],
                order[1..], visit, ttl, maxNodes, ps[1..], outcome)
  }

  lemma {:induction false} LoopGoes<T>(st: State, order: seq<Origin>, visit: Origin -> Visit<T>, ttl: real, maxNodes: nat) returns (ps: seq<Passage>)
    ensures Goes(st.log, st.spent, st.failures, order, visit, ttl, maxNodes, ps, Candidates(st, order, visit, ttl, maxNodes).1)
    decreases |order|
  {
    if order == [] {
      ps := [];
    } else {
      var v := visit(order[0]);
      TurnRule(st, order[0], v, ttl, maxNodes);
      hide Candidate, EndsWith, PassedOver, Leaves, Known, Why;
      var turn := Candidate(st, order[0], v, ttl, maxNodes);
      if turn.Next? {
        var why := Why(Known(st.log, order[0], v.seenAt, ttl), order[0], v);
        var more := LoopGoes(turn.st, order[1..], visit, ttl, maxNodes);
        ps := [why] + more;
        assert ps[1..] == more;
      } else {
        ps := [];
      }
    }
  }

  lemma {:induction false} GoesOneWay<T>(st: State, order: seq<Origin>, visit: Origin -> Visit<T>, ttl: real, maxNodes: nat,
                                         ps: seq<Passage>, outcome: Outcome<T>)
    requires Goes(st.log, st.spent, st.failures, order, visit, ttl, maxNodes, ps, outcome)
    ensures Candidates(st, order, visit, ttl, maxNodes).1 == outcome
    decreases |ps|
  {
    if order != [] {
      var v := visit(order[0]);
      TurnRule(st, order[0], v, ttl, maxNodes);
      hide Candidate, EndsWith, PassedOver, Leaves, Known, Why;
      if ps != [] {
        GoesOneWay(Candidate(st, order[0], v, ttl, maxNodes).st, order[1..], visit, ttl, maxNodes, ps[1..], outcome);
      }
    }
  }

  /** The outcome of a call, exactly: an expired list and a policy that names no order of the client's
      nodes are errors before any node is contacted; and otherwise the candidates are taken in the
      policy's order, as `Goes` says. */
  lemma CallRule<T>(log: Log, origins: seq<Origin>, call: Call<T>, ttl: real, maxNodes: nat, outcome: Outcome<T>)
    ensures RunOf(log, origins, call, ttl, maxNodes).1 == outcome <==>
      if call.expired then outcome == Fails(Error(ListExpired, None))
      else if !(call.policy.Items? && IsOrder(call.policy.items, origins)) then outcome == Fails(Error(ConfigError, None))
      else exists ps :: Goes(log, 0, [], Origins(call.policy.items), call.visit, ttl, maxNodes, ps, outcome)
  {
    OrderExactly(call.policy, origins);
    hide Goes, Candidates, OrderOf, IsOrder, Origins;
    if !call.expired && OrderOf(call.policy, origins).Some? {
      var st, order := State(log, [], 0, []), OrderOf(call.policy, origins).value;
      var ps := LoopGoes(st, order, call.visit, ttl, maxNodes);
      if other :| Goes(log, 0, [], order, call.visit, ttl, maxNodes, other, outcome) {
        GoesOneWay(st, order, call.visit, ttl, maxNodes, other, outcome);
      }
    }
  }

  lemma NeverWritten(log: Log, o: Origin, now: real, ttl: real)
    requires forall s | s in log :: s.op.Put? ==> s.op.key != o
    ensures Known(log, o, now, ttl) == None
  {
    var hit := Lookup(Cache.Run(log, Some(ttl), MAX_NODES), o);
    if hit.Some? {
      NodeFailover.StoredWasPut(log, ttl, hit.value);
    }
  }

  const DOWN := Error(TransientExhausted, Some(503))

  /** One node answers its probe and fails the walk with a 503; any other returns 7. */
  function OneDown(a: Origin): Origin -> Visit<int> {
    o =>
      if o == a then Visit(1.0, Reply(200, true), 1.0, [Read(false, OnNode, Some(DOWN))], Raised(DOWN), 1.0)
      else Visit(2.0, Reply(200, true), 2.0, [], Returned(7), 2.0)
  }

  lemma FirstIsPassedOver(a: Origin)
    ensures PassedOver(None, a, OneDown(a)(a), BadWalk(NodeFailure(a, Unavailable, Some(503))))
  {
    var fetches := OneDown(a)(a).fetches;
    ClassifyRule(DOWN);
    assert FailedRead(a, fetches[0], NodeFailure(a, Unavailable, Some(503)));
  }

  lemma SecondReturns(a: Origin, b: Origin)
    requires a != b
    ensures EndsWith(None, b, OneDown(a)(b), Value(7))
  {
    NothingNoted(b);
  }

  /** A node failure that the walk raises moves the call on: it returns what the second node gave. */
  lemma FailoverHappens(a: Origin, b: Origin, ttl: real)
    requires a != b
    ensures RunOf([], [a, b], Call(false, Items([Some(a), Some(b)]), OneDown(a)), ttl, 2).1 == Value(7)
  {
    var visit, f := OneDown(a), NodeFailure(a, Unavailable, Some(503));
    var log := [] + Leaves(None, a, visit(a), BadWalk(f));
    NeverWritten([], a, 1.0, ttl);
    NeverWritten(log, b, 2.0, ttl);
    FirstIsPassedOver(a);
    SecondReturns(a, b);
    assert visit(a).seenAt == 1.0 && visit(b).seenAt == 2.0;
    hide PassedOver, EndsWith, Leaves, Known, OneDown;
    assert [a, b][1..] == [b] && [BadWalk(f)][1..] == [];
    assert Goes(log, 1, [] + [f], [b], visit, ttl, 2, [], Value(7));
    assert Goes([], 0, [], [a, b], visit, ttl, 2, [BadWalk(f)], Value(7));
    hide Goes;
    var items := [Some(a), Some(b)];
    assert Origins(items) == [a, b] && IsOrder(items, [a, b]);
    assert Goes([], 0, [], Origins(items), visit, ttl, 2, [BadWalk(f)], Value(7));
    var call := Call(false, Items(items), visit);
    hide RunOf;
    CallRule([], [a, b], call, ttl, 2, Value(7));
    assert !call.expired && call.policy.Items?;
    assert IsOrder(call.policy.items, [a, b]);
    assert exists ps :: Goes([], 0, [], Origins(call.policy.items), call.visit, ttl, 2, ps, Value(7));
    assert RunOf([], [a, b], call, ttl, 2).1 == Value(7);
  }
}

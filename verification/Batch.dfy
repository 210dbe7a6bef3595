/**
 Memoised resolution, and batch verification through it: item for item what
 uncached verification answers, exactly when a key is fetched again, and a
 recursion through envelopes and schema credentials that stops within four nested
 calls.
 */
module Batch {
  import opened Prelude
  import opened Cache

  // ----- cached_resolve ----------------------------------------------------------------------

  /** What a memoised call returns, the cache it leaves, and whether it called through. Only a
      success is stored. */
  function Memoised<K(==), V, E>(data: seq<Entry<K, V>>, key: K, now: real, fetch: K -> Result<V, E>,
                                 ttl: Option<real>, max: nat): (Result<V, E>, seq<Entry<K, V>>, bool)
    requires max >= 1
  {
    var hit := GetResult(data, key, now);
    var after := AfterGet(data, key, now);
    if hit.Some? then (Ok(hit.value), after, false)
    else
      match fetch(key)
      case Ok(v) => (Ok(v), AfterSet(after, key, v, ExpiresAt(now, ttl), max), true)
      case Err(e) => (Err(e), after, true)
  }

  class CachedResolver<K(==), V, E> {
    const fetch: K -> Result<V, E>
    const cache: TtlCache<K, V>

    constructor (fetch: K -> Result<V, E>, cache: TtlCache<K, V>)
      ensures this.fetch == fetch && this.cache == cache
    {
      this.fetch, this.cache := fetch, cache;
    }

    method Resolve(key: K, now: real) returns (r: Result<V, E>)
      requires cache.max >= 1
      modifies cache`data
      ensures (r, cache.data) == (Memoised(old(cache.data), key, now, fetch, cache.ttl, cache.max).0,
                                  Memoised(old(cache.data), key, now, fetch, cache.ttl, cache.max).1)
    {
      var hit := cache.Get(key, now);
      if hit.Some? {
        return Ok(hit.value);
      }
      r := fetch(key);
      if r.Ok? {
        cache.Set(key, r.value, now);
      }
    }
  }

  // ----- one verification -----------------------------------------------------------------------

  const MAX_ENTRIES := 1024

  /** The five resolvers a batch shares. */
  datatype Lane = DidLane | StatusList | StatusToken | Schema | IssuerMetadata

  type Key = string

  datatype Failure<E> = Typed(error: E) | Untyped(error: E)

  datatype Kind<C, E> = Plain | Enveloped(inner: Result<C, E>) | UnknownFormat(error: E)

  /** What a credential's own checks have been told so far: fetched values and the outcomes of
      verifying schema credentials. */
  datatype Answer<V, R, E> = Fetched(value: Result<V, Failure<E>>) | Nested(outcome: Result<R, Failure<E>>)

  /** What they do next. */
  datatype Move<C, R, E> = Finish(outcome: Result<R, Failure<E>>) | Ask(lane: Lane, key: Key) | Inner(raw: C)

  /** Everything outside the pipeline: the resolvers, which answer the same key alike, and the
      checks of one credential as a dialogue of at most `rounds` questions. With schema checking
      off they verify no schema credential. */
  datatype World<!C, !P, !V, !R, !E> = World(
    fetch: Lane -> Key -> Result<V, Failure<E>>,
    kind: C -> Kind<C, E>,
    next: (C, P, bool, seq<Answer<V, R, E>>) -> Move<C, R, E>,
    innerPolicy: P -> P,
    tooDeep: E,
    rounds: nat)

  ghost predicate Answers<C(!new), P(!new), V(!new), R(!new), E(!new)>(w: World<C, P, V, R, E>) {
    && (forall c, p, s, heard :: |heard| >= w.rounds ==> w.next(c, p, s, heard).Finish?)
    && (forall c, p, heard :: !w.next(c, p, false, heard).Inner?)
  }

  /** The resolvers' state: their caches when they are memoised, every call that went through, and
      how many verifications have been nested. */
  datatype State<V> = State(cached: bool, data: Lane -> seq<Entry<Key, V>>, log: seq<(Lane, Key)>, deepest: nat)

  function Empty<V>(cached: bool): State<V> {
    State(cached, l => [], [], 0)
  }

  function Resolve<C, P, V, R, E>(w: World<C, P, V, R, E>, st: State<V>, lane: Lane, key: Key)
    : (Result<V, Failure<E>>, State<V>)
  {
    if !st.cached then (w.fetch(lane)(key), st.(log := st.log + [(lane, key)]))
    else
      var (answer, data, called) := Memoised(st.data(lane), key, 0.0, w.fetch(lane), None, MAX_ENTRIES);
      (answer, st.(data := l => if l == lane then data else st.data(l),
                   log := if called then st.log + [(lane, key)] else st.log))
  }

  function Envelopes(depth: nat): nat {
    if depth < 2 then 2 - depth else 0
  }

  /** `verify_credential` at a nesting depth; `schemas` is off inside a schema credential. */
  function Verify<C(!new), P(!new), V(!new), R(!new), E(!new)>(
    w: World<C, P, V, R, E>, c: C, policy: P, depth: nat, schemas: bool, st: State<V>)
    : (Result<R, Failure<E>>, State<V>)
    requires Answers(w)
    decreases schemas, Envelopes(depth), w.rounds + 1
  {
    var st := st.(deepest := Max(st.deepest, depth + 1));
    match w.kind(c)
    case UnknownFormat(e) => (Err(Typed(e)), st)
    case Enveloped(inner) =>
      if depth >= 2 then (Err(Typed(w.tooDeep)), st)
      else if inner.Err? then (Err(Typed(inner.error)), st)
      else Verify(w, inner.value, policy, depth + 1, schemas, st)
    case Plain => Checks(w, c, policy, depth, schemas, [], st)
  }

  /** The checks of a credential that is not an envelope. */
  function Checks<C(!new), P(!new), V(!new), R(!new), E(!new)>(
    w: World<C, P, V, R, E>, c: C, policy: P, depth: nat, schemas: bool, heard: seq<Answer<V, R, E>>, st: State<V>)
    : (Result<R, Failure<E>>, State<V>)
    requires Answers(w)
    decreases schemas, Envelopes(depth), if |heard| <= w.rounds then w.rounds - |heard| else 0
  {
    match w.next(c, policy, schemas, heard)
    case Finish(outcome) => (outcome, st)
    case Ask(lane, key) =>
      var (answer, st') := Resolve(w, st, lane, key);
      Checks(w, c, policy, depth, schemas, heard + [Fetched(answer)], st')
    case Inner(raw) =>
      var (outcome, st') := Verify(w, raw, w.innerPolicy(policy), depth + 1, false, st);
      Checks(w, c, policy, depth, schemas, heard + [Nested(outcome)], st')
  }

  // ----- verification without any state ------------------------------------------------------------

  /** What verifying a credential comes to, with neither caches nor counts: the resolvers are asked
      directly, and a schema credential is verified under the inner policy with schema checking off. */
  function Outcome<C(!new), P(!new), V(!new), R(!new), E(!new)>(
    w: World<C, P, V, R, E>, c: C, policy: P, depth: nat, schemas: bool): Result<R, Failure<E>>
    requires Answers(w)
    decreases schemas, Envelopes(depth), w.rounds + 1
  {
    match w.kind(c)
    case UnknownFormat(e) => Err(Typed(e))
    case Enveloped(inner) =>
      if depth >= 2 then Err(Typed(w.tooDeep))
      else if inner.Err? then Err(Typed(inner.error))
      else Outcome(w, inner.value, policy, depth + 1, schemas)
    case Plain => Dialogue(w, c, policy, depth, schemas, [])
  }

  function Dialogue<C(!new), P(!new), V(!new), R(!new), E(!new)>(
    w: World<C, P, V, R, E>, c: C, policy: P, depth: nat, schemas: bool, heard: seq<Answer<V, R, E>>): Result<R, Failure<E>>
    requires Answers(w)
    decreases schemas, Envelopes(depth), if |heard| <= w.rounds then w.rounds - |heard| else 0
  {
    match w.next(c, policy, schemas, heard)
    case Finish(outcome) => outcome
    case Ask(lane, key) => Dialogue(w, c, policy, depth, schemas, heard + [Fetched(w.fetch(lane)(key))])
    case Inner(raw) =>
      Dialogue(w, c, policy, depth, schemas, heard + [Nested(Outcome(w, raw, w.innerPolicy(policy), depth + 1, false))])
  }

  // ----- memoised and uncached answer alike ----------------------------------------------------------

  /** Every stored value is what its resolver answers. */
  ghost predicate Consistent<C, P, V, R, E>(w: World<C, P, V, R, E>, st: State<V>) {
    forall l, e | e in st.data(l) :: w.fetch(l)(e.key) == Ok(e.value) && e.expires == None
  }

  lemma ResolveFetches<C, P, V, R, E>(w: World<C, P, V, R, E>, st: State<V>, lane: Lane, key: Key)
    requires st.cached ==> Consistent(w, st)
    ensures var (answer, after) := Resolve(w, st, lane, key);
      && answer == w.fetch(lane)(key) && after.cached == st.cached && after.deepest == st.deepest
      && (Consistent(w, st) ==> Consistent(w, after))
  {
    hide Lookup, Remove;
    var after := Resolve(w, st, lane, key).1;
    if Consistent(w, st) {
      forall l, e | e in after.data(l)
        ensures w.fetch(l)(e.key) == Ok(e.value) && e.expires == None
      {
        if e !in st.data(l) {
          assert st.cached && l == lane;
        }
      }
    }
  }

  /** What `Answers` says about one turn of the dialogue. */
  ghost predicate Asked<C, P, V, R, E>(w: World<C, P, V, R, E>, c: C, policy: P, schemas: bool,
                                 heard: seq<Answer<V, R, E>>) {
    && (!w.next(c, policy, schemas, heard).Finish? ==> |heard| < w.rounds)
    && (w.next(c, policy, schemas, heard).Inner? ==> schemas)
  }

  lemma AskedAlways<C(!new), P(!new), V(!new), R(!new), E(!new)>(
    w: World<C, P, V, R, E>, c: C, policy: P, schemas: bool, heard: seq<Answer<V, R, E>>)
    requires Answers(w)
    ensures Asked(w, c, policy, schemas, heard)
  {
  }

  /** With or without memoisation, whatever the caches hold and have dropped, verification comes to
      what it comes to without any state. */
  lemma {:induction false} VerifyIsOutcome<C(!new), P(!new), V(!new), R(!new), E(!new)>(
    w: World<C, P, V, R, E>, c: C, policy: P, depth: nat, schemas: bool, st: State<V>)
    requires Answers(w) && (st.cached ==> Consistent(w, st))
    ensures var (outcome, after) := Verify(w, c, policy, depth, schemas, st);
      && outcome == Outcome(w, c, policy, depth, schemas)
      && after.cached == st.cached && (Consistent(w, st) ==> Consistent(w, after))
    decreases schemas, Envelopes(depth), w.rounds + 1
  {
    hide Answers, Resolve;
    var st1 := st.(deepest := Max(st.deepest, depth + 1));
    assert Consistent(w, st1) <==> Consistent(w, st);
    match w.kind(c) {
      case UnknownFormat(_) =>
      case Enveloped(inner) =>
        if depth < 2 && inner.Ok? {
          VerifyIsOutcome(w, inner.value, policy, depth + 1, schemas, st1);
        }
      case Plain => ChecksAreDialogue(w, c, policy, depth, schemas, [], st1);
    }
  }

  lemma {:induction false} ChecksAreDialogue<C(!new), P(!new), V(!new), R(!new), E(!new)>(
    w: World<C, P, V, R, E>, c: C, policy: P, depth: nat, schemas: bool, heard: seq<Answer<V, R, E>>, st: State<V>)
    requires Answers(w) && (st.cached ==> Consistent(w, st))
    ensures var (outcome, after) := Checks(w, c, policy, depth, schemas, heard, st);
      && outcome == Dialogue(w, c, policy, depth, schemas, heard)
      && after.cached == st.cached && (Consistent(w, st) ==> Consistent(w, after))
    decreases schemas, Envelopes(depth), if |heard| <= w.rounds then w.rounds - |heard| else 0
  {
    assert Asked(w, c, policy, schemas, heard) by { AskedAlways(w, c, policy, schemas, heard); }
    hide Answers, Verify, Outcome, Consistent;
    match w.next(c, policy, schemas, heard) {
      case Finish(_) =>
      case Ask(lane, key) =>
        ResolveFetches(w, st, lane, key);
        hide Resolve;
        var (answer, st') := Resolve(w, st, lane, key);
        ChecksAreDialogue(w, c, policy, depth, schemas, heard + [Fetched(answer)], st');
      case Inner(raw) =>
        VerifyIsOutcome(w, raw, w.innerPolicy(policy), depth + 1, false, st);
        var (outcome, st') := Verify(w, raw, w.innerPolicy(policy), depth + 1, false, st);
        ChecksAreDialogue(w, c, policy, depth, schemas, heard + [Nested(outcome)], st');
    }
  }

  /** So a shared, memoised state and a fresh plain one answer alike. */
  lemma VerifyAlike<C(!new), P(!new), V(!new), R(!new), E(!new)>(
    w: World<C, P, V, R, E>, c: C, policy: P, depth: nat, schemas: bool, st: State<V>, plain: State<V>)
    requires Answers(w) && Consistent(w, st) && !plain.cached
    ensures var (outcome, after) := Verify(w, c, policy, depth, schemas, st);
      && outcome == Verify(w, c, policy, depth, schemas, plain).0
      && !Verify(w, c, policy, depth, schemas, plain).1.cached
      && Consistent(w, after) && after.cached == st.cached
  {
    hide *;
    VerifyIsOutcome(w, c, policy, depth, schemas, st);
    VerifyIsOutcome(w, c, policy, depth, schemas, plain);
  }

  // ----- the recursion is bounded --------------------------------------------------------------------------

  /** The verifications nested below one at a given depth. */
  function Limit(depth: nat, schemas: bool): nat {
    depth + 1 + Envelopes(depth) + if schemas then 1 else 0
  }

  lemma {:induction false} DepthBounded<C(!new), P(!new), V(!new), R(!new), E(!new)>(
    w: World<C, P, V, R, E>, c: C, policy: P, depth: nat, schemas: bool, st: State<V>)
    requires Answers(w)
    ensures Verify(w, c, policy, depth, schemas, st).1.deepest <= Max(st.deepest, Limit(depth, schemas))
    decreases schemas, Envelopes(depth), w.rounds + 1
  {
    hide Answers, Resolve;
    var st1 := st.(deepest := Max(st.deepest, depth + 1));
    match w.kind(c) {
      case UnknownFormat(_) =>
      case Enveloped(inner) =>
        if depth < 2 && inner.Ok? {
          DepthBounded(w, inner.value, policy, depth + 1, schemas, st1);
        }
      case Plain => ChecksBounded(w, c, policy, depth, schemas, [], st1);
    }
  }

  lemma {:induction false} ChecksBounded<C(!new), P(!new), V(!new), R(!new), E(!new)>(
    w: World<C, P, V, R, E>, c: C, policy: P, depth: nat, schemas: bool, heard: seq<Answer<V, R, E>>, st: State<V>)
    requires Answers(w)
    ensures Checks(w, c, policy, depth, schemas, heard, st).1.deepest <= Max(st.deepest, Limit(depth, schemas))
    decreases schemas, Envelopes(depth), if |heard| <= w.rounds then w.rounds - |heard| else 0
  {
    assert Asked(w, c, policy, schemas, heard) by { AskedAlways(w, c, policy, schemas, heard); }
    hide Answers, Verify;
    match w.next(c, policy, schemas, heard) {
      case Finish(_) =>
      case Ask(lane, key) =>
        var (answer, st') := Resolve(w, st, lane, key);
        ChecksBounded(w, c, policy, depth, schemas, heard + [Fetched(answer)], st');
      case Inner(raw) =>
        DepthBounded(w, raw, w.innerPolicy(policy), depth + 1, false, st);
        var (outcome, st') := Verify(w, raw, w.innerPolicy(policy), depth + 1, false, st);
        ChecksBounded(w, c, policy, depth, schemas, heard + [Nested(outcome)], st');
    }
  }

  /** However credentials wrap each other, even a schema credential that names itself, one
      verification nests at most four calls. */
  lemma FourNestedCalls<C(!new), P(!new), V(!new), R(!new), E(!new)>(
    w: World<C, P, V, R, E>, c: C, policy: P, schemas: bool, st: State<V>)
    requires Answers(w)
    ensures Verify(w, c, policy, 0, schemas, st).1.deepest <= Max(st.deepest, if schemas then 4 else 3)
  {
    DepthBounded(w, c, policy, 0, schemas, st);
  }

  /** Two envelopes around a credential whose schema is a signed credential. */
  function Wrapped(): World<nat, bool, bool, nat, bool> {
    World(l => k => Err(Untyped(false)),
          c => if c < 2 then Enveloped(Ok(c + 1)) else Plain,
          (c, p, schemas, heard) => if schemas && heard == [] then Inner(3) else Finish(Ok(c)),
          p => p, false, 1)
  }

  /** Four is the exact bound. */
  lemma FourIsReached()
    ensures Answers(Wrapped())
    ensures Verify(Wrapped(), 0, true, 0, true, Empty(true)).1.deepest == 4
  {
    var w, st := Wrapped(), Empty<bool>(true);
    assert w.next(2, true, true, []) == Inner(3);
    assert Verify(w, 3, true, 3, false, st.(deepest := 3)).1.deepest == 4;
    assert Checks(w, 2, true, 2, true, [], st.(deepest := 3)).1.deepest == 4;
    assert Verify(w, 2, true, 2, true, st.(deepest := 2)).1.deepest == 4;
    assert Verify(w, 1, true, 1, true, st.(deepest := 1)).1.deepest == 4;
  }

  // ----- when a key is fetched again ---------------------------------------------------------------------------

  /** What the log says of a key: nothing if its lane never answered it, else the other keys the lane
      has answered since it last did. */
  function Since<C, P, V, R, E>(w: World<C, P, V, R, E>, log: seq<(Lane, Key)>, lane: Lane, key: Key): Option<set<Key>> {
    if log == [] then None
    else
      var before := Since(w, log[..|log| - 1], lane, key);
      var (asked, k) := log[|log| - 1];
      if asked != lane || w.fetch(lane)(k).Err? then before
      else if k == key then Some({})
      else if before.Some? then Some(before.value + {k})
      else None
  }

  /** The lane never answered the key, or has answered as many other keys since as a cache holds. */
  predicate Due<C, P, V, R, E>(w: World<C, P, V, R, E>, log: seq<(Lane, Key)>, lane: Lane, key: Key) {
    match Since(w, log, lane, key)
    case None => true
    case Some(others) => |others| >= MAX_ENTRIES
  }

  /** The writes the log makes to a lane's cache. */
  function Writes<C, P, V, R, E>(w: World<C, P, V, R, E>, log: seq<(Lane, Key)>, lane: Lane): seq<Step<Key, V>> {
    if log == [] then []
    else
      var (asked, k) := log[|log| - 1];
      var before := Writes(w, log[..|log| - 1], lane);
      if asked != lane || w.fetch(lane)(k).Err? then before
      else before + [Step(0.0, Put(k, w.fetch(lane)(k).value))]
  }

  lemma {:induction false} WritesTimed<C, P, V, R, E>(w: World<C, P, V, R, E>, log: seq<(Lane, Key)>, lane: Lane)
    ensures Timed(Writes(w, log, lane), 0.0)
    decreases |log|
  {
    if log != [] {
      WritesTimed(w, log[..|log| - 1], lane);
    }
  }

  lemma LastWriteOfPut<V>(steps: seq<Step<Key, V>>, k: Key, v: V, key: Key)
    ensures LastWrite(steps + [Step(0.0, Put(k, v))], key) ==
      var before := LastWrite(steps, key);
      if k == key then Some(Write(0.0, v, {}))
      else if before.Some? then Some(before.value.(since := before.value.since + {k}))
      else None
  {
    assert (steps + [Step(0.0, Put(k, v))])[..|steps|] == steps;
  }

  lemma {:induction false} SinceIsLastWrite<C, P, V, R, E>(w: World<C, P, V, R, E>, log: seq<(Lane, Key)>, lane: Lane, key: Key)
    ensures var write := LastWrite(Writes(w, log, lane), key);
      && Since(w, log, lane, key).Some? == write.Some?
      && (write.Some? ==> write.value.at == 0.0 && Since(w, log, lane, key).value == write.value.since)
    decreases |log|
  {
    hide LastWrite;
    if log == [] {
      NoWrites<V>(key);
    } else {
      var front, last := log[..|log| - 1], log[|log| - 1];
      SinceIsLastWrite(w, front, lane, key);
      if last.0 == lane && w.fetch(lane)(last.1).Ok? {
        LastWriteOfPut(Writes(w, front, lane), last.1, w.fetch(lane)(last.1).value, key);
      }
    }
  }

  lemma NoWrites<V>(key: Key)
    ensures LastWrite<Key, V>([], key) == None
  {
  }

  /** Every lane's cache is what its answered calls wrote to it. */
  ghost predicate Tracks<C, P, V, R, E>(w: World<C, P, V, R, E>, st: State<V>) {
    st.cached && forall l :: st.data(l) == Cache.Run(Writes(w, st.log, l), None, MAX_ENTRIES)
  }

  /** Every call in the log was due when it was made. */
  ghost predicate Lawful<C, P, V, R, E>(w: World<C, P, V, R, E>, log: seq<(Lane, Key)>) {
    forall i | 0 <= i < |log| :: Due(w, log[..i], log[i].0, log[i].1)
  }

  /** What every state of a batch keeps. */
  ghost predicate Reachable<C, P, V, R, E>(w: World<C, P, V, R, E>, st: State<V>) {
    Tracks(w, st) && Consistent(w, st) && Lawful(w, st.log)
  }

  /** When a resolver is called through, exactly: the call is due, by the log of calls alone. Any
      other request is served from the cache and leaves no trace. */
  lemma RefetchedExactly<C, P, V, R, E>(w: World<C, P, V, R, E>, st: State<V>, lane: Lane, key: Key)
    requires Reachable(w, st)
    ensures Resolve(w, st, lane, key).1.log ==
      if Due(w, st.log, lane, key) then st.log + [(lane, key)] else st.log
    ensures !Due(w, st.log, lane, key) ==> Resolve(w, st, lane, key).1.data(lane) == st.data(lane)
    ensures Due(w, st.log, lane, key) && w.fetch(lane)(key).Err? ==> Resolve(w, st, lane, key).1.data(lane) == st.data(lane)
    ensures Due(w, st.log, lane, key) && w.fetch(lane)(key).Ok? ==>
      Resolve(w, st, lane, key).1.data(lane) == AfterSet(st.data(lane), key, w.fetch(lane)(key).value, None, MAX_ENTRIES)
  {
    hide Writes, Since, LastWrite, Cache.Run, AfterSet, Lawful;
    WritesTimed(w, st.log, lane);
    SinceIsLastWrite(w, st.log, lane, key);
    HitsExactly(Writes(w, st.log, lane), key, 0.0, None, MAX_ENTRIES);
    assert GetResult(st.data(lane), key, 0.0).None? <==> Due(w, st.log, lane, key);
    assert AfterGet(st.data(lane), key, 0.0) == st.data(lane);
  }

  lemma WritesAppend<C, P, V, R, E>(w: World<C, P, V, R, E>, log: seq<(Lane, Key)>, asked: Lane, key: Key, lane: Lane)
    ensures Cache.Run(Writes(w, log + [(asked, key)], lane), None, MAX_ENTRIES) ==
      var data := Cache.Run(Writes(w, log, lane), None, MAX_ENTRIES);
      if asked != lane || w.fetch(lane)(key).Err? then data
      else AfterSet(data, key, w.fetch(lane)(key).value, None, MAX_ENTRIES)
  {
    hide AfterSet;
    assert (log + [(asked, key)])[..|log|] == log;
    if asked == lane && w.fetch(lane)(key).Ok? {
      var before := Writes(w, log, lane);
      var more := before + [Step(0.0, Put(key, w.fetch(lane)(key).value))];
      assert more[..|more| - 1] == before;
    }
  }

  lemma LawfulAppend<C, P, V, R, E>(w: World<C, P, V, R, E>, log: seq<(Lane, Key)>, lane: Lane, key: Key)
    requires Lawful(w, log) && Due(w, log, lane, key)
    ensures Lawful(w, log + [(lane, key)])
  {
    hide Due;
    var more := log + [(lane, key)];
    forall i | 0 <= i < |more|
      ensures Due(w, more[..i], more[i].0, more[i].1)
    {
      if i < |log| {
        assert more[..i] == log[..i] && Due(w, log[..i], log[i].0, log[i].1);
      } else {
        assert more[..i] == log;
      }
    }
  }

  lemma ResolveReaches<C, P, V, R, E>(w: World<C, P, V, R, E>, st: State<V>, lane: Lane, key: Key)
    requires Reachable(w, st)
    ensures Reachable(w, Resolve(w, st, lane, key).1)
  {
    RefetchedExactly(w, st, lane, key);
    ResolveFetches(w, st, lane, key);
    OtherLanesKept(w, st, lane, key);
    hide Resolve, Consistent, Due, Cache.Run, Writes, Lawful, AfterSet;
    var st' := Resolve(w, st, lane, key).1;
    if Due(w, st.log, lane, key) {
      LawfulAppend(w, st.log, lane, key);
    }
    forall l
      ensures st'.data(l) == Cache.Run(Writes(w, st'.log, l), None, MAX_ENTRIES)
    {
      WritesAppend(w, st.log, lane, key, l);
    }
  }

  lemma OtherLanesKept<C, P, V, R, E>(w: World<C, P, V, R, E>, st: State<V>, lane: Lane, key: Key)
    requires st.cached
    ensures forall l | l != lane :: Resolve(w, st, lane, key).1.data(l) == st.data(l)
  {
    hide Memoised;
  }

  lemma {:induction false} VerifyReaches<C(!new), P(!new), V(!new), R(!new), E(!new)>(
    w: World<C, P, V, R, E>, c: C, policy: P, depth: nat, schemas: bool, st: State<V>)
    requires Answers(w) && Reachable(w, st)
    ensures Reachable(w, Verify(w, c, policy, depth, schemas, st).1)
    decreases schemas, Envelopes(depth), w.rounds + 1
  {
    var st1 := st.(deepest := Max(st.deepest, depth + 1));
    assert Reachable(w, st1);
    hide Answers, Resolve, Reachable;
    match w.kind(c) {
      case UnknownFormat(_) =>
      case Enveloped(inner) =>
        if depth < 2 && inner.Ok? {
          VerifyReaches(w, inner.value, policy, depth + 1, schemas, st1);
        }
      case Plain => ChecksReach(w, c, policy, depth, schemas, [], st1);
    }
  }

  lemma {:induction false} ChecksReach<C(!new), P(!new), V(!new), R(!new), E(!new)>(
    w: World<C, P, V, R, E>, c: C, policy: P, depth: nat, schemas: bool, heard: seq<Answer<V, R, E>>, st: State<V>)
    requires Answers(w) && Reachable(w, st)
    ensures Reachable(w, Checks(w, c, policy, depth, schemas, heard, st).1)
    decreases schemas, Envelopes(depth), if |heard| <= w.rounds then w.rounds - |heard| else 0
  {
    assert Asked(w, c, policy, schemas, heard) by { AskedAlways(w, c, policy, schemas, heard); }
    hide Answers, Verify, Resolve, Reachable;
    match w.next(c, policy, schemas, heard) {
      case Finish(_) =>
      case Ask(lane, key) =>
        ResolveReaches(w, st, lane, key);
        var (answer, st') := Resolve(w, st, lane, key);
        ChecksReach(w, c, policy, depth, schemas, heard + [Fetched(answer)], st');
      case Inner(raw) =>
        VerifyReaches(w, raw, w.innerPolicy(policy), depth + 1, false, st);
        var (outcome, st') := Verify(w, raw, w.innerPolicy(policy), depth + 1, false, st);
        ChecksReach(w, c, policy, depth, schemas, heard + [Nested(outcome)], st');
    }
  }

  lemma EmptyReachable<C, P, V, R, E>(w: World<C, P, V, R, E>)
    ensures Reachable(w, Empty(true))
  {
  }

  // ----- each key once, while they fit ------------------------------------------------------------------------------

  /** The keys a lane was asked for and answered. */
  function Successes<C, P, V, R, E>(w: World<C, P, V, R, E>, log: seq<(Lane, Key)>, lane: Lane): set<Key> {
    set i | 0 <= i < |log| && log[i].0 == lane && w.fetch(lane)(log[i].1).Ok? :: log[i].1
  }

  ghost predicate OncePerKey<C, P, V, R, E>(w: World<C, P, V, R, E>, log: seq<(Lane, Key)>, lane: Lane) {
    forall i, j :: 0 <= i < j < |log| && log[i].0 == lane && log[i] == log[j] ==> w.fetch(lane)(log[i].1).Err?
  }

  lemma {:induction false} SinceInside<C, P, V, R, E>(w: World<C, P, V, R, E>, log: seq<(Lane, Key)>, lane: Lane, key: Key)
    ensures Since(w, log, lane, key).Some? ==> Since(w, log, lane, key).value <= Successes(w, log, lane) - {key}
    ensures Since(w, log, lane, key).Some? <==> key in Successes(w, log, lane)
    decreases |log|
  {
    if log != [] {
      var front, last := log[..|log| - 1], log[|log| - 1];
      SinceInside(w, front, lane, key);
      SuccessesAppend(w, front, last, lane);
      assert log == front + [last];
    }
  }

  lemma SuccessesAppend<C, P, V, R, E>(w: World<C, P, V, R, E>, log: seq<(Lane, Key)>, entry: (Lane, Key), lane: Lane)
    ensures Successes(w, log + [entry], lane)
      == Successes(w, log, lane) + if entry.0 == lane && w.fetch(lane)(entry.1).Ok? then {entry.1} else {}
  {
    var more := log + [entry];
    forall k | k in Successes(w, log, lane)
      ensures k in Successes(w, more, lane)
    {
      var i :| 0 <= i < |log| && log[i].0 == lane && w.fetch(lane)(log[i].1).Ok? && log[i].1 == k;
      assert more[i] == log[i];
    }
    if entry.0 == lane && w.fetch(lane)(entry.1).Ok? {
      assert more[|log|] == entry;
    }
    forall k | k in Successes(w, more, lane)
      ensures k in Successes(w, log, lane) || (entry.0 == lane && k == entry.1)
    {
      var i :| 0 <= i < |more| && more[i].0 == lane && w.fetch(lane)(more[i].1).Ok? && more[i].1 == k;
      if i < |log| { assert more[i] == log[i]; }
    }
  }

  lemma {:induction false} SubsetSize<T>(a: set<T>, b: set<T>)
    requires a <= b
    ensures |a| <= |b|
  {
    if a != {} {
      var x :| x in a;
      SubsetSize(a - {x}, b - {x});
    }
  }

  lemma SuccessesGrow<C, P, V, R, E>(w: World<C, P, V, R, E>, log: seq<(Lane, Key)>, i: nat, lane: Lane)
    requires i <= |log|
    ensures Successes(w, log[..i], lane) <= Successes(w, log, lane)
  {
    forall k | k in Successes(w, log[..i], lane)
      ensures k in Successes(w, log, lane)
    {
      var j :| 0 <= j < i && log[..i][j].0 == lane && w.fetch(lane)(log[..i][j].1).Ok? && log[..i][j].1 == k;
      assert log[j].1 == k;
    }
  }

  /** While a lane answers no more distinct keys than a cache holds, it answers each once. */
  lemma OnceWhileTheyFit<C, P, V, R, E>(w: World<C, P, V, R, E>, log: seq<(Lane, Key)>, lane: Lane)
    requires Lawful(w, log) && |Successes(w, log, lane)| <= MAX_ENTRIES
    ensures OncePerKey(w, log, lane)
  {
    hide Since;
    forall i, j | 0 <= i < j < |log| && log[i].0 == lane && log[i] == log[j]
      ensures w.fetch(lane)(log[i].1).Err?
    {
      var before, key := log[..j], log[j].1;
      assert Due(w, before, lane, key);
      if w.fetch(lane)(key).Ok? {
        assert before[i].1 == key;
        assert key in Successes(w, before, lane);
        SinceInside(w, before, lane, key);
        SuccessesGrow(w, log, j, lane);
        hide Successes;
        var all := Successes(w, log, lane);
        assert all == (all - {key}) + {key};
        SubsetSize(Since(w, before, lane, key).value, all - {key});
      }
    }
  }

  // ----- the batch ------------------------------------------------------------------------------------------------

  datatype Item<R, E> = Item(index: nat, outcome: Result<R, E>)

  /** What one item's outcome does to a batch: a typed failure becomes the item's error, any other
      exception ends the batch. */
  function Recorded<R, E>(index: nat, outcome: Result<R, Failure<E>>): Result<Item<R, E>, E> {
    match outcome
    case Ok(r) => Ok(Item(index, Ok(r)))
    case Err(Typed(e)) => Ok(Item(index, Err(e)))
    case Err(Untyped(e)) => Err(e)
  }

  /** Uncached `verify_credential` on each credential in turn. */
  function OneByOne<C(!new), P(!new), V(!new), R(!new), E(!new)>(
    w: World<C, P, V, R, E>, cs: seq<C>, policy: P, schemas: bool): Result<seq<Item<R, E>>, E>
    requires Answers(w)
  {
    if cs == [] then Ok([])
    else
      match OneByOne(w, cs[..|cs| - 1], policy, schemas)
      case Err(e) => Err(e)
      case Ok(items) =>
        match Recorded(|cs| - 1, Verify(w, cs[|cs| - 1], policy, 0, schemas, Empty(false)).0)
        case Ok(item) => Ok(items + [item])
        case Err(e) => Err(e)
  }

  /** The outcome of a batch, item by item, without any state: item i carries the value or the typed
      error of credential i, and the first error of any other kind ends the batch with it. */
  lemma {:induction false} BatchExactly<C(!new), P(!new), V(!new), R(!new), E(!new)>(
    w: World<C, P, V, R, E>, cs: seq<C>, policy: P, schemas: bool)
    requires Answers(w)
    ensures forall items :: OneByOne(w, cs, policy, schemas) == Ok(items) <==> ItemsFor(w, cs, policy, schemas, items)
    ensures forall e :: OneByOne(w, cs, policy, schemas) == Err(e) <==> EndsWith(w, cs, policy, schemas, e)
    decreases |cs|
  {
    if cs != [] {
      var n := |cs| - 1;
      var front := cs[..n];
      BatchExactly(w, front, policy, schemas);
      VerifyIsOutcome(w, cs[n], policy, 0, schemas, Empty(false));
      hide Outcome, Verify, Answers, ItemFor, FirstUntyped;
      var before := OneByOne(w, front, policy, schemas);
      forall items
        ensures OneByOne(w, cs, policy, schemas) == Ok(items) <==> ItemsFor(w, cs, policy, schemas, items)
      {
        ItemsNext(w, cs, policy, schemas, items);
        if |items| == |cs| {
          assert items == items[..n] + [items[n]];
          LastItem(w, cs, policy, schemas, items);
        }
      }
      ErrorNext(w, cs, policy, schemas, before);
    }
  }

  lemma LastItem<C(!new), P(!new), V(!new), R(!new), E(!new)>(
    w: World<C, P, V, R, E>, cs: seq<C>, policy: P, schemas: bool, items: seq<Item<R, E>>)
    requires Answers(w) && cs != [] && |items| == |cs|
    ensures ItemFor(w, cs, policy, schemas, |cs| - 1, items[|cs| - 1]) <==>
      Recorded(|cs| - 1, Outcome(w, cs[|cs| - 1], policy, 0, schemas)) == Ok(items[|cs| - 1])
  {
    hide Outcome, Answers;
  }

  lemma ItemsNext<C(!new), P(!new), V(!new), R(!new), E(!new)>(
    w: World<C, P, V, R, E>, cs: seq<C>, policy: P, schemas: bool, items: seq<Item<R, E>>)
    requires Answers(w) && cs != []
    ensures var n := |cs| - 1;
      ItemsFor(w, cs, policy, schemas, items) <==>
        |items| == |cs| && ItemsFor(w, cs[..n], policy, schemas, items[..n]) && ItemFor(w, cs, policy, schemas, n, items[n])
  {
    hide Outcome, Answers;
    var n := |cs| - 1;
    if |items| == |cs| {
      assert forall i :: 0 <= i < n ==> cs[..n][i] == cs[i] && items[..n][i] == items[i];
    }
  }

  lemma ErrorNext<C(!new), P(!new), V(!new), R(!new), E(!new)>(
    w: World<C, P, V, R, E>, cs: seq<C>, policy: P, schemas: bool, before: Result<seq<Item<R, E>>, E>)
    requires Answers(w) && cs != []
    requires forall items :: before == Ok(items) <==> ItemsFor(w, cs[..|cs| - 1], policy, schemas, items)
    requires forall e :: before == Err(e) <==> EndsWith(w, cs[..|cs| - 1], policy, schemas, e)
    ensures forall e :: EndsWith(w, cs, policy, schemas, e) <==>
      before == Err(e) || (before.Ok? && Outcome(w, cs[|cs| - 1], policy, 0, schemas) == Err(Untyped(e)))
  {
    hide Outcome, Answers;
    var n := |cs| - 1;
    var front := cs[..n];
    forall e
      ensures EndsWith(w, cs, policy, schemas, e) <==>
        before == Err(e) || (before.Ok? && Outcome(w, cs[n], policy, 0, schemas) == Err(Untyped(e)))
    {
      assert forall k | 0 <= k < n :: FirstUntyped(w, cs, policy, schemas, k, e) <==> FirstUntyped(w, front, policy, schemas, k, e);
      if before.Ok? {
        assert ItemsFor(w, front, policy, schemas, before.value);
        forall j, d | 0 <= j < n
          ensures Outcome(w, cs[j], policy, 0, schemas) != Err(Untyped(d))
        {
          assert ItemFor(w, front, policy, schemas, j, before.value[j]);
        }
        assert FirstUntyped(w, cs, policy, schemas, n, e) <==> Outcome(w, cs[n], policy, 0, schemas) == Err(Untyped(e));
      } else {
        assert EndsWith(w, front, policy, schemas, before.error);
        var k :| 0 <= k < n && FirstUntyped(w, front, policy, schemas, k, before.error);
        assert !FirstUntyped(w, cs, policy, schemas, n, e);
      }
    }
  }

  ghost predicate ItemsFor<C(!new), P(!new), V(!new), R(!new), E(!new)>(
    w: World<C, P, V, R, E>, cs: seq<C>, policy: P, schemas: bool, items: seq<Item<R, E>>)
    requires Answers(w)
  {
    |items| == |cs| && forall i | 0 <= i < |cs| :: ItemFor(w, cs, policy, schemas, i, items[i])
  }

  ghost predicate EndsWith<C(!new), P(!new), V(!new), R(!new), E(!new)>(
    w: World<C, P, V, R, E>, cs: seq<C>, policy: P, schemas: bool, e: E)
    requires Answers(w)
  {
    exists k | 0 <= k < |cs| :: FirstUntyped(w, cs, policy, schemas, k, e)
  }

  ghost predicate ItemFor<C(!new), P(!new), V(!new), R(!new), E(!new)>(
    w: World<C, P, V, R, E>, cs: seq<C>, policy: P, schemas: bool, i: nat, item: Item<R, E>)
    requires Answers(w) && i < |cs|
  {
    var outcome := Outcome(w, cs[i], policy, 0, schemas);
    && item.index == i
    && ((outcome.Ok? && item.outcome == Ok(outcome.value))
        || (outcome.Err? && outcome.error.Typed? && item.outcome == Err(outcome.error.error)))
  }

  ghost predicate FirstUntyped<C(!new), P(!new), V(!new), R(!new), E(!new)>(
    w: World<C, P, V, R, E>, cs: seq<C>, policy: P, schemas: bool, k: nat, e: E)
    requires Answers(w) && k < |cs|
  {
    && Outcome(w, cs[k], policy, 0, schemas) == Err(Untyped(e))
    && forall j, d | 0 <= j < k :: Outcome(w, cs[j], policy, 0, schemas) != Err(Untyped(d))
  }

  lemma {:induction false} FirstErrorEnds<C(!new), P(!new), V(!new), R(!new), E(!new)>(
    w: World<C, P, V, R, E>, cs: seq<C>, k: nat, policy: P, schemas: bool)
    requires Answers(w) && k <= |cs|
    ensures OneByOne(w, cs[..k], policy, schemas).Err? ==>
      OneByOne(w, cs, policy, schemas) == OneByOne(w, cs[..k], policy, schemas)
    decreases |cs|
  {
    hide Verify, Recorded, Answers;
    if k < |cs| {
      assert cs[..|cs| - 1][..k] == cs[..k];
      FirstErrorEnds(w, cs[..|cs| - 1], k, policy, schemas);
    } else {
      assert cs[..k] == cs;
    }
  }

  /** The shared resolvers after a batch, which ends at the first failure that is not typed. */
  function SharedAfter<C(!new), P(!new), V(!new), R(!new), E(!new)>(
    w: World<C, P, V, R, E>, cs: seq<C>, policy: P, schemas: bool): State<V>
    requires Answers(w)
  {
    if cs == [] then Empty(true)
    else
      var front := SharedAfter(w, cs[..|cs| - 1], policy, schemas);
      if OneByOne(w, cs[..|cs| - 1], policy, schemas).Err? then front
      else Verify(w, cs[|cs| - 1], policy, 0, schemas, front).1
  }

  lemma {:induction false} NothingAfterError<C(!new), P(!new), V(!new), R(!new), E(!new)>(
    w: World<C, P, V, R, E>, cs: seq<C>, k: nat, policy: P, schemas: bool)
    requires Answers(w) && k <= |cs| && OneByOne(w, cs[..k], policy, schemas).Err?
    ensures SharedAfter(w, cs, policy, schemas) == SharedAfter(w, cs[..k], policy, schemas)
    decreases |cs|
  {
    hide Verify, Recorded, Answers, OneByOne;
    if k < |cs| {
      assert cs[..|cs| - 1][..k] == cs[..k];
      FirstErrorEnds(w, cs[..|cs| - 1], k, policy, schemas);
      NothingAfterError(w, cs[..|cs| - 1], k, policy, schemas);
    } else {
      assert cs[..k] == cs;
    }
  }

  /** What a batch leaves: a state whose every call was due, and so, while a lane answers at most 1024
      distinct keys, each fetched once; and no verification nested more than four calls. */
  lemma {:induction false} BatchReaches<C(!new), P(!new), V(!new), R(!new), E(!new)>(
    w: World<C, P, V, R, E>, cs: seq<C>, policy: P, schemas: bool)
    requires Answers(w)
    ensures var shared := SharedAfter(w, cs, policy, schemas);
      && Reachable(w, shared) && shared.deepest <= 4
      && forall l :: |Successes(w, shared.log, l)| <= MAX_ENTRIES ==> OncePerKey(w, shared.log, l)
    decreases |cs|
  {
    hide Verify, Answers, Successes, OncePerKey, OneByOne, Tracks, Consistent, Lawful;
    if cs == [] {
      EmptyReachable(w);
    } else {
      var front := SharedAfter(w, cs[..|cs| - 1], policy, schemas);
      BatchReaches(w, cs[..|cs| - 1], policy, schemas);
      VerifyReaches(w, cs[|cs| - 1], policy, 0, schemas, front);
      FourNestedCalls(w, cs[|cs| - 1], policy, schemas, front);
    }
    var shared := SharedAfter(w, cs, policy, schemas);
    forall l | |Successes(w, shared.log, l)| <= MAX_ENTRIES
      ensures OncePerKey(w, shared.log, l)
    {
      OnceWhileTheyFit(w, shared.log, l);
    }
  }

  /** `verify_many`: item for item what uncached verification returns, evictions and failures
      included. */
  method VerifyMany<C(!new), P(!new), V(!new), R(!new), E(!new)>(
    w: World<C, P, V, R, E>, cs: seq<C>, policy: P, schemas: bool)
    returns (r: Result<seq<Item<R, E>>, E>, shared: State<V>)
    requires Answers(w)
    ensures r == OneByOne(w, cs, policy, schemas)
    ensures shared == SharedAfter(w, cs, policy, schemas)
    ensures Reachable(w, shared) && shared.deepest <= 4
    ensures forall l :: |Successes(w, shared.log, l)| <= MAX_ENTRIES ==> OncePerKey(w, shared.log, l)
  {
    hide Verify, Answers, Resolve, Reachable, Successes, OncePerKey;
    shared := Empty(true);
    var out: seq<Item<R, E>> := [];
    for index := 0 to |cs|
      invariant OneByOne(w, cs[..index], policy, schemas) == Ok(out)
      invariant shared == SharedAfter(w, cs[..index], policy, schemas)
    {
      BatchReaches(w, cs[..index], policy, schemas);
      assert Consistent(w, shared) by { ReachableConsistent(w, shared); }
      VerifyAlike(w, cs[index], policy, 0, schemas, shared, Empty(false));
      var (outcome, after) := Verify(w, cs[index], policy, 0, schemas, shared);
      shared := after;
      assert cs[..index + 1][..index] == cs[..index];
      match Recorded(index, outcome) {
        case Ok(item) => out := out + [item];
        case Err(e) =>
          FirstErrorEnds(w, cs, index + 1, policy, schemas);
          NothingAfterError(w, cs, index + 1, policy, schemas);
          BatchReaches(w, cs, policy, schemas);
          return Err(e), shared;
      }
    }
    assert cs[..|cs|] == cs;
    BatchReaches(w, cs, policy, schemas);
    r := Ok(out);
  }

  lemma ReachableConsistent<C, P, V, R, E>(w: World<C, P, V, R, E>, st: State<V>)
    requires Reachable(w, st)
    ensures Consistent(w, st)
  {
  }

  // ----- past the cache's size ------------------------------------------------------------------------------------------

  function Name(n: nat): (key: Key)
    ensures |key| == n
  {
    seq(n, _ => 'x')
  }

  /** Credential `n` is from issuer `n`: it resolves that issuer's DID and is done. */
  function Issuers(): World<nat, bool, bool, nat, bool> {
    World(l => k => Ok(true), c => Plain,
          (c, p, schemas, heard) => if heard == [] then Move.Ask(DidLane, Name(c)) else Finish(Ok(c)),
          p => p, false, 1)
  }

  lemma IssuersAnswer()
    ensures Answers(Issuers())
  {
  }

  /** One credential is one request, on the caches as it finds them. */
  lemma IssuerAsksOnce(c: nat, st: State<bool>)
    requires Answers(Issuers())
    ensures var (outcome, after) := Verify(Issuers(), c, true, 0, true, st);
      outcome == Ok(c) && after == Resolve(Issuers(), st.(deepest := Max(st.deepest, 1)), DidLane, Name(c)).1
  {
    hide Resolve;
    var w := Issuers();
    var st1 := st.(deepest := Max(st.deepest, 1));
    var (answer, st2) := Resolve(w, st1, DidLane, Name(c));
    assert Checks(w, c, true, 0, true, [] + [Fetched(answer)], st2) == (Ok(c), st2);
    assert Checks(w, c, true, 0, true, [], st1) == (Ok(c), st2);
  }

  lemma IssuerLogs(c: nat, st: State<bool>)
    requires Answers(Issuers()) && Reachable(Issuers(), st)
    ensures Verify(Issuers(), c, true, 0, true, st).0 == Ok(c)
    ensures Verify(Issuers(), c, true, 0, true, st).1.log ==
      if Due(Issuers(), st.log, DidLane, Name(c)) then st.log + [(DidLane, Name(c))] else st.log
  {
    var st1 := st.(deepest := Max(st.deepest, 1));
    assert Reachable(Issuers(), st1);
    hide Verify, Resolve, Reachable, Due, Answers;
    IssuerAsksOnce(c, st);
    RefetchedExactly(Issuers(), st1, DidLane, Name(c));
  }

  /** Credentials 0 to n - 1, of as many issuers. */
  function Row(n: nat): (cs: seq<nat>)
    ensures |cs| == n && forall i :: 0 <= i < n ==> cs[i] == i
  {
    seq(n, i => i)
  }

  function RowLog(n: nat): (log: seq<(Lane, Key)>)
    ensures |log| == n && forall i :: 0 <= i < n ==> log[i] == (DidLane, Name(i))
  {
    seq(n, i requires i >= 0 => (DidLane, Name(i)))
  }

  function Names(a: nat, b: nat): set<Key> {
    set i | a <= i < b :: Name(i)
  }

  lemma {:induction false} NamesCount(a: nat, b: nat)
    requires a <= b
    ensures |Names(a, b)| == b - a
  {
    if a < b {
      NamesCount(a, b - 1);
      assert Names(a, b) == Names(a, b - 1) + {Name(b - 1)};
      assert forall k | k in Names(a, b - 1) :: |k| < b - 1;
    }
  }

  lemma {:induction false} RowSince(n: nat, k: nat)
    ensures Since(Issuers(), RowLog(n), DidLane, Name(k)) == if k < n then Some(Names(k + 1, n)) else None
  {
    if n > 0 {
      assert RowLog(n)[..n - 1] == RowLog(n - 1);
      RowSince(n - 1, k);
      assert |Name(n - 1)| == n - 1 && |Name(k)| == k;
      if k < n - 1 {
        assert Names(k + 1, n) == Names(k + 1, n - 1) + {Name(n - 1)};
      } else if k == n - 1 {
        assert Names(n, n) == {};
      }
    }
  }

  lemma {:induction false} RowRuns(n: nat)
    requires Answers(Issuers())
    ensures OneByOne(Issuers(), Row(n), true, true).Ok?
    ensures SharedAfter(Issuers(), Row(n), true, true).log == RowLog(n)
  {
    hide Verify, Answers, Due, Reachable;
    if n > 0 {
      var w, front := Issuers(), Row(n - 1);
      assert Row(n)[..n - 1] == front;
      RowRuns(n - 1);
      BatchReaches(w, front, true, true);
      IssuerLogs(n - 1, SharedAfter(w, front, true, true));
      PlainVerifies(n - 1);
      assert Due(w, RowLog(n - 1), DidLane, Name(n - 1)) by { RowSince(n - 1, n - 1); DueWhenNever(w, RowLog(n - 1), DidLane, Name(n - 1)); }
      assert RowLog(n) == RowLog(n - 1) + [(DidLane, Name(n - 1))];
    }
  }

  lemma PlainVerifies(c: nat)
    requires Answers(Issuers())
    ensures Verify(Issuers(), c, true, 0, true, Empty(false)).0 == Ok(c)
  {
    hide Verify;
    IssuerAsksOnce(c, Empty(false));
  }

  lemma DueWhenNever<C, P, V, R, E>(w: World<C, P, V, R, E>, log: seq<(Lane, Key)>, lane: Lane, key: Key)
    requires Since(w, log, lane, key).None?
    ensures Due(w, log, lane, key)
  {
  }

  /** How far "each distinct key resolves exactly once" reaches: a batch of credentials from n + 1
      issuers with one more from the first resolves the first issuer's DID once while n is below
      1024, and again from there on. */
  lemma FirstKeyAgain(n: nat)
    ensures Answers(Issuers())
    ensures var log := SharedAfter(Issuers(), Row(n + 1) + [0], true, true).log;
      && log == RowLog(n + 1) + (if n < MAX_ENTRIES then [] else [(DidLane, Name(0))])
      && (OncePerKey(Issuers(), log, DidLane) <==> n < MAX_ENTRIES)
  {
    hide Verify, Answers, Since, Reachable;
    var w, row := Issuers(), Row(n + 1);
    IssuersAnswer();
    RowRuns(n + 1);
    BatchReaches(w, row, true, true);
    assert (row + [0])[..n + 1] == row;
    IssuerLogs(0, SharedAfter(w, row, true, true));
    RowSince(n + 1, 0);
    NamesCount(1, n + 1);
    assert Due(w, RowLog(n + 1), DidLane, Name(0)) <==> n >= MAX_ENTRIES;
    RowOnce(n + 1);
    var log := SharedAfter(w, row + [0], true, true).log;
    if n >= MAX_ENTRIES {
      assert log[0] == log[n + 1] == (DidLane, Name(0));
    }
  }

  lemma RowOnce(n: nat)
    ensures OncePerKey(Issuers(), RowLog(n), DidLane)
    ensures RowLog(n) + [] == RowLog(n)
  {
    forall i, j | 0 <= i < j < n
      ensures RowLog(n)[i] != RowLog(n)[j]
    {
      assert |Name(i)| != |Name(j)|;
    }
  }
}

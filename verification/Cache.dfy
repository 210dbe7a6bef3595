/**
 The bounded time-to-live cache, and exactly when a look-up hits over any run of
 reads, writes and clears with a clock that does not go backwards.
 */
module Cache {
  import opened Prelude

  /** An instant the entry is fresh up to, or `None` when it never expires. */
  type Expiry = Option<real>

  datatype Entry<K, V> = Entry(key: K, expires: Expiry, value: V)

  /** `clock() + ttl`, where a ttl of `None` is infinite. */
  function ExpiresAt(now: real, ttl: Option<real>): Expiry {
    if ttl.None? then None else Some(now + ttl.value)
  }

  /** `not expires < now`. */
  predicate Fresh(e: Expiry, now: real) {
    e.None? || now <= e.value
  }

  predicate NotAfter(a: Expiry, b: Expiry) {
    b.None? || (a.Some? && a.value <= b.value)
  }

  // ----- an ordered dict ------------------------------------------------------------------

  function Lookup<K(==), V>(data: seq<Entry<K, V>>, key: K): (r: Option<Entry<K, V>>)
    ensures r.Some? ==> r.value in data && r.value.key == key
    ensures r.None? ==> forall e | e in data :: e.key != key
  {
    if data == [] then None
    else if data[0].key == key then Some(data[0])
    else Lookup(data[1..], key)
  }

  function Remove<K(==), V>(data: seq<Entry<K, V>>, key: K): (r: seq<Entry<K, V>>)
    ensures |r| <= |data| && forall e | e in r :: e in data && e.key != key
  {
    if data == [] then []
    else if data[0].key == key then Remove(data[1..], key)
    else [data[0]] + Remove(data[1..], key)
  }

  /** The keys written after `key` was. */
  ghost function KeysAfter<K, V>(data: seq<Entry<K, V>>, key: K): set<K> {
    if data == [] then {}
    else if data[0].key == key then Keys(data[1..])
    else KeysAfter(data[1..], key)
  }

  ghost function Keys<K, V>(data: seq<Entry<K, V>>): set<K> {
    set e | e in data :: e.key
  }

  predicate DistinctKeys<K(==), V>(data: seq<Entry<K, V>>) {
    forall i, j :: 0 <= i < j < |data| ==> data[i].key != data[j].key
  }

  /** The oldest entry is the first to expire. */
  predicate InExpiryOrder<K(==), V>(data: seq<Entry<K, V>>) {
    forall i, j :: 0 <= i < j < |data| ==> NotAfter(data[i].expires, data[j].expires)
  }

  /** The state `get` leaves: an expired entry is dropped when it is asked for. */
  function AfterGet<K(==), V>(data: seq<Entry<K, V>>, key: K, now: real): seq<Entry<K, V>> {
    var hit := Lookup(data, key);
    if hit.Some? && !Fresh(hit.value.expires, now) then Remove(data, key) else data
  }

  function GetResult<K(==), V>(data: seq<Entry<K, V>>, key: K, now: real): Option<V> {
    var hit := Lookup(data, key);
    if hit.Some? && Fresh(hit.value.expires, now) then Some(hit.value.value) else None
  }

  /** Room for one more key, at the cost of the oldest entry when the cache is full. */
  function MadeRoom<K(==), V>(data: seq<Entry<K, V>>, key: K, max: nat): seq<Entry<K, V>>
    requires max >= 1
  {
    if Lookup(data, key).None? && |data| >= max then data[1..] else data
  }

  /** The state `set` leaves: the entry stands last. */
  function AfterSet<K(==), V>(data: seq<Entry<K, V>>, key: K, value: V, expires: Expiry, max: nat): seq<Entry<K, V>>
    requires max >= 1
  {
    Remove(MadeRoom(data, key, max), key) + [Entry(key, expires, value)]
  }

  /** What the cache keeps in every state. */
  predicate Sound<K(==), V>(data: seq<Entry<K, V>>, max: nat) {
    |data| <= max && DistinctKeys(data) && InExpiryOrder(data)
  }

  // ----- the class --------------------------------------------------------------------------

  class TtlCache<K(==), V> {
    const ttl: Option<real>
    const max: nat
    var data: seq<Entry<K, V>>

    constructor (ttl: Option<real>, max: nat)
      requires max >= 1
      ensures this.ttl == ttl && this.max == max && data == []
    {
      this.ttl, this.max, this.data := ttl, max, [];
    }

    method Get(key: K, now: real) returns (r: Option<V>)
      modifies this`data
      ensures r == GetResult(old(data), key, now)
      ensures data == AfterGet(old(data), key, now)
    {
      var hit := Lookup(data, key);
      if hit.None? {
        return None;
      }
      if !Fresh(hit.value.expires, now) {
        data := Remove(data, key);
        return None;
      }
      return Some(hit.value.value);
    }

    method Set(key: K, value: V, now: real)
      requires max >= 1
      modifies this`data
      ensures data == AfterSet(old(data), key, value, ExpiresAt(now, ttl), max)
    {
      if Lookup(data, key).None? && |data| >= max {
        data := data[1..];
      }
      data := Remove(data, key) + [Entry(key, ExpiresAt(now, ttl), value)];
    }

    method Clear()
      modifies this`data
      ensures data == []
    {
      data := [];
    }
  }

  // ----- runs -----------------------------------------------------------------------------------

  datatype Op<K, V> = Put(key: K, value: V) | Ask(key: K) | Forget

  /** An operation and the clock reading it saw. */
  datatype Step<K, V> = Step(at: real, op: Op<K, V>)

  function Apply<K(==), V>(data: seq<Entry<K, V>>, s: Step<K, V>, ttl: Option<real>, max: nat): seq<Entry<K, V>>
    requires max >= 1
  {
    match s.op
    case Put(k, v) => AfterSet(data, k, v, ExpiresAt(s.at, ttl), max)
    case Ask(k) => AfterGet(data, k, s.at)
    case Forget => []
  }

  function Run<K(==), V>(steps: seq<Step<K, V>>, ttl: Option<real>, max: nat): seq<Entry<K, V>>
    requires max >= 1
  {
    if steps == [] then []
    else Apply(Run(steps[..|steps| - 1], ttl, max), steps[|steps| - 1], ttl, max)
  }

  /** The clock never goes backwards, and reads at most `now` in the end. */
  predicate Timed<K, V>(steps: seq<Step<K, V>>, now: real) {
    (forall i, j :: 0 <= i < j < |steps| ==> steps[i].at <= steps[j].at)
    && (forall i :: 0 <= i < |steps| ==> steps[i].at <= now)
  }

  /** The last write of a key that no clear followed: its instant, its value, and the other keys
      written since. */
  datatype Write<K, V> = Write(at: real, value: V, since: set<K>)

  function LastWrite<K(==), V>(steps: seq<Step<K, V>>, key: K): Option<Write<K, V>> {
    if steps == [] then None
    else
      var before := LastWrite(steps[..|steps| - 1], key);
      var s := steps[|steps| - 1];
      match s.op
      case Put(k, v) =>
        if k == key then Some(Write(s.at, v, {}))
        else if before.Some? then Some(before.value.(since := before.value.since + {k}))
        else None
      case Ask(_) => before
      case Forget => None
  }

  /** What a look-up at `now` should find, from the history alone. */
  function Expected<K(==), V>(steps: seq<Step<K, V>>, key: K, now: real, ttl: Option<real>, max: nat): Option<V> {
    var w := LastWrite(steps, key);
    if w.Some? && (ttl.Some? ==> now <= w.value.at + ttl.value) && |w.value.since| < max then Some(w.value.value) else None
  }

  // ----- ordered-dict lemmas ------------------------------------------------------------------------

  lemma SplitFirst<T>(s: seq<T>)
    requires s != []
    ensures s == [s[0]] + s[1..]
  {
  }

  lemma SoundTail<K, V>(data: seq<Entry<K, V>>, max: nat)
    requires Sound(data, max) && data != []
    ensures Sound(data[1..], max)
    ensures forall e | e in data[1..] :: e.key != data[0].key && NotAfter(data[0].expires, e.expires)
  {
    var tail := data[1..];
    assert forall i :: 0 <= i < |tail| ==> tail[i] == data[i + 1];
  }

  lemma SoundPrepend<K, V>(e: Entry<K, V>, tail: seq<Entry<K, V>>, max: nat)
    requires Sound(tail, max) && |tail| < max
    requires forall f | f in tail :: f.key != e.key && NotAfter(e.expires, f.expires)
    ensures Sound([e] + tail, max)
  {
    var data := [e] + tail;
    forall i, j | 0 <= i < j < |data|
      ensures data[i].key != data[j].key && NotAfter(data[i].expires, data[j].expires)
    {
      assert data[j] == tail[j - 1] && data[j] in tail;
      if i > 0 { assert data[i] == tail[i - 1]; }
    }
  }

  lemma {:induction false} RemoveSound<K, V>(data: seq<Entry<K, V>>, key: K, max: nat)
    requires Sound(data, max)
    ensures Sound(Remove(data, key), max)
    ensures Lookup(data, key).Some? ==> |Remove(data, key)| == |data| - 1
    ensures Lookup(data, key).None? ==> Remove(data, key) == data
    decreases |data|
  {
    if data != [] {
      SoundTail(data, max);
      SplitFirst(data);
      RemoveSound(data[1..], key, max);
      if data[0].key == key {
        NotThere(data[1..], key);
      } else {
        hide NotAfter;
        SoundPrepend(data[0], Remove(data[1..], key), max);
      }
    }
  }

  lemma NotThere<K, V>(data: seq<Entry<K, V>>, key: K)
    requires forall e | e in data :: e.key != key
    ensures Lookup(data, key) == None
  {
  }

  lemma {:induction false} LookupRemoved<K, V>(data: seq<Entry<K, V>>, gone: K, key: K)
    requires gone != key
    ensures Lookup(Remove(data, gone), key) == Lookup(data, key)
    ensures KeysAfter(Remove(data, gone), key) == KeysAfter(data, key) - {gone}
    decreases |data|
  {
    if data != [] {
      LookupRemoved(data[1..], gone, key);
      var rest := Remove(data[1..], gone);
      if data[0].key != gone {
        assert ([data[0]] + rest)[1..] == rest;
        KeysRemoved(data[1..], gone);
      }
    }
  }

  lemma {:induction false} KeysRemoved<K, V>(data: seq<Entry<K, V>>, gone: K)
    ensures Keys(Remove(data, gone)) == Keys(data) - {gone}
    decreases |data|
  {
    if data != [] {
      KeysRemoved(data[1..], gone);
      SplitFirst(data);
      assert Keys(data) == {data[0].key} + Keys(data[1..]);
      var rest := Remove(data[1..], gone);
      if data[0].key != gone {
        assert Keys([data[0]] + rest) == {data[0].key} + Keys(rest);
      }
    }
  }

  lemma {:induction false} LookupAppended<K, V>(data: seq<Entry<K, V>>, e: Entry<K, V>, key: K)
    ensures Lookup(data, key).Some? ==>
      Lookup(data + [e], key) == Lookup(data, key) && KeysAfter(data + [e], key) == KeysAfter(data, key) + {e.key}
    ensures Lookup(data, key).None? ==>
      Lookup(data + [e], key) == if e.key == key then Some(e) else None
    ensures Lookup(data, key).None? && e.key == key ==> KeysAfter(data + [e], key) == {}
    decreases |data|
  {
    if data == [] {
      assert data + [e] == [e] && [e][1..] == [];
    } else {
      var tail := data[1..];
      assert (data + [e])[1..] == tail + [e];
      if data[0].key != key {
        LookupAppended(tail, e, key);
      } else {
        assert Keys(tail + [e]) == Keys(tail) + {e.key};
      }
    }
  }

  lemma {:induction false} KeysCount<K, V>(data: seq<Entry<K, V>>)
    requires DistinctKeys(data)
    ensures |Keys(data)| == |data|
    decreases |data|
  {
    if data != [] {
      var tail := data[1..];
      assert forall i :: 0 <= i < |tail| ==> tail[i] == data[i + 1];
      KeysCount(tail);
      SplitFirst(data);
      assert Keys(data) == {data[0].key} + Keys(tail);
    }
  }

  lemma {:induction false} FewerAfter<K, V>(data: seq<Entry<K, V>>, key: K)
    requires DistinctKeys(data) && Lookup(data, key).Some?
    ensures |KeysAfter(data, key)| <= |data| - 1
    ensures data[0].key == key ==> |KeysAfter(data, key)| == |data| - 1
    ensures forall k | k in KeysAfter(data, key) :: Lookup(data, k).Some?
    decreases |data|
  {
    var tail := data[1..];
    assert forall i :: 0 <= i < |tail| ==> tail[i] == data[i + 1];
    if data[0].key == key {
      KeysCount(tail);
      forall k | k in KeysAfter(data, key)
        ensures Lookup(data, k).Some?
      {
        var e :| e in tail && e.key == k;
        assert e in data;
      }
    } else {
      FewerAfter(tail, key);
    }
  }

  /** An expired entry stands before every fresh one. */
  lemma {:induction false} ExpiredIsBefore<K, V>(data: seq<Entry<K, V>>, stale: K, key: K, now: real, max: nat)
    requires Sound(data, max) && Lookup(data, stale).Some? && Lookup(data, key).Some?
    requires !Fresh(Lookup(data, stale).value.expires, now) && Fresh(Lookup(data, key).value.expires, now)
    ensures stale !in KeysAfter(data, key)
    decreases |data|
  {
    SoundTail(data, max);
    if data[0].key == stale {
      KeysAfterInside(data[1..], key);
    } else if data[0].key != key {
      ExpiredIsBefore(data[1..], stale, key, now, max);
    }
  }

  lemma {:induction false} KeysAfterInside<K, V>(data: seq<Entry<K, V>>, key: K)
    ensures KeysAfter(data, key) <= Keys(data)
    decreases |data|
  {
    if data != [] {
      KeysAfterInside(data[1..], key);
      SplitFirst(data);
    }
  }

  // ----- soundness over runs -----------------------------------------------------------------------

  /** No entry outlives a write made now. */
  ghost predicate Bounded<K, V>(data: seq<Entry<K, V>>, now: real, ttl: Option<real>) {
    forall e | e in data :: NotAfter(e.expires, ExpiresAt(now, ttl))
  }

  lemma SoundAppend<K, V>(data: seq<Entry<K, V>>, e: Entry<K, V>, max: nat)
    requires Sound(data, max) && |data| < max
    requires forall f | f in data :: f.key != e.key && NotAfter(f.expires, e.expires)
    ensures Sound(data + [e], max)
  {
    hide NotAfter;
    var r := data + [e];
    forall i, j | 0 <= i < j < |r|
      ensures r[i].key != r[j].key && NotAfter(r[i].expires, r[j].expires)
    {
      assert r[i] in data;
    }
  }

  lemma SetKeepsSound<K, V>(data: seq<Entry<K, V>>, key: K, value: V, now: real, ttl: Option<real>, max: nat)
    requires max >= 1 && Sound(data, max) && Bounded(data, now, ttl)
    ensures var r := AfterSet(data, key, value, ExpiresAt(now, ttl), max); Sound(r, max) && Bounded(r, now, ttl)
  {
    hide NotAfter, ExpiresAt;
    var room := MadeRoom(data, key, max);
    if data != [] { SoundTail(data, max); }
    assert Sound(room, max);
    RemoveSound(room, key, max);
    if Lookup(data, key).Some? {
      assert room == data;
    }
    SoundAppend(Remove(room, key), Entry(key, ExpiresAt(now, ttl), value), max);
    assert NotAfter(ExpiresAt(now, ttl), ExpiresAt(now, ttl)) by { NotAfterSelf(ExpiresAt(now, ttl)); }
  }

  lemma NotAfterSelf(e: Expiry)
    ensures NotAfter(e, e)
  {
  }

  lemma BoundedLater<K, V>(data: seq<Entry<K, V>>, now: real, later: real, ttl: Option<real>)
    requires Bounded(data, now, ttl) && now <= later
    ensures Bounded(data, later, ttl)
  {
  }

  lemma TimedFront<K, V>(steps: seq<Step<K, V>>, now: real)
    requires Timed(steps, now) && steps != []
    ensures Timed(steps[..|steps| - 1], steps[|steps| - 1].at) && steps[|steps| - 1].at <= now
  {
  }

  /** Over every run the cache holds at most `max` entries, one per key, the oldest write first,
      which is also the order they expire in. */
  lemma {:induction false} RunSound<K, V>(steps: seq<Step<K, V>>, ttl: Option<real>, max: nat, now: real)
    requires max >= 1 && Timed(steps, now)
    ensures Sound(Run(steps, ttl, max), max) && Bounded(Run(steps, ttl, max), now, ttl)
    decreases |steps|
  {
    if steps != [] {
      hide NotAfter, ExpiresAt, AfterSet, Sound, Bounded;
      var front, s := steps[..|steps| - 1], steps[|steps| - 1];
      TimedFront(steps, now);
      RunSound(front, ttl, max, s.at);
      var data := Run(front, ttl, max);
      match s.op {
        case Put(k, v) => SetKeepsSound(data, k, v, s.at, ttl, max);
        case Ask(k) => GetKeepsSound(data, k, s.at, ttl, max);
        case Forget => NothingIsSound<K, V>(s.at, ttl, max);
      }
      BoundedLater(Run(steps, ttl, max), s.at, now, ttl);
    } else {
      NothingIsSound<K, V>(now, ttl, max);
    }
  }

  lemma NothingIsSound<K, V>(now: real, ttl: Option<real>, max: nat)
    ensures Sound<K, V>([], max) && Bounded<K, V>([], now, ttl)
  {
  }

  lemma GetKeepsSound<K, V>(data: seq<Entry<K, V>>, key: K, now: real, ttl: Option<real>, max: nat)
    requires Sound(data, max) && Bounded(data, now, ttl)
    ensures Sound(AfterGet(data, key, now), max) && Bounded(AfterGet(data, key, now), now, ttl)
  {
    RemoveSound(data, key, max);
  }

  // ----- the history determines every look-up ---------------------------------------------------------

  /** The cache agrees with the history about one key. */
  ghost predicate Agrees<K, V>(data: seq<Entry<K, V>>, key: K, w: Option<Write<K, V>>, now: real, ttl: Option<real>, max: nat) {
    var hit := Lookup(data, key);
    && (hit.Some? ==>
          && w.Some? && hit.value.expires == ExpiresAt(w.value.at, ttl) && hit.value.value == w.value.value
          && (Fresh(hit.value.expires, now) ==> KeysAfter(data, key) == w.value.since))
    && (w.Some? && Fresh(ExpiresAt(w.value.at, ttl), now) && |w.value.since| < max ==> hit.Some?)
  }

  lemma AgreesLater<K, V>(data: seq<Entry<K, V>>, key: K, w: Option<Write<K, V>>, now: real, later: real,
                          ttl: Option<real>, max: nat)
    requires Agrees(data, key, w, now, ttl, max) && now <= later
    ensures Agrees(data, key, w, later, ttl, max)
  {
  }

  lemma SetOwnKey<K, V>(data: seq<Entry<K, V>>, key: K, value: V, now: real, ttl: Option<real>, max: nat)
    requires max >= 1
    ensures Agrees(AfterSet(data, key, value, ExpiresAt(now, ttl), max), key, Some(Write(now, value, {})), now, ttl, max)
  {
    var rest := Remove(MadeRoom(data, key, max), key);
    NotThere(rest, key);
    LookupAppended(rest, Entry(key, ExpiresAt(now, ttl), value), key);
  }

  /** Making room costs a key only when it is the oldest and the cache is full. */
  lemma MadeRoomFor<K, V>(data: seq<Entry<K, V>>, other: K, key: K, max: nat)
    requires max >= 1 && Sound(data, max) && other != key && Lookup(data, key).Some?
    ensures var room := MadeRoom(data, other, max);
      if Lookup(data, other).None? && |data| >= max && data[0].key == key then
        Lookup(room, key).None? && |KeysAfter(data, key) + {other}| == max
      else Lookup(room, key) == Lookup(data, key) && KeysAfter(room, key) == KeysAfter(data, key)
  {
    SoundTail(data, max);
    FewerAfter(data, key);
    if data[0].key == key {
      NotThere(data[1..], key);
      if Lookup(data, other).None? {
        assert other !in KeysAfter(data, key);
      }
    }
  }

  lemma NoRoomNeeded<K, V>(data: seq<Entry<K, V>>, other: K, key: K, max: nat)
    requires max >= 1 && Lookup(data, key).None?
    ensures Lookup(MadeRoom(data, other, max), key).None?
  {
    if data != [] {
      forall e | e in data[1..]
        ensures e.key != key
      {
        assert e in data;
      }
      NotThere(data[1..], key);
    }
  }

  lemma GrowsBy<K>(s: set<K>, k: K)
    ensures |s| <= |s + {k}| <= |s| + 1
  {
    if k in s { assert s + {k} == s; } else { assert |s + {k}| == |s| + 1; }
  }

  lemma SetOtherKey<K, V>(data: seq<Entry<K, V>>, other: K, value: V, key: K, w: Option<Write<K, V>>,
                          now: real, ttl: Option<real>, max: nat)
    requires max >= 1 && other != key && Sound(data, max) && Agrees(data, key, w, now, ttl, max)
    ensures Agrees(AfterSet(data, other, value, ExpiresAt(now, ttl), max), key,
                   if w.Some? then Some(w.value.(since := w.value.since + {other})) else None, now, ttl, max)
  {
    hide Lookup, KeysAfter, MadeRoom, Remove, Sound, Fresh, ExpiresAt;
    var room := MadeRoom(data, other, max);
    var e := Entry(other, ExpiresAt(now, ttl), value);
    LookupRemoved(room, other, key);
    LookupAppended(Remove(room, other), e, key);
    if Lookup(data, key).Some? {
      MadeRoomFor(data, other, key, max);
      var after := KeysAfter(data, key);
      assert after - {other} + {other} == after + {other};
    } else {
      NoRoomNeeded(data, other, key, max);
    }
    if w.Some? { GrowsBy(w.value.since, other); }
  }

  lemma GetKeepsAgreement<K, V>(data: seq<Entry<K, V>>, asked: K, key: K, w: Option<Write<K, V>>,
                                now: real, ttl: Option<real>, max: nat)
    requires Sound(data, max) && Agrees(data, key, w, now, ttl, max)
    ensures Agrees(AfterGet(data, asked, now), key, w, now, ttl, max)
  {
    var hit := Lookup(data, asked);
    if hit.Some? && !Fresh(hit.value.expires, now) {
      if asked == key {
        NotThere(Remove(data, key), key);
      } else {
        LookupRemoved(data, asked, key);
        var own := Lookup(data, key);
        if own.Some? && Fresh(own.value.expires, now) {
          ExpiredIsBefore(data, asked, key, now, max);
          assert KeysAfter(data, key) - {asked} == KeysAfter(data, key);
        }
      }
    }
  }

  lemma {:induction false} RunAgrees<K, V>(steps: seq<Step<K, V>>, key: K, now: real, ttl: Option<real>, max: nat)
    requires max >= 1 && Timed(steps, now)
    ensures Agrees(Run(steps, ttl, max), key, LastWrite(steps, key), now, ttl, max)
    decreases |steps|
  {
    if steps != [] {
      hide Sound, Agrees, AfterSet, AfterGet, Bounded;
      var front, s := steps[..|steps| - 1], steps[|steps| - 1];
      TimedFront(steps, now);
      RunAgrees(front, key, s.at, ttl, max);
      RunSound(front, ttl, max, s.at);
      var data, w := Run(front, ttl, max), LastWrite(front, key);
      match s.op {
        case Put(k, v) =>
          if k == key {
            SetOwnKey(data, key, v, s.at, ttl, max);
          } else {
            SetOtherKey(data, k, v, key, w, s.at, ttl, max);
          }
        case Ask(k) => GetKeepsAgreement(data, k, key, w, s.at, ttl, max);
        case Forget => NothingAgrees<K, V>(key, s.at, ttl, max);
      }
      AgreesLater(Run(steps, ttl, max), key, LastWrite(steps, key), s.at, now, ttl, max);
    } else {
      NothingAgrees<K, V>(key, now, ttl, max);
    }
  }

  lemma NothingAgrees<K, V>(key: K, now: real, ttl: Option<real>, max: nat)
    ensures Agrees<K, V>([], key, None, now, ttl, max)
  {
  }

  /** Over every run, a look-up finds a value if and only if it is the one last written for the
      key, still fresh, not cleared, with fewer than `max` distinct other keys written since. */
  lemma HitsExactly<K, V>(steps: seq<Step<K, V>>, key: K, now: real, ttl: Option<real>, max: nat)
    requires max >= 1 && Timed(steps, now)
    ensures GetResult(Run(steps, ttl, max), key, now) == Expected(steps, key, now, ttl, max)
  {
    RunAgrees(steps, key, now, ttl, max);
    RunSound(steps, ttl, max, now);
    var data := Run(steps, ttl, max);
    if Lookup(data, key).Some? { FewerAfter(data, key); }
  }
}

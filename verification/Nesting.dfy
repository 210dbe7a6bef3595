/**
 The nesting test on untrusted JSON: an explicit stack over a finite object graph,
 which may share and even contain itself.
 */
module Nesting {
  import opened Prelude
  import opened Jcs
  import opened JcsReader

  /** Containers by identity, each with what it holds in order; any other object is a leaf. */
  type Graph = map<nat, seq<nat>>

  /** Consecutive containers, each held by the one before. */
  ghost predicate IsWalk(g: Graph, w: seq<nat>) {
    && (forall i :: 0 <= i < |w| ==> w[i] in g)
    && (forall i :: 0 < i < |w| ==> w[i] in g[w[i - 1]])
  }

  /** `k` nested containers start at `n`. */
  ghost predicate Deep(g: Graph, n: nat, k: nat)
    decreases k
  {
    k == 0 || (n in g && (k == 1 || exists c :: c in g[n] && Deep(g, c, k - 1)))
  }

  lemma {:induction false} DeepHasWalk(g: Graph, n: nat, k: nat) returns (w: seq<nat>)
    requires 1 <= k && Deep(g, n, k)
    ensures IsWalk(g, w) && |w| == k && w[0] == n
    decreases k
  {
    if k == 1 {
      w := [n];
    } else {
      var c :| c in g[n] && Deep(g, c, k - 1);
      var tail := DeepHasWalk(g, c, k - 1);
      w := [n] + tail;
    }
  }

  lemma {:induction false} WalkIsDeep(g: Graph, w: seq<nat>)
    requires IsWalk(g, w) && w != []
    ensures Deep(g, w[0], |w|)
    decreases |w|
  {
    if |w| > 1 {
      var tail := w[1..];
      assert forall i :: 0 < i < |tail| ==> tail[i] == w[i + 1] && tail[i - 1] == w[i];
      WalkIsDeep(g, tail);
    }
  }

  lemma {:induction false} DeepDownwards(g: Graph, n: nat, k: nat, j: nat)
    requires j <= k && Deep(g, n, k)
    ensures Deep(g, n, j)
    decreases k
  {
    if j > 1 {
      var c :| c in g[n] && Deep(g, c, k - 1);
      DeepDownwards(g, c, k - 1, j - 1);
    }
  }

  // ----- the measure -----------------------------------------------------------------------

  /** No container holds more than this. */
  ghost function Width(g: Graph): (k: nat)
    ensures forall n :: n in g ==> |g[n]| <= k
    decreases |g.Keys|
  {
    if g.Keys == {} then 0
    else
      var n :| n in g;
      var rest := g - {n};
      assert rest.Keys == g.Keys - {n};
      assert forall m :: m in g && m != n ==> m in rest && rest[m] == g[m];
      Max(|g[n]|, Width(rest))
  }

  function Power(base: nat, k: nat): (p: nat)
    ensures 1 <= base ==> 1 <= p
  {
    if k == 0 then 1 else base * Power(base, k - 1)
  }

  /** The weighted sum over the stack: an entry outweighs everything it can be replaced by. */
  ghost function Weight(stack: seq<(nat, nat)>, width: nat, limit: nat): nat
    requires forall e :: e in stack ==> e.1 <= limit + 1
  {
    if stack == [] then 0
    else
      var e := stack[|stack| - 1];
      Power(width + 1, limit + 1 - e.1) + Weight(stack[..|stack| - 1], width, limit)
  }

  lemma WeightSplits(stack: seq<(nat, nat)>, width: nat, limit: nat)
    requires stack != [] && forall e :: e in stack ==> e.1 <= limit + 1
    ensures Weight(stack, width, limit)
         == Power(width + 1, limit + 1 - stack[|stack| - 1].1) + Weight(stack[..|stack| - 1], width, limit)
    ensures Power(width + 1, limit + 1 - stack[|stack| - 1].1) >= 1
  {
  }

  lemma {:induction false} WeightOfChildren(stack: seq<(nat, nat)>, more: seq<(nat, nat)>, d: nat, width: nat, limit: nat)
    requires d <= limit + 1
    requires forall e :: e in stack ==> e.1 <= limit + 1
    requires forall e :: e in more ==> e.1 == d
    ensures forall e :: e in stack + more ==> e.1 <= limit + 1
    ensures Weight(stack + more, width, limit)
         == Weight(stack, width, limit) + |more| * Power(width + 1, limit + 1 - d)
    decreases |more|
  {
    hide Weight, Power;
    var all := stack + more;
    var p := Power(width + 1, limit + 1 - d);
    if more == [] {
      assert all == stack;
    } else {
      var front := more[..|more| - 1];
      WeightOfChildren(stack, front, d, width, limit);
      assert all[..|all| - 1] == stack + front;
      assert all[|all| - 1] == more[|more| - 1] && more[|more| - 1] in more;
      WeightSplits(all, width, limit);
      OneMore(|front|, p);
    }
  }

  lemma OneMore(n: nat, p: nat)
    ensures (n + 1) * p == n * p + p
  {
  }

  lemma Outweighs(count: nat, width: nat, k: nat)
    requires count <= width
    ensures count * Power(width + 1, k) < Power(width + 1, k + 1)
  {
    var p := Power(width + 1, k);
    assert Power(width + 1, k + 1) == width * p + p;
    assert count * p <= width * p by { MulMono(count, width, p); }
  }

  lemma MulMono(a: nat, b: nat, p: nat)
    requires a <= b
    ensures a * p <= b * p
  {
    assert b * p == a * p + (b - a) * p;
  }

  // ----- the loop -----------------------------------------------------------------------------

  /** Some entry still has a deep enough chain below it. */
  ghost predicate AnyDeep(g: Graph, stack: seq<(nat, nat)>, limit: nat)
    requires forall e :: e in stack ==> e.1 <= limit + 1
  {
    exists e :: e in stack && Deep(g, e.0, limit + 2 - e.1)
  }

  /** The containers among a node's children, with their depth. */
  function Entries(g: Graph, children: seq<nat>, depth: nat): (es: seq<(nat, nat)>)
    ensures |es| <= |children|
    ensures forall e :: e in es <==> e.1 == depth && e.0 in children && e.0 in g
  {
    if children == [] then []
    else
      (if children[0] in g then [(children[0], depth)] else []) + Entries(g, children[1..], depth)
  }

  lemma PopKeeps(g: Graph, stack: seq<(nat, nat)>, limit: nat)
    requires stack != [] && forall e :: e in stack ==> 1 <= e.1 <= limit + 1
    ensures var (n, d), rest := stack[|stack| - 1], stack[..|stack| - 1];
      && (AnyDeep(g, stack, limit) <==> AnyDeep(g, rest, limit) || Deep(g, n, limit + 2 - d))
      && (n !in g ==> !Deep(g, n, limit + 2 - d))
      && (n in g && d == limit + 1 ==> Deep(g, n, limit + 2 - d))
      && (n in g && d <= limit ==>
            forall e :: e in Entries(g, g[n], d + 1) ==> e.1 == d + 1 && e.1 <= limit + 1)
      && (n in g && d <= limit ==>
            (Deep(g, n, limit + 2 - d) <==> AnyDeep(g, Entries(g, g[n], d + 1), limit)))
  {
    var (n, d) := stack[|stack| - 1];
    assert stack == stack[..|stack| - 1] + [(n, d)];
    if n in g && d <= limit {
      var es := Entries(g, g[n], d + 1);
      if Deep(g, n, limit + 2 - d) {
        var c :| c in g[n] && Deep(g, c, limit + 1 - d);
        assert (c, d + 1) in es;
      }
    }
  }

  lemma AnyDeepUnion(g: Graph, a: seq<(nat, nat)>, b: seq<(nat, nat)>, limit: nat)
    requires forall e :: e in a + b ==> e.1 <= limit + 1
    ensures forall e :: e in a ==> e in a + b
    ensures forall e :: e in b ==> e in a + b
    ensures AnyDeep(g, a + b, limit) <==> AnyDeep(g, a, limit) || AnyDeep(g, b, limit)
  {
  }

  /** `nesting_exceeds`: stops on every finite graph, cyclic ones included, and answers whether
      `limit + 1` nested containers start at the root. */
  method NestingExceeds(g: Graph, root: nat, limit: nat) returns (exceeds: bool)
    ensures exceeds <==> Deep(g, root, limit + 1)
  {
    hide Deep, AnyDeep, Weight, Entries;
    var stack := [(root, 1)];
    assert AnyDeep(g, stack, limit) <==> Deep(g, root, limit + 1) by { OneEntry(g, root, limit); }
    ghost var width := Width(g);
    while stack != []
      invariant forall e :: e in stack ==> 1 <= e.1 <= limit + 1
      invariant Deep(g, root, limit + 1) <==> AnyDeep(g, stack, limit)
      decreases Weight(stack, width, limit)
    {
      var (node, depth) := stack[|stack| - 1];
      var rest := stack[..|stack| - 1];
      PopKeeps(g, stack, limit);
      WeightSplits(stack, width, limit);
      stack := rest;
      if node !in g {
        continue;
      }
      if depth > limit {
        return true;
      }
      var children := Entries(g, g[node], depth + 1);
      WeightOfChildren(stack, children, depth + 1, width, limit);
      Outweighs(|children|, width, limit - depth);
      AnyDeepUnion(g, stack, children, limit);
      stack := stack + children;
    }
    assert !AnyDeep(g, [], limit) by { NoEntry(g, limit); }
    return false;
  }

  lemma OneEntry(g: Graph, root: nat, limit: nat)
    ensures AnyDeep(g, [(root, 1)], limit) <==> Deep(g, root, limit + 1)
  {
    assert (root, 1) in [(root, 1)];
  }

  lemma NoEntry(g: Graph, limit: nat)
    ensures !AnyDeep(g, [], limit)
  {
  }

  /** In terms of walks: too deep means that a walk of `limit + 1` containers starts at the root. */
  lemma ExceedsMeansWalk(g: Graph, root: nat, limit: nat)
    ensures Deep(g, root, limit + 1)
      <==> exists w :: IsWalk(g, w) && |w| == limit + 1 && w[0] == root
  {
    if Deep(g, root, limit + 1) {
      var w := DeepHasWalk(g, root, limit + 1);
    }
    if w :| IsWalk(g, w) && |w| == limit + 1 && w[0] == root {
      WalkIsDeep(g, w);
    }
  }

  // ----- cycles ------------------------------------------------------------------------------

  ghost predicate HoldsOneOf(g: Graph, n: nat, s: set<nat>) {
    n in g && exists c :: c in g[n] && c in s
  }

  /** A set of containers each of which holds one of the set: a reachable cycle. */
  ghost predicate Trap(g: Graph, s: set<nat>) {
    forall n {:trigger HoldsOneOf(g, n, s)} :: n in s ==> HoldsOneOf(g, n, s)
  }

  lemma {:induction false} TrapIsDeep(g: Graph, s: set<nat>, n: nat, k: nat)
    requires Trap(g, s) && n in s
    ensures Deep(g, n, k)
    decreases k
  {
    assert HoldsOneOf(g, n, s);
    if k > 1 {
      var c :| c in g[n] && c in s;
      TrapIsDeep(g, s, c, k - 1);
    }
  }

  lemma {:induction false} Pigeonhole(w: seq<nat>, s: set<nat>) returns (i: nat, j: nat)
    requires |w| > |s| && forall k :: 0 <= k < |w| ==> w[k] in s
    ensures i < j < |w| && w[i] == w[j]
    decreases |w|
  {
    var last := w[|w| - 1];
    if k :| 0 <= k < |w| - 1 && w[k] == last {
      i, j := k, |w| - 1;
    } else {
      var front := w[..|w| - 1];
      assert forall k :: 0 <= k < |front| ==> front[k] == w[k];
      i, j := Pigeonhole(front, s - {last});
    }
  }

  lemma DeepHasTrap(g: Graph, root: nat) returns (s: set<nat>)
    requires Deep(g, root, |g.Keys| + 1)
    ensures root in s && Trap(g, s)
  {
    hide Deep;
    var w := DeepHasWalk(g, root, |g.Keys| + 1);
    var i, j := Pigeonhole(w, g.Keys);
    s := set k | 0 <= k < j :: w[k];
    forall n | n in s
      ensures HoldsOneOf(g, n, s)
    {
      var k :| 0 <= k < j && w[k] == n;
      if k + 1 < j {
        assert w[k + 1] in g[w[k]] && w[k + 1] in s;
      } else {
        assert w[j] in g[w[k]] && w[j] == w[i] && w[i] in s;
      }
    }
    assert w[0] in s;
  }

  /** A structure that contains itself reads as too deep at every limit, and nothing else does:
      a graph without a reachable cycle nests no deeper than it has containers. */
  lemma CyclicExactly(g: Graph, root: nat)
    ensures Deep(g, root, |g.Keys| + 1) <==> exists s :: root in s && Trap(g, s)
    ensures Deep(g, root, |g.Keys| + 1) <==> forall k: nat :: Deep(g, root, k)
  {
    hide Deep, Trap;
    if Deep(g, root, |g.Keys| + 1) {
      var s := DeepHasTrap(g, root);
    }
    if s :| root in s && Trap(g, s) {
      forall k: nat
        ensures Deep(g, root, k)
      {
        TrapIsDeep(g, s, root, k);
      }
    }
  }

  // ----- trees ----------------------------------------------------------------------------------

  /** How deeply containers nest in a value: `[[1]]` counts two levels. */
  function Nest(v: Json): nat {
    match v
    case Arr(items) => 1 + NestItems(items)
    case Obj(ms) => 1 + NestMembers(ms)
    case _ => 0
  }

  function NestItems(items: seq<Json>): nat {
    if items == [] then 0 else Max(Nest(items[0]), NestItems(items[1..]))
  }

  function NestMember(m: Member): nat {
    Nest(m.value)
  }

  function NestMembers(ms: seq<Member>): nat {
    if ms == [] then 0 else Max(NestMember(ms[0]), NestMembers(ms[1..]))
  }

  /** The value stands in the graph at `n`, possibly sharing parts. */
  ghost predicate Holds(g: Graph, n: nat, v: Json)
    decreases v, 0
  {
    match v
    case Arr(items) => n in g && HoldsItems(g, g[n], items)
    case Obj(ms) => n in g && HoldsMembers(g, g[n], ms)
    case _ => n !in g
  }

  ghost predicate HoldsItems(g: Graph, ns: seq<nat>, items: seq<Json>)
    decreases items, 1
  {
    if items == [] then ns == []
    else ns != [] && Holds(g, ns[0], items[0]) && HoldsItems(g, ns[1..], items[1..])
  }

  ghost predicate HoldsMember(g: Graph, n: nat, m: Member)
    decreases m, 1
  {
    Holds(g, n, m.value)
  }

  ghost predicate HoldsMembers(g: Graph, ns: seq<nat>, ms: seq<Member>)
    decreases ms, 2
  {
    if ms == [] then ns == []
    else ns != [] && HoldsMember(g, ns[0], ms[0]) && HoldsMembers(g, ns[1..], ms[1..])
  }

  /** On a tree the stack loop answers what the recursive depth says. */
  lemma {:induction false} TreeDepth(g: Graph, n: nat, v: Json, k: nat)
    requires 1 <= k && Holds(g, n, v)
    ensures Deep(g, n, k) <==> Nest(v) >= k
    decreases v, 0
  {
    match v {
      case Arr(items) => if k > 1 { TreeDepthItems(g, g[n], items, k - 1); }
      case Obj(ms) => if k > 1 { TreeDepthMembers(g, g[n], ms, k - 1); }
      case _ =>
    }
  }

  lemma {:induction false} TreeDepthItems(g: Graph, ns: seq<nat>, items: seq<Json>, k: nat)
    requires 1 <= k && HoldsItems(g, ns, items)
    ensures (exists c :: c in ns && Deep(g, c, k)) <==> NestItems(items) >= k
    decreases items, 1
  {
    hide Deep;
    if items != [] {
      TreeDepth(g, ns[0], items[0], k);
      TreeDepthItems(g, ns[1..], items[1..], k);
      assert ns == [ns[0]] + ns[1..];
    }
  }

  lemma {:induction false} TreeDepthMember(g: Graph, n: nat, m: Member, k: nat)
    requires 1 <= k && HoldsMember(g, n, m)
    ensures Deep(g, n, k) <==> NestMember(m) >= k
    decreases m, 1
  {
    hide Deep;
    TreeDepth(g, n, m.value, k);
  }

  lemma {:induction false} TreeDepthMembers(g: Graph, ns: seq<nat>, ms: seq<Member>, k: nat)
    requires 1 <= k && HoldsMembers(g, ns, ms)
    ensures (exists c :: c in ns && Deep(g, c, k)) <==> NestMembers(ms) >= k
    decreases ms, 2
  {
    hide Deep;
    if ms != [] {
      TreeDepthMember(g, ns[0], ms[0], k);
      TreeDepthMembers(g, ns[1..], ms[1..], k);
      assert ns == [ns[0]] + ns[1..];
    }
  }

  // ----- the canonicaliser's own limit ---------------------------------------------------------------

  lemma {:induction false} HeightBelowNest(v: Json)
    ensures Height(v) <= Nest(v) <= Height(v) + 1
    decreases v, 0
  {
    match v {
      case Arr(items) => HeightItemsBelowNest(items);
      case Obj(ms) => HeightMembersBelowNest(ms);
      case _ =>
    }
  }

  lemma {:induction false} HeightItemsBelowNest(items: seq<Json>)
    ensures NestItems(items) <= HeightItems(items) <= NestItems(items) + 1
    decreases items, 1
  {
    if items != [] {
      HeightBelowNest(items[0]);
      HeightItemsBelowNest(items[1..]);
    }
  }

  lemma {:induction false} HeightMembersBelowNest(ms: seq<Member>)
    ensures NestMembers(ms) <= HeightMembers(ms) <= NestMembers(ms) + 1
    decreases ms, 1
  {
    if ms != [] {
      HeightMemberBelowNest(ms[0]);
      HeightMembersBelowNest(ms[1..]);
    }
  }

  lemma {:induction false} HeightMemberBelowNest(m: Member)
    ensures HeightMember(m) <= NestMember(m) <= HeightMember(m) + 1
    decreases m, 0
  {
    HeightBelowNest(m.value);
  }

  /** A document the nesting test admits never meets the canonicaliser's depth limit. */
  lemma AdmittedCanonicalises(g: Graph, n: nat, v: Json)
    requires WellFormed(v) && AllFinite(v) && Holds(g, n, v)
    requires !Deep(g, n, MAX_DEPTH + 1)
    ensures Serialize(v, 0) == Ok(Canon(v))
  {
    TreeDepth(g, n, v, MAX_DEPTH + 1);
    HeightBelowNest(v);
    SerializeSucceedsExactly(v, 0);
  }

  /** `k` arrays, the innermost empty. */
  function Tower(k: nat): (v: Json)
    ensures v.Arr?
  {
    if k <= 1 then Arr([]) else Arr([Tower(k - 1)])
  }

  lemma {:induction false} TowerFacts(k: nat)
    requires 1 <= k
    ensures Nest(Tower(k)) == k && Height(Tower(k)) == k - 1 && WellFormed(Tower(k)) && AllFinite(Tower(k))
  {
    if k > 1 {
      TowerFacts(k - 1);
      hide Tower;
      OneInside(Tower(k - 1));
      assert Tower(k) == Arr([Tower(k - 1)]) by { TowerNext(k); }
    }
  }

  lemma TowerNext(k: nat)
    requires 1 < k
    ensures Tower(k) == Arr([Tower(k - 1)])
  {
  }

  lemma OneInside(v: Json)
    ensures Nest(Arr([v])) == 1 + Nest(v) && Height(Arr([v])) == 1 + Height(v)
    ensures WellFormed(Arr([v])) <==> WellFormed(v)
    ensures AllFinite(Arr([v])) <==> AllFinite(v)
  {
    var items := [v];
    assert items[0] == v && items[1..] == [];
    assert NestItems(items) == Nest(v) && HeightItems(items) == 1 + Height(v);
    assert v in items && forall x | x in items :: x == v;
  }

  /** Every container at level `k`, counting the outermost as level 1, is empty. */
  predicate EmptyAt(v: Json, k: nat) {
    match v
    case Arr(items) => if k <= 1 then items == [] else EmptyAtItems(items, k - 1)
    case Obj(ms) => if k <= 1 then ms == [] else EmptyAtMembers(ms, k - 1)
    case _ => true
  }

  predicate EmptyAtItems(items: seq<Json>, k: nat) {
    items == [] || (EmptyAt(items[0], k) && EmptyAtItems(items[1..], k))
  }

  predicate EmptyAtMember(m: Member, k: nat) {
    EmptyAt(m.value, k)
  }

  predicate EmptyAtMembers(ms: seq<Member>, k: nat) {
    ms == [] || (EmptyAtMember(ms[0], k) && EmptyAtMembers(ms[1..], k))
  }

  /** The canonicaliser counts one level less than the nesting test exactly when every deepest
      container is empty: it descends into members, and an empty container has none. */
  lemma {:induction false} HeightOfEmpty(v: Json, k: nat)
    requires 1 <= k && Nest(v) <= k
    ensures EmptyAt(v, k) <==> Height(v) < k
    decreases v, 0
  {
    match v {
      case Arr(items) => if k > 1 { HeightOfEmptyItems(items, k - 1); } else if items != [] { HeightItemsBelowNest(items); }
      case Obj(ms) => if k > 1 { HeightOfEmptyMembers(ms, k - 1); } else if ms != [] { HeightMembersBelowNest(ms); }
      case _ =>
    }
  }

  lemma {:induction false} HeightOfEmptyItems(items: seq<Json>, k: nat)
    requires 1 <= k && NestItems(items) <= k
    ensures EmptyAtItems(items, k) <==> HeightItems(items) <= k
    decreases items, 1
  {
    if items != [] {
      HeightOfEmpty(items[0], k);
      HeightOfEmptyItems(items[1..], k);
    }
  }

  lemma {:induction false} HeightOfEmptyMember(m: Member, k: nat)
    requires 1 <= k && NestMember(m) <= k
    ensures EmptyAtMember(m, k) <==> HeightMember(m) < k
    decreases m, 1
  {
    HeightOfEmpty(m.value, k);
  }

  lemma {:induction false} HeightOfEmptyMembers(ms: seq<Member>, k: nat)
    requires 1 <= k && NestMembers(ms) <= k
    ensures EmptyAtMembers(ms, k) <==> HeightMembers(ms) <= k
    decreases ms, 2
  {
    if ms != [] {
      HeightOfEmptyMember(ms[0], k);
      HeightOfEmptyMembers(ms[1..], k);
    }
  }

  /** Where the two limits disagree, for every document: the nesting test refuses what the
      canonicaliser would take exactly when containers nest one level too deep and every one at
      that last level is empty. They never disagree the other way. */
  lemma LimitsDisagreeExactly(g: Graph, n: nat, v: Json)
    requires WellFormed(v) && AllFinite(v) && Holds(g, n, v)
    ensures Deep(g, n, MAX_DEPTH + 1) && Serialize(v, 0).Ok? <==>
      Nest(v) == MAX_DEPTH + 1 && EmptyAt(v, MAX_DEPTH + 1)
    ensures !Deep(g, n, MAX_DEPTH + 1) ==> Serialize(v, 0).Ok?
  {
    TreeDepth(g, n, v, MAX_DEPTH + 1);
    HeightBelowNest(v);
    SerializeSucceedsExactly(v, 0);
    if Nest(v) <= MAX_DEPTH + 1 {
      HeightOfEmpty(v, MAX_DEPTH + 1);
    }
    hide *;
  }

  /** The disagreement is real: 101 arrays around nothing are refused by the nesting test and still
      canonicalised. */
  lemma LimitsDiffer()
    ensures Nest(Tower(MAX_DEPTH + 1)) > MAX_DEPTH
    ensures Serialize(Tower(MAX_DEPTH + 1), 0).Ok?
  {
    TowerFacts(MAX_DEPTH + 1);
    SerializeSucceedsExactly(Tower(MAX_DEPTH + 1), 0);
  }
}

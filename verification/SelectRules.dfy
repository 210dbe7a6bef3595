/**
 What a claim path selects, stated on locations instead of node lists: the places in
 the payload that match the path step by step, and exactly when there is none to
 give because a step meets the wrong kind of value or too many places match.
 */
module SelectRules {
  import opened Prelude
  import opened Jcs
  import opened TypeMetadata

  /** The value at a location. */
  function ValueAt(payload: Json, at: seq<Down>): Option<Json> {
    if at == [] then Some(payload)
    else
      match (ValueAt(payload, at[..|at| - 1]), at[|at| - 1])
      case (Some(Obj(ms)), ToMember(name)) => MemberNamed(ms, name)
      case (Some(Arr(items)), ToItem(i)) => if i < |items| then Some(items[i]) else None
      case _ => None
  }

  /** A text names an object member, the wildcard any element of an array, an index that one. */
  predicate Admits(c: Component, step: Down) {
    match (c, step)
    case (Key(name), ToMember(n)) => name == n
    case (Wild, ToItem(_)) => true
    case (Index(n), ToItem(i)) => n == i
    case _ => false
  }

  predicate Follows(path: Path, at: seq<Down>) {
    |at| == |path| && forall i | 0 <= i < |path| :: Admits(path[i], at[i])
  }

  /** A text asks for an object, the wildcard and a non-negative index for an array; a negative index
      and a bool suit nothing. */
  predicate Suits(c: Component, v: Json) {
    match c
    case Key(_) => v.Obj?
    case Wild => v.Arr?
    case Index(n) => n >= 0 && v.Arr?
    case Flag(_) => false
  }

  /** More than 10000 places match. */
  ghost predicate Crowded(payload: Json, path: Path) {
    exists ats: set<seq<Down>> :: |ats| > 10_000 && AllMatch(payload, path, ats)
  }

  ghost predicate AllMatch(payload: Json, path: Path, ats: set<seq<Down>>) {
    forall at | at in ats :: Follows(path, at) && ValueAt(payload, at).Some?
  }

  /** Every place that matches the first k components suits the next, and not too many match that. */
  ghost predicate StepFits(payload: Json, path: Path, k: nat)
    requires k < |path|
  {
    && (forall at | Follows(path[..k], at) && ValueAt(payload, at).Some? :: Suits(path[k], ValueAt(payload, at).value))
    && !Crowded(payload, path[..k + 1])
  }

  // ----- node lists and places ---------------------------------------------------------------

  /** The list holds the places that match, each once, with their values. */
  ghost predicate Lists(payload: Json, path: Path, nodes: seq<Node>) {
    && (forall n :: n in nodes <==> Follows(path, n.at) && ValueAt(payload, n.at) == Some(n.value))
    && DistinctPlaces(nodes)
  }

  ghost predicate DistinctPlaces(nodes: seq<Node>) {
    forall i, j :: 0 <= i < j < |nodes| ==> nodes[i].at != nodes[j].at
  }

  /** One step down from a node by one component. */
  predicate IsBelow(m: Node, n: Node, c: Component) {
    && m.at != [] && m.at[..|m.at| - 1] == n.at && Admits(c, m.at[|m.at| - 1])
    && match (n.value, m.at[|m.at| - 1])
       case (Obj(ms), ToMember(name)) => MemberNamed(ms, name) == Some(m.value)
       case (Arr(items), ToItem(i)) => i < |items| && items[i] == m.value
       case _ => false
  }

  lemma BelowExactly(n: Node, c: Component)
    ensures Below(n, c).Some? <==> Suits(c, n.value)
    ensures Below(n, c).Some? ==>
      (forall m :: m in Below(n, c).value <==> IsBelow(m, n, c)) && DistinctPlaces(Below(n, c).value)
  {
    if Below(n, c).Some? {
      var r := Below(n, c).value;
      forall m | IsBelow(m, n, c)
        ensures m in r
      {
        assert m.at == n.at + [m.at[|m.at| - 1]];
        if c.Wild? { assert r[m.at[|m.at| - 1].i] == m; }
      }
      forall m | m in r
        ensures IsBelow(m, n, c)
      {
        if c.Wild? { var i :| 0 <= i < |r| && r[i] == m; }
      }
      if c.Wild? { ItemsApart(n.at, n.value.items); }
    }
  }

  lemma ItemsApart(at: seq<Down>, items: seq<Json>)
    ensures DistinctPlaces(ItemsFrom(at, items))
  {
    var r := ItemsFrom(at, items);
    forall i, j | 0 <= i < j < |r|
      ensures r[i].at != r[j].at
    {
      assert r[i].at[|at|] == ToItem(i) && r[j].at[|at|] == ToItem(j);
    }
  }

  lemma {:induction false} ExpandExactly(nodes: seq<Node>, c: Component)
    ensures Expand(nodes, c).Some? <==> forall n | n in nodes :: Suits(c, n.value)
    ensures Expand(nodes, c).Some? ==>
      forall m :: m in Expand(nodes, c).value <==> exists n | n in nodes :: IsBelow(m, n, c)
  {
    hide Below, Suits, IsBelow;
    if nodes != [] {
      var front, last := nodes[..|nodes| - 1], nodes[|nodes| - 1];
      assert nodes == front + [last];
      ExpandExactly(front, c);
      BelowExactly(last, c);
      if Expand(nodes, c).Some? {
        assert Expand(nodes, c).value == Expand(front, c).value + Below(last, c).value;
      }
    }
  }

  lemma {:induction false} ExpandApart(nodes: seq<Node>, c: Component)
    requires DistinctPlaces(nodes) && Expand(nodes, c).Some?
    ensures DistinctPlaces(Expand(nodes, c).value)
  {
    hide Below, Suits;
    if nodes != [] {
      var front, last := nodes[..|nodes| - 1], nodes[|nodes| - 1];
      ExpandApart(front, c);
      ExpandExactly(front, c);
      BelowExactly(last, c);
      var a, b := Expand(front, c).value, Below(last, c).value;
      forall i, j | 0 <= i < |a| && 0 <= j < |b|
        ensures a[i].at != b[j].at
      {
        assert a[i] in a && b[j] in b;
        var n :| n in front && IsBelow(a[i], n, c);
        assert n.at != last.at;
      }
      JoinApart(a, b);
    }
  }

  lemma JoinApart(a: seq<Node>, b: seq<Node>)
    requires DistinctPlaces(a) && DistinctPlaces(b)
    requires forall i, j | 0 <= i < |a| && 0 <= j < |b| :: a[i].at != b[j].at
    ensures DistinctPlaces(a + b)
  {
  }

  /** One more component lists the places that match one more component. */
  lemma ExpandLists(payload: Json, path: Path, nodes: seq<Node>, c: Component)
    requires Lists(payload, path, nodes)
    ensures Expand(nodes, c).Some? <==>
      forall at | Follows(path, at) && ValueAt(payload, at).Some? :: Suits(c, ValueAt(payload, at).value)
    ensures Expand(nodes, c).Some? ==> Lists(payload, path + [c], Expand(nodes, c).value)
  {
    hide Suits, Expand, DistinctPlaces;
    ExpandExactly(nodes, c);
    forall at | Follows(path, at) && ValueAt(payload, at).Some?
      ensures Node(at, ValueAt(payload, at).value) in nodes
    {
    }
    if Expand(nodes, c).Some? {
      ExpandApart(nodes, c);
      forall m: Node
        ensures (exists n | n in nodes :: IsBelow(m, n, c))
           <==> Follows(path + [c], m.at) && ValueAt(payload, m.at) == Some(m.value)
      {
        OneStep(payload, path, nodes, c, m);
      }
    }
  }

  lemma OneStep(payload: Json, path: Path, nodes: seq<Node>, c: Component, m: Node)
    requires Lists(payload, path, nodes)
    ensures (exists n | n in nodes :: IsBelow(m, n, c))
       <==> Follows(path + [c], m.at) && ValueAt(payload, m.at) == Some(m.value)
  {
    hide DistinctPlaces, Admits, Follows, ValueAt, IsBelow;
    if n :| n in nodes && IsBelow(m, n, c) {
      BelowMatches(payload, path, n, c, m);
    }
    if Follows(path + [c], m.at) && ValueAt(payload, m.at) == Some(m.value) {
      var n := MatchIsBelow(payload, path, c, m);
      assert n in nodes;
    }
  }

  lemma BelowMatches(payload: Json, path: Path, n: Node, c: Component, m: Node)
    requires Follows(path, n.at) && ValueAt(payload, n.at) == Some(n.value) && IsBelow(m, n, c)
    ensures Follows(path + [c], m.at) && ValueAt(payload, m.at) == Some(m.value)
  {
    hide Admits;
    assert m.at == n.at + [m.at[|m.at| - 1]];
  }

  lemma MatchIsBelow(payload: Json, path: Path, c: Component, m: Node) returns (n: Node)
    requires Follows(path + [c], m.at) && ValueAt(payload, m.at) == Some(m.value)
    ensures Follows(path, n.at) && ValueAt(payload, n.at) == Some(n.value) && IsBelow(m, n, c)
  {
    hide Admits;
    var front := m.at[..|m.at| - 1];
    n := Node(front, ValueAt(payload, front).value);
    assert forall i | 0 <= i < |path| :: (path + [c])[i] == path[i] && front[i] == m.at[i];
    assert (path + [c])[|path|] == c;
  }

  // ----- counting -------------------------------------------------------------------------------

  lemma {:induction false} PlacesCounted(nodes: seq<Node>)
    requires DistinctPlaces(nodes)
    ensures |set n | n in nodes :: n.at| == |nodes|
  {
    var ats := set n | n in nodes :: n.at;
    if nodes == [] {
      assert ats == {};
    } else {
      var front, last := nodes[..|nodes| - 1], nodes[|nodes| - 1];
      assert nodes == front + [last];
      PlacesCounted(front);
      var before := set n | n in front :: n.at;
      assert ats == before + {last.at};
      assert last.at !in before;
    }
  }

  lemma {:induction false} SubsetCount<T>(a: set<T>, b: set<T>)
    requires a <= b
    ensures |a| <= |b|
  {
    if a != {} {
      var x :| x in a;
      SubsetCount(a - {x}, b - {x});
    }
  }

  lemma CrowdedExactly(payload: Json, path: Path, nodes: seq<Node>)
    requires Lists(payload, path, nodes)
    ensures Crowded(payload, path) <==> |nodes| > 10_000
  {
    PlacesCounted(nodes);
    hide DistinctPlaces, Follows, ValueAt;
    var all := set n | n in nodes :: n.at;
    if ats: set<seq<Down>> :| |ats| > 10_000 && AllMatch(payload, path, ats) {
      forall at | at in ats
        ensures at in all
      {
        assert Node(at, ValueAt(payload, at).value) in nodes;
      }
      SubsetCount(ats, all);
    }
    if |nodes| > 10_000 {
      assert AllMatch(payload, path, all);
    }
  }

  // ----- selection --------------------------------------------------------------------------------

  lemma NextFits(payload: Json, path: Path, k: nat, nodes: seq<Node>)
    requires k < |path| && Lists(payload, path[..k], nodes)
    ensures StepFits(payload, path, k) <==> Expand(nodes, path[k]).Some? && |Expand(nodes, path[k]).value| <= 10_000
    ensures Expand(nodes, path[k]).Some? ==> Lists(payload, path[..k + 1], Expand(nodes, path[k]).value)
  {
    hide Lists, Expand, Follows, ValueAt, Suits, Crowded;
    assert path[..k] + [path[k]] == path[..k + 1];
    ExpandLists(payload, path[..k], nodes, path[k]);
    if Expand(nodes, path[k]).Some? {
      CrowdedExactly(payload, path[..k + 1], Expand(nodes, path[k]).value);
    }
  }

  lemma {:induction false} SelectLists(payload: Json, path: Path, k: nat, nodes: seq<Node>)
    requires k <= |path| && Lists(payload, path[..k], nodes)
    ensures SelectFrom(nodes, path[k..]).Some? <==> forall j | k <= j < |path| :: StepFits(payload, path, j)
    ensures SelectFrom(nodes, path[k..]).Some? ==> Lists(payload, path, SelectFrom(nodes, path[k..]).value)
    decreases |path| - k
  {
    hide Lists, Expand, StepFits;
    if k == |path| {
      assert path[..k] == path;
    } else {
      NextFits(payload, path, k, nodes);
      assert path[k..][0] == path[k] && path[k..][1..] == path[k + 1..];
      if StepFits(payload, path, k) {
        SelectLists(payload, path, k + 1, Expand(nodes, path[k]).value);
      }
    }
  }

  /** A selection succeeds exactly when every step fits; it then holds each place that matches the
      path once, with the value there, and nothing else. */
  lemma SelectsExactly(payload: Json, path: Path)
    ensures SelectFrom(Root(payload), path).Some? <==> forall k | 0 <= k < |path| :: StepFits(payload, path, k)
    ensures SelectFrom(Root(payload), path).Some? ==>
      var nodes := SelectFrom(Root(payload), path).value;
      && (forall n :: n in nodes <==> Follows(path, n.at) && ValueAt(payload, n.at) == Some(n.value))
      && forall i, j :: 0 <= i < j < |nodes| ==> nodes[i].at != nodes[j].at
  {
    assert Lists(payload, [], Root(payload)) by { RootLists(payload); }
    hide StepFits, Follows, ValueAt, SelectFrom;
    assert path[..0] == [] && path[0..] == path;
    SelectLists(payload, path, 0, Root(payload));
  }

  lemma RootLists(payload: Json)
    ensures Lists(payload, [], Root(payload))
  {
  }
}

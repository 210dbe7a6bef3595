/**
 Claim paths: what a path selects in a credential, and the claim metadata a type
 inherits along its `extends` chain.
 */
module TypeMetadata {
  import opened Prelude
  import opened Unicode
  import opened Jcs

  const MAX_SELECT_NODES := 10_000

  /** A path element: an object key, the array wildcard, an int, or a bool. */
  datatype Component = Key(name: Text) | Wild | Index(n: int) | Flag(b: bool)

  type Path = seq<Component>

  /** One step down from a value. */
  datatype Down = ToMember(name: Text) | ToItem(i: nat)

  /** A value inside a payload, with the way to it. */
  datatype Node = Node(at: seq<Down>, value: Json)

  // ----- selection -----------------------------------------------------------------------

  function MemberNamed(ms: seq<Member>, name: Text): (r: Option<Json>)
    ensures r.Some? <==> exists m | m in ms :: m.name == name
  {
    if ms == [] then None
    else if ms[0].name == name then Some(ms[0].value)
    else MemberNamed(ms[1..], name)
  }

  function ItemsFrom(at: seq<Down>, items: seq<Json>): (r: seq<Node>)
    ensures |r| == |items|
    ensures forall i :: 0 <= i < |items| ==> r[i] == Node(at + [ToItem(i)], items[i])
  {
    seq(|items|, i requires 0 <= i < |items| => Node(at + [ToItem(i)], items[i]))
  }

  /** What one component selects below one node; `None` is the structural error. */
  function Below(node: Node, c: Component): Option<seq<Node>> {
    match c
    case Key(name) =>
      if !node.value.Obj? then None
      else
        (match MemberNamed(node.value.members, name)
         case Some(v) => Some([Node(node.at + [ToMember(name)], v)])
         case None => Some([]))
    case Wild => if node.value.Arr? then Some(ItemsFrom(node.at, node.value.items)) else None
    case Index(n) =>
      if n < 0 || !node.value.Arr? then None
      else if n < |node.value.items| then Some([Node(node.at + [ToItem(n)], node.value.items[n])])
      else Some([])
    case Flag(_) => None
  }

  function Expand(nodes: seq<Node>, c: Component): Option<seq<Node>> {
    if nodes == [] then Some([])
    else
      match Expand(nodes[..|nodes| - 1], c)
      case None => None
      case Some(front) =>
        match Below(nodes[|nodes| - 1], c)
        case None => None
        case Some(more) => Some(front + more)
  }

  /** The nodes a path selects from given nodes. */
  function SelectFrom(nodes: seq<Node>, path: Path): Option<seq<Node>>
    decreases |path|
  {
    if path == [] then Some(nodes)
    else
      match Expand(nodes, path[0])
      case None => None
      case Some(selected) =>
        if |selected| > MAX_SELECT_NODES then None else SelectFrom(selected, path[1..])
  }

  function Root(payload: Json): seq<Node> {
    [Node([], payload)]
  }

  lemma {:induction false} FirstErrorStops(nodes: seq<Node>, k: nat, c: Component)
    requires k <= |nodes| && Expand(nodes[..k], c).None?
    ensures Expand(nodes, c).None?
    decreases |nodes|
  {
    if k < |nodes| {
      assert nodes[..|nodes| - 1][..k] == nodes[..k];
      FirstErrorStops(nodes[..|nodes| - 1], k, c);
    } else {
      assert nodes[..k] == nodes;
    }
  }

  /** `_select`, with the way to each node; `None` is TypeMetadataClaimsInvalid. */
  method Select(payload: Json, path: Path) returns (r: Option<seq<Node>>)
    ensures r == SelectFrom(Root(payload), path)
  {
    hide Below, Expand;
    var nodes := Root(payload);
    for k := 0 to |path|
      invariant SelectFrom(Root(payload), path) == SelectFrom(nodes, path[k..])
    {
      assert path[k..][0] == path[k] && path[k..][1..] == path[k + 1..];
      var selected: seq<Node> := [];
      assert Expand(nodes[..0], path[k]) == Some([]) by { ExpandNothing(nodes[..0], path[k]); }
      for i := 0 to |nodes|
        invariant Expand(nodes[..i], path[k]) == Some(selected)
      {
        var below := Below(nodes[i], path[k]);
        ExpandNext(nodes, i, path[k]);
        if below.None? {
          FirstErrorStops(nodes, i + 1, path[k]);
          return None;
        }
        selected := selected + below.value;
      }
      assert nodes[..|nodes|] == nodes;
      nodes := selected;
      if |nodes| > MAX_SELECT_NODES {
        return None;
      }
    }
    return Some(nodes);
  }

  lemma ExpandNothing(nodes: seq<Node>, c: Component)
    requires nodes == []
    ensures Expand(nodes, c) == Some([])
  {
  }

  lemma ExpandNext(nodes: seq<Node>, i: nat, c: Component)
    requires i < |nodes| && Expand(nodes[..i], c).Some?
    ensures Expand(nodes[..i + 1], c) ==
      if Below(nodes[i], c).None? then None else Some(Expand(nodes[..i], c).value + Below(nodes[i], c).value)
  {
    assert nodes[..i + 1][..i] == nodes[..i];
  }

  /** Expansion is node by node. */
  lemma {:induction false} ExpandMembers(nodes: seq<Node>, c: Component)
    requires Expand(nodes, c).Some?
    ensures forall n | n in nodes :: Below(n, c).Some?
    ensures forall m | m in Expand(nodes, c).value :: exists n | n in nodes :: Below(n, c).Some? && m in Below(n, c).value
    ensures forall n, m | n in nodes && m in Below(n, c).value :: m in Expand(nodes, c).value
    decreases |nodes|
  {
    hide Below;
    if nodes != [] {
      var front, last := nodes[..|nodes| - 1], nodes[|nodes| - 1];
      ExpandMembers(front, c);
      assert nodes == front + [last];
      assert Expand(nodes, c).value == Expand(front, c).value + Below(last, c).value;
      forall m | m in Expand(nodes, c).value
        ensures exists n | n in nodes :: Below(n, c).Some? && m in Below(n, c).value
      {
        if m in Expand(front, c).value {
          var n :| n in front && Below(n, c).Some? && m in Below(n, c).value;
          assert n in nodes;
        } else {
          assert last in nodes;
        }
      }
    }
  }

  /** `low` lies at or below `high`. */
  predicate AtOrBelow(low: Node, high: Node) {
    high.at <= low.at
  }

  lemma BelowIsBelow(node: Node, c: Component, low: Node)
    requires Below(node, c).Some? && low in Below(node, c).value
    ensures AtOrBelow(low, node)
  {
    if c.Wild? {
      var i :| 0 <= i < |node.value.items| && low == ItemsFrom(node.at, node.value.items)[i];
    }
  }

  lemma {:induction false} SelectGoesDown(nodes: seq<Node>, path: Path)
    requires SelectFrom(nodes, path).Some?
    ensures forall low | low in SelectFrom(nodes, path).value :: exists high | high in nodes :: AtOrBelow(low, high)
    decreases |path|
  {
    hide Below, Expand, AtOrBelow;
    if path == [] {
      forall low | low in nodes
        ensures exists high | high in nodes :: AtOrBelow(low, high)
      {
        assert AtOrBelow(low, low) by { BelowSelf(low); }
      }
    } else {
      var selected := Expand(nodes, path[0]).value;
      ExpandMembers(nodes, path[0]);
      SelectGoesDown(selected, path[1..]);
      forall low | low in SelectFrom(nodes, path).value
        ensures exists high | high in nodes :: AtOrBelow(low, high)
      {
        var mid :| mid in selected && AtOrBelow(low, mid);
        var high :| high in nodes && Below(high, path[0]).Some? && mid in Below(high, path[0]).value;
        BelowIsBelow(high, path[0], mid);
        BelowTransitive(low, mid, high);
      }
    }
  }

  lemma BelowSelf(n: Node)
    ensures AtOrBelow(n, n)
  {
  }

  lemma BelowTransitive(low: Node, mid: Node, high: Node)
    requires AtOrBelow(low, mid) && AtOrBelow(mid, high)
    ensures AtOrBelow(low, high)
  {
  }

  // ----- the extends chain ----------------------------------------------------------------------

  datatype Claim = Claim(path: Path, mandatory: bool)

  datatype Extends = NoExtends | BadExtends | ExtendsType(vct: string, integrity: Option<string>)

  datatype Document = Document(vct: string, claims: seq<Claim>, parent: Extends)

  datatype MetadataError = TooLong | ExtendsCycle | NotAString | Unresolved | ClaimsInvalid

  /** A type's metadata document: retrieved, its integrity and its own `vct` checked, its claim
      list well formed. */
  type Fetch = (string, Option<string>) -> Option<Document>

  ghost predicate FetchesOwn(fetch: Fetch) {
    forall vct, integrity :: fetch(vct, integrity).Some? ==> fetch(vct, integrity).value.vct == vct
  }

  predicate HasPath(claims: seq<Claim>, path: Path) {
    exists c | c in claims :: c.path == path
  }

  /** The claims `[p for p in parent if path not overridden]`. */
  function NotOverridden(parent: seq<Claim>, child: seq<Claim>): seq<Claim> {
    if parent == [] then []
    else (if HasPath(child, parent[0].path) then [] else [parent[0]]) + NotOverridden(parent[1..], child)
  }

  function ComposeClaims(child: seq<Claim>, parent: seq<Claim>): seq<Claim> {
    child + NotOverridden(parent, child)
  }

  /** `_resolve_chain`: the documents from the type upwards, and the claims in force. */
  function ResolveChain(fetch: Fetch, vct: string, integrity: Option<string>, maxDepth: nat, seen: seq<string>)
    : Result<(seq<Document>, seq<Claim>), MetadataError>
    decreases if |seen| < maxDepth then maxDepth - |seen| else 0
  {
    if |seen| >= maxDepth then Err(TooLong)
    else if vct in seen then Err(ExtendsCycle)
    else
      match fetch(vct, integrity)
      case None => Err(Unresolved)
      case Some(document) =>
        match document.parent
        case NoExtends => Ok(([document], document.claims))
        case BadExtends => Err(NotAString)
        case ExtendsType(up, upIntegrity) =>
          match ResolveChain(fetch, up, upIntegrity, maxDepth, seen + [vct])
          case Err(e) => Err(e)
          case Ok((documents, claims)) => Ok(([document] + documents, ComposeClaims(document.claims, claims)))
  }

  /** The claims about one path. */
  function About(claims: seq<Claim>, path: Path): seq<Claim> {
    if claims == [] then []
    else (if claims[0].path == path then [claims[0]] else []) + About(claims[1..], path)
  }

  /** The nearest document that says anything about a path. */
  function Nearest(documents: seq<Document>, path: Path): seq<Claim> {
    if documents == [] then []
    else if HasPath(documents[0].claims, path) then About(documents[0].claims, path)
    else Nearest(documents[1..], path)
  }

  lemma {:induction false} AboutConcat(a: seq<Claim>, b: seq<Claim>, path: Path)
    ensures About(a + b, path) == About(a, path) + About(b, path)
    decreases |a|
  {
    if a == [] {
      assert a + b == b;
    } else {
      assert (a + b)[1..] == a[1..] + b;
      AboutConcat(a[1..], b, path);
    }
  }

  lemma {:induction false} AboutKept(parent: seq<Claim>, child: seq<Claim>, path: Path)
    ensures About(NotOverridden(parent, child), path) == if HasPath(child, path) then [] else About(parent, path)
    decreases |parent|
  {
    hide HasPath;
    if parent != [] {
      AboutKept(parent[1..], child, path);
      var rest := NotOverridden(parent[1..], child);
      if !HasPath(child, parent[0].path) {
        assert ([parent[0]] + rest)[1..] == rest;
      } else {
        assert [] + rest == rest;
      }
    }
  }

  lemma {:induction false} AboutNothing(claims: seq<Claim>, path: Path)
    requires !HasPath(claims, path)
    ensures About(claims, path) == []
    decreases |claims|
  {
    if claims != [] {
      assert claims[0] in claims;
      assert forall c | c in claims[1..] :: c in claims;
      AboutNothing(claims[1..], path);
    }
  }

  lemma ComposedNearest(child: seq<Claim>, parent: seq<Claim>, path: Path)
    ensures About(ComposeClaims(child, parent), path) ==
      if HasPath(child, path) then About(child, path) else About(parent, path)
  {
    AboutConcat(child, NotOverridden(parent, child), path);
    AboutKept(parent, child, path);
    if !HasPath(child, path) {
      AboutNothing(child, path);
    }
  }

  /** Documents linked child to parent by `extends`, the last one extending nothing. */
  ghost predicate IsLineage(documents: seq<Document>) {
    && documents != []
    && documents[|documents| - 1].parent == NoExtends
    && (forall i :: 0 <= i < |documents| - 1 ==>
          documents[i].parent.ExtendsType? && documents[i].parent.vct == documents[i + 1].vct)
  }

  ghost predicate DistinctFrom(documents: seq<Document>, seen: seq<string>) {
    && (forall i :: 0 <= i < |documents| ==> documents[i].vct !in seen)
    && (forall i, j :: 0 <= i < j < |documents| ==> documents[i].vct != documents[j].vct)
  }

  /** A resolved chain starts at the type asked for, follows `extends` through distinct types to
      one that extends nothing, is at most `maxDepth` long, and for every claim path the nearest
      document that mentions it decides, wholesale. */
  lemma {:induction false} ChainInherits(fetch: Fetch, vct: string, integrity: Option<string>, maxDepth: nat, seen: seq<string>)
    requires FetchesOwn(fetch)
    requires ResolveChain(fetch, vct, integrity, maxDepth, seen).Ok?
    ensures var (documents, claims) := ResolveChain(fetch, vct, integrity, maxDepth, seen).value;
      && IsLineage(documents) && documents[0].vct == vct
      && DistinctFrom(documents, seen)
      && |seen| + |documents| <= maxDepth
      && forall path: Path :: About(claims, path) == Nearest(documents, path)
    decreases if |seen| < maxDepth then maxDepth - |seen| else 0
  {
    hide About, HasPath, ComposeClaims;
    var document := fetch(vct, integrity).value;
    if document.parent.ExtendsType? {
      var up := document.parent.vct;
      ChainInherits(fetch, up, document.parent.integrity, maxDepth, seen + [vct]);
      var (more, claims) := ResolveChain(fetch, up, document.parent.integrity, maxDepth, seen + [vct]).value;
      var documents := [document] + more;
      assert forall i :: 0 < i < |documents| ==> documents[i] == more[i - 1];
      LineageGrows(document, more, vct, seen);
      forall path: Path
        ensures About(ComposeClaims(document.claims, claims), path) == Nearest(documents, path)
      {
        ComposedNearest(document.claims, claims, path);
        assert documents[1..] == more;
      }
    } else {
      forall path: Path
        ensures About(document.claims, path) == Nearest([document], path)
      {
        if !HasPath(document.claims, path) { AboutNothing(document.claims, path); }
        assert [document][1..] == [];
      }
    }
  }

  lemma LineageGrows(document: Document, more: seq<Document>, vct: string, seen: seq<string>)
    requires IsLineage(more) && document.vct == vct && vct !in seen && DistinctFrom(more, seen + [vct])
    requires document.parent.ExtendsType? && document.parent.vct == more[0].vct
    ensures IsLineage([document] + more) && DistinctFrom([document] + more, seen)
  {
    var documents := [document] + more;
    assert forall i :: 0 < i < |documents| ==> documents[i] == more[i - 1];
    forall i | 0 <= i < |documents|
      ensures documents[i].vct !in seen
    {
      if i > 0 { assert more[i - 1].vct !in seen + [vct]; }
    }
    forall i, j | 0 <= i < j < |documents|
      ensures documents[i].vct != documents[j].vct
    {
      assert more[j - 1].vct !in seen + [vct];
      if i > 0 { assert more[i - 1].vct != more[j - 1].vct; }
    }
  }

  /** `_validate_claims`: every claim's path selects without a structural error, and a mandatory
      one selects something. */
  method ValidateClaims(payload: Json, claims: seq<Claim>) returns (ok: bool)
    ensures ok <==> forall c | c in claims ::
      c.path != [] && SelectFrom(Root(payload), c.path).Some?
      && (c.mandatory ==> SelectFrom(Root(payload), c.path).value != [])
  {
    hide SelectFrom;
    for i := 0 to |claims|
      invariant forall c | c in claims[..i] ::
        c.path != [] && SelectFrom(Root(payload), c.path).Some?
        && (c.mandatory ==> SelectFrom(Root(payload), c.path).value != [])
    {
      var c := claims[i];
      assert c in claims;
      assert claims[..i + 1] == claims[..i] + [c];
      if c.path == [] {
        return false;
      }
      var selection := Select(payload, c.path);
      if selection.None? || (c.mandatory && selection.value == []) {
        return false;
      }
    }
    assert claims[..|claims|] == claims;
    return true;
  }
}

/**
 The registered-scope check: a presentation request against the credentials and
 claim paths a relying party registered, and what passing it means for the values
 the request selects.
 */
module Registration {
  import opened Prelude
  import opened Jcs
  import opened TypeMetadata
  import Unicode

  // ----- paths ---------------------------------------------------------------------------

  /** Python's `==` on path elements, where `True == 1`. */
  predicate PyEqual(a: Component, b: Component) {
    match (a, b)
    case (Flag(x), Index(n)) => n == if x then 1 else 0
    case (Index(n), Flag(x)) => n == if x then 1 else 0
    case _ => a == b
  }

  /** The element test of `_path_covered`. */
  predicate ElementCovered(registered: Component, requested: Component) {
    || registered == Wild
    || (PyEqual(registered, requested) && registered.Flag? == requested.Flag?)
  }

  /** The covering relation: a non-empty registered path that is, element for element, a prefix. */
  predicate PathCovered(registered: Path, requested: Path) {
    && registered != []
    && |registered| <= |requested|
    && forall i :: 0 <= i < |registered| ==> registered[i] == Wild || registered[i] == requested[i]
  }

  /** `_path_covered`: the guard on bools makes Python's comparison exact. */
  method IsPathCovered(registered: Path, requested: Path) returns (covered: bool)
    ensures covered <==> PathCovered(registered, requested)
  {
    if registered == [] || |registered| > |requested| {
      return false;
    }
    for i := 0 to |registered|
      invariant forall j :: 0 <= j < i ==> registered[j] == Wild || registered[j] == requested[j]
    {
      if !ElementCovered(registered[i], requested[i]) {
        return false;
      }
    }
    return true;
  }

  lemma PathCoverTransitive(a: Path, b: Path, c: Path)
    requires PathCovered(a, b) && PathCovered(b, c)
    ensures PathCovered(a, c)
  {
    forall i | 0 <= i < |a|
      ensures a[i] == Wild || a[i] == c[i]
    {
      assert a[i] == Wild || a[i] == b[i];
      assert b[i] == Wild || b[i] == c[i];
    }
  }

  // ----- what covering means -------------------------------------------------------------------

  ghost predicate Inside(inner: seq<Node>, outer: seq<Node>) {
    forall n | n in inner :: n in outer
  }

  /** A covered element selects nothing its cover does not. */
  lemma ElementSelectsInside(inner: seq<Node>, outer: seq<Node>, registered: Component, requested: Component)
    requires Inside(inner, outer) && (registered == Wild || registered == requested)
    requires Expand(inner, requested).Some? && Expand(outer, registered).Some?
    ensures Inside(Expand(inner, requested).value, Expand(outer, registered).value)
  {
    ExpandMembers(inner, requested);
    ExpandMembers(outer, registered);
    hide Expand;
    forall m | m in Expand(inner, requested).value
      ensures m in Expand(outer, registered).value
    {
      var n :| n in inner && Below(n, requested).Some? && m in Below(n, requested).value;
      assert n in outer && Below(n, registered).Some?;
      WildSelectsAll(n, requested, m);
      if registered != requested {
        assert m in Below(n, Wild).value;
      }
    }
  }

  /** Where the wildcard applies, it selects whatever any other element does. */
  lemma WildSelectsAll(n: Node, c: Component, m: Node)
    requires Below(n, c).Some? && m in Below(n, c).value
    ensures Below(n, Wild).Some? ==> m in Below(n, Wild).value
  {
    if Below(n, Wild).Some? && c.Index? {
      assert m == ItemsFrom(n.at, n.value.items)[c.n];
    }
  }

  lemma {:induction false} CoverSelectsInside(inner: seq<Node>, outer: seq<Node>, registered: Path, requested: Path)
    requires Inside(inner, outer) && |registered| <= |requested|
    requires forall i :: 0 <= i < |registered| ==> registered[i] == Wild || registered[i] == requested[i]
    requires SelectFrom(outer, registered).Some? && SelectFrom(inner, requested).Some?
    ensures forall low | low in SelectFrom(inner, requested).value ::
      exists high | high in SelectFrom(outer, registered).value :: AtOrBelow(low, high)
    decreases |registered|
  {
    hide AtOrBelow, Expand;
    if registered == [] {
      SelectGoesDown(inner, requested);
      forall low | low in SelectFrom(inner, requested).value
        ensures exists high | high in outer :: AtOrBelow(low, high)
      {
        var high :| high in inner && AtOrBelow(low, high);
        assert high in outer;
      }
    } else {
      ElementSelectsInside(inner, outer, registered[0], requested[0]);
      assert forall i :: 0 <= i < |registered| - 1 ==>
        registered[1..][i] == registered[i + 1] && requested[1..][i] == requested[i + 1];
      CoverSelectsInside(Expand(inner, requested[0]).value, Expand(outer, registered[0]).value,
                         registered[1..], requested[1..]);
    }
  }

  /** The syntactic test implies the semantic one: on every payload where both selections succeed,
      every value the requested path selects is, or lies inside, one the registered path selects. */
  lemma CoverMeansContainment(payload: Json, registered: Path, requested: Path)
    requires PathCovered(registered, requested)
    requires SelectFrom(Root(payload), registered).Some? && SelectFrom(Root(payload), requested).Some?
    ensures forall low | low in SelectFrom(Root(payload), requested).value ::
      exists high | high in SelectFrom(Root(payload), registered).value :: AtOrBelow(low, high)
  {
    CoverSelectsInside(Root(payload), Root(payload), registered, requested);
  }

  // ----- meta ------------------------------------------------------------------------------------

  datatype Scalar = Text(s: string) | Number(n: int) | Truth(b: bool) | Nothing

  datatype Constraint = Equal(v: Scalar) | OneOf(vs: seq<Scalar>)

  type Meta = map<string, Constraint>

  /** Python's `==`, and `_same` with its guard. */
  predicate ScalarEqual(a: Scalar, b: Scalar) {
    match (a, b)
    case (Truth(x), Number(n)) => n == if x then 1 else 0
    case (Number(n), Truth(x)) => n == if x then 1 else 0
    case _ => a == b
  }

  predicate Same(a: Scalar, b: Scalar) {
    ScalarEqual(a, b) && a.Truth? == b.Truth?
  }

  predicate ConstraintCovered(have: Constraint, want: Constraint) {
    match (want, have)
    case (OneOf(ws), OneOf(hs)) => forall x | x in ws :: exists h | h in hs :: Same(x, h)
    case (OneOf(_), Equal(_)) => false
    case (Equal(x), OneOf(hs)) => exists h | h in hs :: Same(x, h)
    case (Equal(x), Equal(h)) => Same(x, h)
  }

  /** `_meta_covered`; a registered meta that is not an object is `None`. */
  predicate MetaCovered(registered: Option<Meta>, requested: Meta) {
    && registered.Some?
    && if requested == map[] then registered.value == map[]
       else forall key | key in requested ::
         key in registered.value && ConstraintCovered(registered.value[key], requested[key])
  }

  /** What a constraint admits of a credential's attribute, and a meta of a credential. */
  predicate Admits(c: Constraint, v: Scalar) {
    match c
    case Equal(x) => v == x
    case OneOf(xs) => v in xs
  }

  predicate Matches(m: Meta, attributes: map<string, Scalar>) {
    forall key | key in m :: key in attributes && Admits(m[key], attributes[key])
  }

  /** A constraint is covered exactly when everything it admits is admitted, and a list is never
      covered by a single value. */
  lemma ConstraintExactly(have: Constraint, want: Constraint)
    ensures ConstraintCovered(have, want) <==>
      (want.OneOf? ==> have.OneOf?) && forall v :: Admits(want, v) ==> Admits(have, v)
  {
    forall x, y: Scalar
      ensures Same(x, y) <==> x == y
    {
    }
    hide Same, ScalarEqual;
    if (want.OneOf? ==> have.OneOf?) && forall v :: Admits(want, v) ==> Admits(have, v) {
      match want {
        case Equal(x) => assert Admits(have, x);
        case OneOf(ws) => assert forall x | x in ws :: Admits(want, x) && Admits(have, x);
      }
    }
  }

  /** Which requests an entry's meta covers: one that asks for nothing when the entry asks for nothing,
      and otherwise one each of whose keys the entry has, with a constraint that admits all the
      request's does. */
  lemma MetaExactly(registered: Option<Meta>, requested: Meta)
    ensures MetaCovered(registered, requested) <==>
      && registered.Some? && (requested == map[] ==> registered.value == map[])
      && forall key | key in requested ::
           && key in registered.value && (requested[key].OneOf? ==> registered.value[key].OneOf?)
           && forall v :: Admits(requested[key], v) ==> Admits(registered.value[key], v)
  {
    if registered.Some? {
      forall key | key in requested && key in registered.value
        ensures ConstraintCovered(registered.value[key], requested[key]) <==>
          (requested[key].OneOf? ==> registered.value[key].OneOf?)
          && forall v :: Admits(requested[key], v) ==> Admits(registered.value[key], v)
      {
        ConstraintExactly(registered.value[key], requested[key]);
      }
      hide ConstraintCovered, Admits;
    }
  }

  lemma ConstraintNarrows(have: Constraint, want: Constraint, v: Scalar)
    requires ConstraintCovered(have, want) && Admits(want, v)
    ensures Admits(have, v)
  {
  }

  lemma ConstraintCoverTransitive(a: Constraint, b: Constraint, c: Constraint)
    requires ConstraintCovered(a, b) && ConstraintCovered(b, c)
    ensures ConstraintCovered(a, c)
  {
  }

  lemma MetaCoverTransitive(a: Meta, b: Meta, c: Meta)
    requires MetaCovered(Some(a), b) && MetaCovered(Some(b), c)
    ensures MetaCovered(Some(a), c)
  {
    hide ConstraintCovered;
    if c != map[] {
      forall key | key in c
        ensures key in a && ConstraintCovered(a[key], c[key])
      {
        assert key in b && b != map[];
        ConstraintCoverTransitive(a[key], b[key], c[key]);
      }
    }
  }

  /** Every credential the request matches is one the registration is for. */
  ghost predicate Narrower(requested: Meta, registered: Meta) {
    forall attributes :: Matches(requested, attributes) ==> Matches(registered, attributes)
  }

  predicate Satisfiable(m: Meta) {
    forall key | key in m :: m[key].OneOf? ==> m[key].vs != []
  }

  /** A credential with exactly the attributes a meta asks for. */
  function Witness(m: Meta): (attributes: map<string, Scalar>)
    requires Satisfiable(m)
    ensures attributes.Keys == m.Keys && Matches(m, attributes)
  {
    map key | key in m :: match m[key] case Equal(v) => v case OneOf(vs) => vs[0]
  }

  /** What a covered meta means. The test looks only at the keys the request carries, so a
      registration that also constrains another key is looser than it reads: the credentials the
      request matches are among the registered ones exactly when the registration constrains no
      key the request leaves out, or the request matches nothing at all. */
  lemma MetaCoverMeans(registered: Meta, requested: Meta)
    requires MetaCovered(Some(registered), requested)
    ensures Narrower(requested, registered) <==> registered.Keys <= requested.Keys || !Satisfiable(requested)
  {
    hide ConstraintCovered, Admits;
    if Narrower(requested, registered) && Satisfiable(requested) {
      assert Matches(registered, Witness(requested));
    }
    if registered.Keys <= requested.Keys {
      forall attributes | Matches(requested, attributes)
        ensures Matches(registered, attributes)
      {
        forall key | key in registered
          ensures key in attributes && Admits(registered[key], attributes[key])
        {
          assert key in requested;
          ConstraintNarrows(registered[key], requested[key], attributes[key]);
        }
      }
    }
    if !Satisfiable(requested) {
      UnsatisfiableMatchesNothing(requested);
    }
  }

  lemma UnsatisfiableMatchesNothing(m: Meta)
    requires !Satisfiable(m)
    ensures forall attributes :: !Matches(m, attributes)
  {
    var key :| key in m && m[key].OneOf? && m[key].vs == [];
    forall attributes: map<string, Scalar>
      ensures !Matches(m, attributes)
    {
      if key in attributes { assert !Admits(m[key], attributes[key]); }
    }
  }

  /** The looseness is real: registered for one issuer's diplomas, a request that names only the
      type is covered, and matches another issuer's. */
  lemma LooserRequestPasses()
    ensures var registered: Meta := map["vct_values" := OneOf([Text("Diploma")]), "issuer" := Equal(Text("A"))];
      var requested: Meta := map["vct_values" := OneOf([Text("Diploma")])];
      MetaCovered(Some(registered), requested) && !Narrower(requested, registered)
  {
    var registered: Meta := map["vct_values" := OneOf([Text("Diploma")]), "issuer" := Equal(Text("A"))];
    var requested: Meta := map["vct_values" := OneOf([Text("Diploma")])];
    assert Same(Text("Diploma"), Text("Diploma"));
    assert Text("Diploma") in registered["vct_values"].vs;
    MetaCoverMeans(registered, requested);
    assert "issuer" in registered.Keys && "issuer" !in requested.Keys;
  }

  // ----- reading paths off an entry ----------------------------------------------------------------

  datatype PathField = NoPath | ListPath(path: Path) | TextPath(name: seq<Unicode.Scalar>)

  /** One element of a claims array: `None` when it is not an object. */
  type Item = Option<PathField>

  /** A claims member: absent, not an array, or an array. */
  datatype Field = Absent | NotAnArray | Items(items: seq<Item>)

  function PathOf(item: Item): seq<Path> {
    match item
    case Some(ListPath(p)) => [p]
    case Some(TextPath(name)) => [[Key(name)]]
    case _ => []
  }

  function PathsIn(items: seq<Item>): seq<Path> {
    if items == [] then [] else PathsIn(items[..|items| - 1]) + PathOf(items[|items| - 1])
  }

  function PathsOf(field: Field): seq<Path> {
    if field.Items? then PathsIn(field.items) else []
  }

  /** `_paths_under`. */
  method PathsUnder(field: Field) returns (paths: seq<Path>)
    ensures paths == PathsOf(field)
  {
    if !field.Items? {
      return [];
    }
    paths := [];
    for i := 0 to |field.items|
      invariant paths == PathsIn(field.items[..i])
    {
      assert field.items[..i + 1][..i] == field.items[..i];
      match field.items[i] {
        case Some(ListPath(p)) => paths := paths + [p];
        case Some(TextPath(name)) => paths := paths + [[Key(name)]];
        case _ =>
      }
    }
    assert field.items[..|field.items|] == field.items;
  }

  /** The paths of a member, written out: the path lists of its objects, and a text as the path of that
      one key; everything else names nothing. */
  lemma {:induction false} PathsExactly(items: seq<Item>, p: Path)
    ensures p in PathsIn(items) <==>
      exists i | 0 <= i < |items| :: items[i] == Some(ListPath(p)) || exists name :: items[i] == Some(TextPath(name)) && p == [Key(name)]
    decreases |items|
  {
    if items != [] {
      var n := |items| - 1;
      PathsExactly(items[..n], p);
      assert items[n].Some? && items[n].value.TextPath? ==> items[n] == Some(TextPath(items[n].value.name));
    }
  }

  /** `_registered_paths`: `claim` wins whenever it is present. */
  function RegisteredPaths(claim: Field, claims: Field): seq<Path> {
    if claim != Absent then PathsOf(claim) else PathsOf(claims)
  }

  predicate PyEqualPath(p: Path, q: Path) {
    |p| == |q| && forall i :: 0 <= i < |p| ==> PyEqual(p[i], q[i])
  }

  /** `p in seen`. */
  predicate SeenPath(p: Path, seen: seq<Path>) {
    exists q | q in seen :: PyEqualPath(p, q)
  }

  function Union(seen: seq<Path>, more: seq<Path>): seq<Path> {
    if more == [] then seen
    else
      var front := Union(seen, more[..|more| - 1]);
      if SeenPath(more[|more| - 1], front) then front else front + [more[|more| - 1]]
  }

  /** `_requested_paths`: both spellings. */
  method RequestedPaths(claim: Field, claims: Field) returns (paths: seq<Path>)
    ensures paths == Union(PathsOf(claims), PathsOf(claim))
  {
    paths := PathsUnder(claims);
    var more := PathsUnder(claim);
    for i := 0 to |more|
      invariant paths == Union(PathsOf(claims), more[..i])
    {
      assert more[..i + 1][..i] == more[..i];
      if !SeenPath(more[i], paths) {
        paths := paths + [more[i]];
      }
    }
    assert more[..|more|] == more;
  }

  predicate NoFlags(p: Path) {
    forall c | c in p :: !c.Flag?
  }

  /** An element with a bool read as the int Python takes it for. */
  function AsIndex(c: Component): Component {
    match c
    case Flag(b) => Index(if b then 1 else 0)
    case _ => c
  }

  function Unflagged(p: Path): (r: Path)
    ensures |r| == |p| && NoFlags(r)
    ensures forall i :: 0 <= i < |p| ==> r[i] == AsIndex(p[i])
  {
    seq(|p|, i requires 0 <= i < |p| => AsIndex(p[i]))
  }

  /** Python's `==` on paths is equality once bools are read as ints. */
  lemma PyEqualExactly(p: Path, q: Path)
    ensures PyEqualPath(p, q) <==> Unflagged(p) == Unflagged(q)
    ensures NoFlags(p) ==> Unflagged(p) == p
  {
    if PyEqualPath(p, q) {
      assert forall i :: 0 <= i < |p| ==> Unflagged(p)[i] == Unflagged(q)[i];
    }
    if Unflagged(p) == Unflagged(q) {
      forall i | 0 <= i < |p|
        ensures PyEqual(p[i], q[i])
      {
        assert Unflagged(p)[i] == Unflagged(q)[i];
      }
    }
    if NoFlags(p) {
      assert forall i :: 0 <= i < |p| ==> p[i] in p && Unflagged(p)[i] == p[i];
    }
  }

  /** A path Python equates with `p` stands in the list. */
  predicate HasTwin(p: Path, paths: seq<Path>) {
    exists q | q in paths :: Unflagged(q) == Unflagged(p)
  }

  /** `p` stands in the list with no path before it that Python equates with it. */
  predicate FirstOfTwins(p: Path, paths: seq<Path>) {
    exists k | 0 <= k < |paths| :: paths[k] == p && !HasTwin(p, paths[..k])
  }

  /** What a merge of two lists keeps, exactly: everything in the first, and of the second each path
      that is the first of its class, under Python's `==`, in the two lists together. No class is
      lost. */
  lemma {:induction false} UnionExactly(seen: seq<Path>, more: seq<Path>, p: Path)
    ensures p in Union(seen, more) <==> p in seen || (!HasTwin(p, seen) && FirstOfTwins(p, more))
    ensures HasTwin(p, Union(seen, more)) <==> HasTwin(p, seen) || HasTwin(p, more)
    decreases |more|
  {
    hide Unflagged, HasTwin, FirstOfTwins;
    if more == [] {
      NoTwins(p, more);
    } else {
      var front, last := more[..|more| - 1], more[|more| - 1];
      var before := Union(seen, front);
      UnionExactly(seen, front, p);
      UnionExactly(seen, front, last);
      SeenIsTwin(last, before);
      TwinsAppend(p, front, last);
      FirstAppend(p, front, last);
      TwinsAppend(p, before, last);
      assert more == front + [last];
    }
  }

  lemma SeenIsTwin(p: Path, paths: seq<Path>)
    ensures SeenPath(p, paths) <==> HasTwin(p, paths)
  {
    hide PyEqualPath, Unflagged;
    forall q | q in paths
      ensures PyEqualPath(p, q) <==> Unflagged(q) == Unflagged(p)
    {
      PyEqualExactly(p, q);
    }
  }

  lemma NoTwins(p: Path, paths: seq<Path>)
    requires paths == []
    ensures !HasTwin(p, paths) && !FirstOfTwins(p, paths)
  {
  }

  lemma TwinsAppend(p: Path, paths: seq<Path>, last: Path)
    ensures HasTwin(p, paths + [last]) <==> HasTwin(p, paths) || Unflagged(last) == Unflagged(p)
    ensures Unflagged(last) == Unflagged(p) ==> (HasTwin(last, paths) <==> HasTwin(p, paths))
  {
    hide Unflagged;
    var all := paths + [last];
    assert forall q :: q in all <==> q in paths || q == last;
  }

  lemma FirstAppend(p: Path, paths: seq<Path>, last: Path)
    ensures FirstOfTwins(p, paths + [last]) <==> FirstOfTwins(p, paths) || (p == last && !HasTwin(p, paths))
  {
    hide HasTwin;
    var all := paths + [last];
    forall k | 0 <= k <= |paths|
      ensures all[..k] == paths[..k]
    {
    }
    assert paths[..|paths|] == paths;
    if FirstOfTwins(p, paths) {
      var k :| 0 <= k < |paths| && paths[k] == p && !HasTwin(p, paths[..k]);
      assert all[k] == p;
    }
    if p == last && !HasTwin(p, paths) {
      assert all[|paths|] == p;
    }
    if FirstOfTwins(p, all) {
      var k :| 0 <= k < |all| && all[k] == p && !HasTwin(p, all[..k]);
      if k < |paths| { assert paths[k] == p; }
    }
  }

  /** The paths a request is checked for, exactly: those of `claims`, and each path of `claim` that is
      the first of its class in both. A path of `claim` goes unchecked if and only if Python equates
      it with another path that stands before it. */
  lemma BothSpellingsChecked(claim: Field, claims: Field, p: Path)
    ensures p in Union(PathsOf(claims), PathsOf(claim)) <==>
      p in PathsOf(claims) || (!HasTwin(p, PathsOf(claims)) && FirstOfTwins(p, PathsOf(claim)))
    ensures p in PathsOf(claims) || p in PathsOf(claim) ==> HasTwin(p, Union(PathsOf(claims), PathsOf(claim)))
  {
    hide Union, PathsOf, Unflagged, FirstOfTwins;
    UnionExactly(PathsOf(claims), PathsOf(claim), p);
  }

  // ----- the check -------------------------------------------------------------------------------------

  datatype Requestable = Requestable(format: Option<string>, meta: Option<Meta>, paths: seq<Path>)

  /** The `meta` member of a registered entry. */
  datatype MetaField = NoMeta | MetaNotAnObject | ObjectMeta(m: Meta)

  /** One entry of a registration's `credentials` array, as it stands in the certificate. */
  datatype RawEntry = RawEntry(format: Option<string>, meta: MetaField, claim: Field, claims: Field)

  function Read(raw: RawEntry): Requestable {
    Requestable(raw.format,
                match raw.meta case NoMeta => Some(map[]) case MetaNotAnObject => None case ObjectMeta(m) => Some(m),
                RegisteredPaths(raw.claim, raw.claims))
  }

  /** `None` stands for an entry that is not an object. */
  function ReadAll(raws: seq<Option<RawEntry>>): (r: seq<Requestable>)
    ensures forall e :: e in r <==> exists raw | Some(raw) in raws :: e == Read(raw)
  {
    if raws == [] then []
    else
      assert raws == raws[..|raws| - 1] + [raws[|raws| - 1]];
      ReadAll(raws[..|raws| - 1]) + (if raws[|raws| - 1].None? then [] else [Read(raws[|raws| - 1].value)])
  }

  /** An entry without a meta covers just the requests without one, and an entry whose meta is no
      object covers none; otherwise its own meta decides, and its format must be the request's. */
  lemma EntryCovers(raw: RawEntry, format: string, requested: Meta)
    ensures Candidate(Read(raw), format, requested) <==>
      raw.format == Some(format) && !raw.meta.MetaNotAnObject?
      && (if raw.meta.NoMeta? then requested == map[] else MetaCovered(Some(raw.meta.m), requested))
  {
    hide ConstraintCovered;
    assert MetaCovered(Some(map[]), requested) <==> requested == map[] by {
      if key :| key in requested { assert requested != map[]; }
    }
  }

  /** `_requestable`. */
  method Requestables(raws: seq<Option<RawEntry>>) returns (entries: seq<Requestable>)
    ensures entries == ReadAll(raws)
  {
    hide PathsOf;
    entries := [];
    for i := 0 to |raws|
      invariant entries == ReadAll(raws[..i])
    {
      assert raws[..i + 1][..i] == raws[..i];
      if raws[i].None? {
        continue;
      }
      var raw := raws[i].value;
      var paths;
      if raw.claim != Absent {
        paths := PathsUnder(raw.claim);
      } else {
        paths := PathsUnder(raw.claims);
      }
      var meta := match raw.meta case NoMeta => Some(map[]) case MetaNotAnObject => None case ObjectMeta(m) => Some(m);
      entries := entries + [Requestable(raw.format, meta, paths)];
    }
    assert raws[..|raws|] == raws;
  }

  /** A credential query; `format` is `None` when missing, blank or not a string. */
  datatype Query = Query(format: Option<string>, meta: Meta, claim: Field, claims: Field)

  datatype RegistrationError =
    | WrongIntendedUse | NotAnObject | TooDeep | NoQueries
    | NoFormat | NotRegistered | AsksEverything | PathNotRegistered

  predicate Candidate(entry: Requestable, format: string, meta: Meta) {
    entry.format == Some(format) && MetaCovered(entry.meta, meta)
  }

  /** A path some candidate entry registered covers the requested one. */
  predicate Granted(entries: seq<Requestable>, format: string, meta: Meta, path: Path) {
    exists entry | entry in entries :: Candidate(entry, format, meta) && exists p | p in entry.paths :: PathCovered(p, path)
  }

  /** One query with the paths it asks for is within the registration. */
  predicate Within(entries: seq<Requestable>, format: Option<string>, meta: Meta, wanted: seq<Path>) {
    && format.Some?
    && wanted != []
    && (exists entry | entry in entries :: Candidate(entry, format.value, meta))
    && forall path | path in wanted :: Granted(entries, format.value, meta, path)
  }

  function Wanted(q: Query): seq<Path> {
    Union(PathsOf(q.claims), PathsOf(q.claim))
  }

  /** `None` stands for a query that is not an object. */
  predicate AllWithin(entries: seq<Requestable>, queries: seq<Option<Query>>) {
    forall q | q in queries :: q.Some? && Within(entries, q.value.format, q.value.meta, Wanted(q.value))
  }

  function Candidates(entries: seq<Requestable>, format: string, meta: Meta): (r: seq<Requestable>)
    ensures forall e :: e in r <==> e in entries && Candidate(e, format, meta)
  {
    if entries == [] then []
    else (if Candidate(entries[0], format, meta) then [entries[0]] else []) + Candidates(entries[1..], format, meta)
  }

  /** The paths of the candidates, pooled. */
  function Pooled(candidates: seq<Requestable>): (r: seq<Path>)
    ensures forall p :: p in r <==> exists c | c in candidates :: p in c.paths
  {
    if candidates == [] then []
    else
      assert candidates == [candidates[0]] + candidates[1..];
      candidates[0].paths + Pooled(candidates[1..])
  }

  /** The body of the query loop of `check_request_within_registration`. */
  method CheckQuery(entries: seq<Requestable>, query: Query) returns (r: Result<(), RegistrationError>)
    ensures r.Ok? <==> Within(entries, query.format, query.meta, Wanted(query))
  {
    hide PathCovered, MetaCovered, Union, Granted, Candidate, PathsOf, Candidates, Pooled;
    if query.format.None? {
      return Err(NoFormat);
    }
    var format := query.format.value;
    var candidates := Candidates(entries, format, query.meta);
    if candidates == [] {
      return Err(NotRegistered);
    }
    assert candidates[0] in candidates;
    var wanted := RequestedPaths(query.claim, query.claims);
    if wanted == [] {
      return Err(AsksEverything);
    }
    var granted := Pooled(candidates);
    for i := 0 to |wanted|
      invariant forall path | path in wanted[..i] :: Granted(entries, format, query.meta, path)
    {
      var path := wanted[i];
      assert path in wanted;
      assert wanted[..i + 1] == wanted[..i] + [path];
      PoolGrants(entries, format, query.meta, path);
      var covered := false;
      for j := 0 to |granted|
        invariant covered <==> exists p | p in granted[..j] :: PathCovered(p, path)
      {
        assert granted[..j + 1] == granted[..j] + [granted[j]];
        var one := IsPathCovered(granted[j], path);
        covered := covered || one;
      }
      assert granted[..|granted|] == granted;
      if !covered {
        return Err(PathNotRegistered);
      }
    }
    assert wanted[..|wanted|] == wanted;
    return Ok(());
  }

  /** Pooling never borrows: a pooled path comes from an entry for everything the query matches. */
  lemma PoolGrants(entries: seq<Requestable>, format: string, meta: Meta, path: Path)
    ensures (exists p | p in Pooled(Candidates(entries, format, meta)) :: PathCovered(p, path))
      <==> Granted(entries, format, meta, path)
  {
    hide PathCovered, Candidate;
    var candidates := Candidates(entries, format, meta);
    if p :| p in Pooled(candidates) && PathCovered(p, path) {
      var c :| c in candidates && p in c.paths;
      assert c in entries && Candidate(c, format, meta);
    }
    if Granted(entries, format, meta, path) {
      var c :| c in entries && Candidate(c, format, meta) && exists p | p in c.paths :: PathCovered(p, path);
      var p :| p in c.paths && PathCovered(p, path);
      assert c in candidates;
    }
  }

  /** `check_request_within_registration`. `queries` is `None` when the query object or its
      `credentials` member has the wrong shape; `tooDeep` is the nesting test on it. */
  method CheckRequest(entries: seq<Requestable>, registeredUse: Option<string>, intendedUse: Option<string>,
                      tooDeep: bool, queries: Option<seq<Option<Query>>>)
    returns (r: Result<(), RegistrationError>)
    ensures r.Ok? <==>
      && (intendedUse.Some? ==> registeredUse == intendedUse)
      && !tooDeep && queries.Some? && queries.value != [] && AllWithin(entries, queries.value)
  {
    hide Within;
    if intendedUse.Some? && registeredUse != intendedUse {
      return Err(WrongIntendedUse);
    }
    if tooDeep {
      return Err(RegistrationError.TooDeep);
    }
    if queries.None? || queries.value == [] {
      return Err(NoQueries);
    }
    var qs := queries.value;
    for i := 0 to |qs|
      invariant AllWithin(entries, qs[..i])
    {
      assert qs[i] in qs;
      assert qs[..i + 1] == qs[..i] + [qs[i]];
      if qs[i].None? {
        return Err(NotAnObject);
      }
      var one := CheckQuery(entries, qs[i].value);
      if one.Err? {
        return one;
      }
    }
    assert qs[..|qs|] == qs;
    return Ok(());
  }

  // ----- what passing means ------------------------------------------------------------------------------

  /** A query that passes: for each path it asks for there is a registered path, of an entry with
      the same format whose meta covers the query's, such that on every payload on which the
      selections succeed the request reaches nothing outside what that path selects. */
  lemma RequestStaysInside(entries: seq<Requestable>, format: string, meta: Meta, wanted: seq<Path>, path: Path)
    returns (entry: Requestable, registered: Path)
    requires Within(entries, Some(format), meta, wanted) && path in wanted
    ensures entry in entries && entry.format == Some(format) && MetaCovered(entry.meta, meta)
    ensures registered in entry.paths
    ensures forall payload | SelectFrom(Root(payload), registered).Some? && SelectFrom(Root(payload), path).Some? ::
      forall low | low in SelectFrom(Root(payload), path).value ::
        exists high | high in SelectFrom(Root(payload), registered).value :: AtOrBelow(low, high)
  {
    hide MetaCovered, SelectFrom, AtOrBelow, Root;
    assert Granted(entries, format, meta, path);
    entry :| entry in entries && Candidate(entry, format, meta) && exists p | p in entry.paths :: PathCovered(p, path);
    registered :| registered in entry.paths && PathCovered(registered, path);
    forall payload | SelectFrom(Root(payload), registered).Some? && SelectFrom(Root(payload), path).Some?
      ensures forall low | low in SelectFrom(Root(payload), path).value ::
        exists high | high in SelectFrom(Root(payload), registered).value :: AtOrBelow(low, high)
    {
      CoverMeansContainment(payload, registered, path);
    }
  }

  /** Registering more never turns acceptance into refusal. */
  lemma MoreEntriesStillWithin(entries: seq<Requestable>, more: seq<Requestable>, format: Option<string>, meta: Meta, wanted: seq<Path>)
    requires forall e | e in entries :: e in more
    requires Within(entries, format, meta, wanted)
    ensures Within(more, format, meta, wanted)
  {
    hide Candidate, PathCovered;
    forall path | path in wanted
      ensures Granted(more, format.value, meta, path)
    {
      assert Granted(entries, format.value, meta, path);
      var e :| e in entries && Candidate(e, format.value, meta) && exists p | p in e.paths :: PathCovered(p, path);
      assert e in more;
    }
    var e :| e in entries && Candidate(e, format.value, meta);
    assert e in more;
  }

  /** A query for several paths passes exactly when each of them alone would: pooling gives no more
      than splitting the query. */
  lemma EachPathAlone(entries: seq<Requestable>, format: Option<string>, meta: Meta, wanted: seq<Path>)
    requires wanted != []
    ensures Within(entries, format, meta, wanted) <==>
      forall path | path in wanted :: Within(entries, format, meta, [path])
  {
    hide Granted, Candidate;
    if Within(entries, format, meta, wanted) {
      forall path | path in wanted
        ensures Within(entries, format, meta, [path])
      {
      }
    }
    if forall path | path in wanted :: Within(entries, format, meta, [path]) {
      assert wanted[0] in wanted;
      assert Within(entries, format, meta, [wanted[0]]);
      forall path | path in wanted
        ensures Granted(entries, format.value, meta, path)
      {
        assert Within(entries, format, meta, [path]);
        assert path in [path];
      }
    }
  }

  /** Narrowing a request that passes, in its meta and in its paths, still passes. */
  lemma NarrowerRequestWithin(entries: seq<Requestable>, format: Option<string>, meta: Meta, wanted: seq<Path>,
                              narrower: Meta, less: seq<Path>)
    requires Within(entries, format, meta, wanted)
    requires MetaCovered(Some(meta), narrower) && less != []
    requires forall path | path in less :: exists p | p in wanted :: PathCovered(p, path)
    ensures Within(entries, format, narrower, less)
  {
    hide MetaCovered, PathCovered;
    forall e | e in entries && Candidate(e, format.value, meta)
      ensures Candidate(e, format.value, narrower)
    {
      MetaIsSome(e.meta, meta);
      MetaCoverTransitive(e.meta.value, meta, narrower);
    }
    forall path | path in less
      ensures Granted(entries, format.value, narrower, path)
    {
      var p :| p in wanted && PathCovered(p, path);
      assert Granted(entries, format.value, meta, p);
      var e :| e in entries && Candidate(e, format.value, meta) && exists q | q in e.paths :: PathCovered(q, p);
      var q :| q in e.paths && PathCovered(q, p);
      PathCoverTransitive(q, p, path);
    }
  }

  lemma MetaIsSome(registered: Option<Meta>, requested: Meta)
    requires MetaCovered(registered, requested)
    ensures registered.Some?
  {
  }
  // ----- the two spellings ---------------------------------------------------------------------------------

  lemma {:induction false} ReadAllSame(raws: seq<Option<RawEntry>>, others: seq<Option<RawEntry>>)
    requires |raws| == |others|
    requires forall i | 0 <= i < |raws| :: raws[i] == others[i] || (raws[i].Some? && others[i].Some? && Read(raws[i].value) == Read(others[i].value))
    ensures ReadAll(raws) == ReadAll(others)
    decreases |raws|
  {
    hide Read;
    if raws != [] {
      ReadAllSame(raws[..|raws| - 1], others[..|raws| - 1]);
    }
  }

  /** In a registration the second spelling never widens a grant: whatever stands under `claims` in an
      entry that has a `claim` member, even an empty or unusable one, the registration grants the
      same. */
  lemma SecondSpellingNeverWidens(raws: seq<Option<RawEntry>>, i: nat, other: Field)
    requires i < |raws| && raws[i].Some? && raws[i].value.claim != Absent
    ensures ReadAll(raws[i := Some(raws[i].value.(claims := other))]) == ReadAll(raws)
  {
    var others := raws[i := Some(raws[i].value.(claims := other))];
    assert Read(raws[i].value) == Read(others[i].value);
    hide Read;
    ReadAllSame(others, raws);
  }

  /** And only a `claim` member has that effect. */
  lemma FallbackExactly(claim: Field)
    ensures (forall x, y :: RegisteredPaths(claim, x) == RegisteredPaths(claim, y)) <==> claim != Absent
  {
    var one := Items([Some(ListPath([Wild]))]);
    OnePath([Wild]);
    if claim == Absent {
      assert RegisteredPaths(claim, one) != RegisteredPaths(claim, NotAnArray);
    }
  }

  lemma OnePath(p: Path)
    ensures PathsOf(Items([Some(ListPath(p))])) == [p]
  {
    var items := [Some(ListPath(p))];
    assert items[..|items| - 1] == [];
    assert PathsIn(items) == PathsIn([]) + PathOf(items[0]);
  }

  lemma {:induction false} NothingFromNothing(path: Path)
    ensures SelectFrom([], path) == Some([])
  {
    if path != [] {
      NothingFromNothing(path[1..]);
    }
  }

  /** A path that holds a bool selects nothing: where it is no structural error, it is empty. */
  lemma {:induction false} FlagSelectsNothing(nodes: seq<Node>, path: Path)
    requires !NoFlags(path) && SelectFrom(nodes, path).Some?
    ensures SelectFrom(nodes, path).value == []
    decreases |path|
  {
    if path[0].Flag? {
      assert nodes == [];
      NothingFromNothing(path);
    } else {
      assert path == [path[0]] + path[1..];
      FlagSelectsNothing(Expand(nodes, path[0]).value, path[1..]);
    }
  }

  /** Whatever spelling a path of a passing query stands under, some registered path covers it once
      bools are read as ints. */
  lemma SpellingCovered(entries: seq<Requestable>, format: string, meta: Meta, claim: Field, claims: Field, p: Path)
    returns (entry: Requestable, registered: Path)
    requires Within(entries, Some(format), meta, Union(PathsOf(claims), PathsOf(claim)))
    requires p in PathsOf(claims) || p in PathsOf(claim)
    ensures entry in entries && Candidate(entry, format, meta) && registered in entry.paths
    ensures PathCovered(Unflagged(registered), Unflagged(p))
    ensures NoFlags(registered) && NoFlags(p) ==> PathCovered(registered, p)
  {
    hide Union, PathsOf, MetaCovered, PathCovered, Unflagged, NoFlags;
    var wanted := Union(PathsOf(claims), PathsOf(claim));
    BothSpellingsChecked(claim, claims, p);
    var q :| q in wanted && Unflagged(q) == Unflagged(p);
    assert Granted(entries, format, meta, q);
    entry :| entry in entries && Candidate(entry, format, meta) && exists r | r in entry.paths :: PathCovered(r, q);
    registered :| registered in entry.paths && PathCovered(registered, q);
    UnflaggedCovers(registered, q);
    PyEqualExactly(registered, registered);
    PyEqualExactly(p, p);
  }

  lemma UnflaggedCovers(r: Path, q: Path)
    requires PathCovered(r, q)
    ensures PathCovered(Unflagged(r), Unflagged(q))
  {
    forall i | 0 <= i < |r|
      ensures Unflagged(r)[i] == Wild || Unflagged(r)[i] == Unflagged(q)[i]
    {
      assert r[i] == Wild || r[i] == q[i];
    }
  }

  /** A request that passes reaches, under either spelling, nothing outside what the registration
      names: for each path of either there is a registered one, of an entry for everything the query
      matches, such that on every payload on which the selections succeed, every value the path
      selects is or lies inside one the registered path selects, its bools read as ints. */
  lemma EverySpellingContained(entries: seq<Requestable>, queries: seq<Option<Query>>, q: Query, p: Path)
    returns (entry: Requestable, registered: Path)
    requires AllWithin(entries, queries) && Some(q) in queries
    requires p in PathsOf(q.claims) || p in PathsOf(q.claim)
    ensures q.format.Some? && entry in entries && Candidate(entry, q.format.value, q.meta) && registered in entry.paths
    ensures forall payload | SelectFrom(Root(payload), Unflagged(registered)).Some? && SelectFrom(Root(payload), p).Some? ::
      forall low | low in SelectFrom(Root(payload), p).value ::
        exists high | high in SelectFrom(Root(payload), Unflagged(registered)).value :: AtOrBelow(low, high)
  {
    hide SelectFrom, AtOrBelow, Root, PathsOf, Union, MetaCovered, PathCovered, Candidate, Granted, Unflagged, NoFlags;
    entry, registered := SpellingCovered(entries, q.format.value, q.meta, q.claim, q.claims, p);
    forall payload | SelectFrom(Root(payload), Unflagged(registered)).Some? && SelectFrom(Root(payload), p).Some?
      ensures forall low | low in SelectFrom(Root(payload), p).value ::
        exists high | high in SelectFrom(Root(payload), Unflagged(registered)).value :: AtOrBelow(low, high)
    {
      if NoFlags(p) {
        PyEqualExactly(p, p);
        CoverMeansContainment(payload, Unflagged(registered), p);
      } else {
        FlagSelectsNothing(Root(payload), p);
      }
    }
  }

  /** The documented rule: whatever passes, every path under either spelling that can select anything
      is registered. */
  ghost predicate SpellingsSafe(entries: seq<Requestable>, format: string, meta: Meta) {
    forall claim, claims, p ::
      Within(entries, Some(format), meta, Union(PathsOf(claims), PathsOf(claim)))
      && (p in PathsOf(claims) || p in PathsOf(claim)) && NoFlags(p)
      ==> Granted(entries, format, meta, p)
  }

  /** No bool in a registered path grants more than its int: what the int spelling would select is
      registered too. */
  predicate FlagsGranted(entries: seq<Requestable>, format: string, meta: Meta) {
    forall entry, r | entry in entries && r in entry.paths ::
      Candidate(entry, format, meta) && !NoFlags(r) ==> Granted(entries, format, meta, Unflagged(r))
  }

  /** The rule holds of every request exactly when the registration meets a condition a registrar can
      check: each registered path that holds a bool is also registered with the int in its place. A
      registration without bools always does. */
  lemma SpellingsSafeExactly(entries: seq<Requestable>, format: string, meta: Meta)
    ensures SpellingsSafe(entries, format, meta) <==> FlagsGranted(entries, format, meta)
    ensures (forall entry, r | entry in entries && r in entry.paths :: NoFlags(r)) ==> FlagsGranted(entries, format, meta)
  {
    if FlagsGranted(entries, format, meta) {
      FlagsGrantedIsSafe(entries, format, meta);
    }
    if SpellingsSafe(entries, format, meta) {
      SafeGrantsFlags(entries, format, meta);
    }
  }

  /** On such a registration the containment is by a registered path as it stands. */
  lemma SafeRequestContained(entries: seq<Requestable>, queries: seq<Option<Query>>, q: Query, p: Path)
    returns (entry: Requestable, registered: Path)
    requires AllWithin(entries, queries) && Some(q) in queries
    requires p in PathsOf(q.claims) || p in PathsOf(q.claim)
    requires q.format.Some? ==> FlagsGranted(entries, q.format.value, q.meta)
    ensures q.format.Some? && entry in entries && Candidate(entry, q.format.value, q.meta) && registered in entry.paths
    ensures forall payload | SelectFrom(Root(payload), registered).Some? && SelectFrom(Root(payload), p).Some? ::
      forall low | low in SelectFrom(Root(payload), p).value ::
        exists high | high in SelectFrom(Root(payload), registered).value :: AtOrBelow(low, high)
  {
    hide SelectFrom, AtOrBelow, Root, PathsOf, Union, MetaCovered, PathCovered, Candidate, Unflagged, NoFlags, FlagsGranted;
    var format := q.format.value;
    if NoFlags(p) {
      FlagsGrantedIsSafe(entries, format, q.meta);
      assert Granted(entries, format, q.meta, p);
      entry :| entry in entries && Candidate(entry, format, q.meta) && exists r | r in entry.paths :: PathCovered(r, p);
      registered :| registered in entry.paths && PathCovered(registered, p);
    } else {
      entry, registered := SpellingCovered(entries, format, q.meta, q.claim, q.claims, p);
    }
    forall payload | SelectFrom(Root(payload), registered).Some? && SelectFrom(Root(payload), p).Some?
      ensures forall low | low in SelectFrom(Root(payload), p).value ::
        exists high | high in SelectFrom(Root(payload), registered).value :: AtOrBelow(low, high)
    {
      if NoFlags(p) {
        CoverMeansContainment(payload, registered, p);
      } else {
        FlagSelectsNothing(Root(payload), p);
      }
    }
  }

  lemma FlagsGrantedIsSafe(entries: seq<Requestable>, format: string, meta: Meta)
    requires FlagsGranted(entries, format, meta)
    ensures SpellingsSafe(entries, format, meta)
  {
    hide Within, Union, PathsOf, Candidate, PathCovered, Unflagged, NoFlags;
    forall claim, claims, p |
      Within(entries, Some(format), meta, Union(PathsOf(claims), PathsOf(claim)))
      && (p in PathsOf(claims) || p in PathsOf(claim)) && NoFlags(p)
      ensures Granted(entries, format, meta, p)
    {
      var entry, r := SpellingCovered(entries, format, meta, claim, claims, p);
      if !NoFlags(r) {
        PyEqualExactly(p, p);
        assert Granted(entries, format, meta, Unflagged(r));
        var other :| other in entries && Candidate(other, format, meta) && exists s | s in other.paths :: PathCovered(s, Unflagged(r));
        var s :| s in other.paths && PathCovered(s, Unflagged(r));
        PathCoverTransitive(s, Unflagged(r), p);
      }
    }
  }

  lemma SafeGrantsFlags(entries: seq<Requestable>, format: string, meta: Meta)
    requires SpellingsSafe(entries, format, meta)
    ensures FlagsGranted(entries, format, meta)
  {
    hide Within, Union, PathsOf, Candidate, PathCovered, Unflagged, NoFlags, Granted;
    forall entry, r | entry in entries && r in entry.paths && Candidate(entry, format, meta) && !NoFlags(r)
      ensures Granted(entries, format, meta, Unflagged(r))
    {
      DecoyPasses(entries, format, meta, entry, r);
    }
  }

  /** A registered path as a decoy under `claims` lets its int spelling under `claim` pass with it. */
  lemma DecoyPasses(entries: seq<Requestable>, format: string, meta: Meta, entry: Requestable, r: Path)
    requires entry in entries && r in entry.paths && Candidate(entry, format, meta) && !NoFlags(r)
    ensures var claims, claim := Items([Some(ListPath(r))]), Items([Some(ListPath(Unflagged(r)))]);
      && Within(entries, Some(format), meta, Union(PathsOf(claims), PathsOf(claim)))
      && Unflagged(r) in PathsOf(claim) && NoFlags(Unflagged(r))
  {
    hide Candidate, PathsOf;
    OnePath(r);
    OnePath(Unflagged(r));
    assert [Unflagged(r)][..0] == [];
    PyEqualExactly(Unflagged(r), r);
    PyEqualExactly(Unflagged(r), Unflagged(r));
    assert SeenPath(Unflagged(r), [r]);
    assert Union([r], [Unflagged(r)]) == [r];
    assert PathCovered(r, r);
  }

  /** It fails as it stands: registered for `[True]`, which selects nothing, a request with the decoy
      `[True]` under `claims` passes with `[1]` under `claim`, which nothing registered covers. */
  lemma DecoyIsReal()
    ensures var entries := [Requestable(Some("dc+sd-jwt"), Some(map[]), [[Flag(true)]])];
      var claims, claim := Items([Some(ListPath([Flag(true)]))]), Items([Some(ListPath([Index(1)]))]);
      && Within(entries, Some("dc+sd-jwt"), map[], Union(PathsOf(claims), PathsOf(claim)))
      && [Index(1)] in PathsOf(claim) && !Granted(entries, "dc+sd-jwt", map[], [Index(1)])
  {
    var entry := Requestable(Some("dc+sd-jwt"), Some(map[]), [[Flag(true)]]);
    assert [Flag(true)][0] in [Flag(true)];
    assert Unflagged([Flag(true)]) == [Index(1)];
    DecoyPasses([entry], "dc+sd-jwt", map[], entry, [Flag(true)]);
    hide Within, PathsOf, Union;
    forall e, p | e in [entry] && p in e.paths
      ensures !PathCovered(p, [Index(1)])
    {
      assert p == [Flag(true)] && p[0] != Wild;
    }
  }
}

/**
 Canonical JSON decides JSON equality: two values have the same text exactly when
 they are the same value, whatever the order of their members and whichever Python
 type holds their numbers.
 */
module JcsProofs {
  import opened Prelude
  import opened Order
  import opened Unicode
  import opened JcsText
  import opened Jcs
  import opened JcsReader

  // ----- sorted members --------------------------------------------------------------------

  predicate Ascending(ms: seq<Member>) {
    forall i, j :: 0 <= i < j < |ms| ==> Before(ms[i].name, ms[j].name)
  }

  lemma AscendingHead(ms: seq<Member>, n: Member)
    requires Ascending(ms) && ms != [] && n in ms[1..]
    ensures Before(ms[0].name, n.name)
  {
    var i :| 0 <= i < |ms[1..]| && ms[1..][i] == n;
    assert ms[i + 1] == n;
  }

  lemma AscendingPrepend(m: Member, ms: seq<Member>)
    requires Ascending(ms) && forall n :: n in ms ==> Before(m.name, n.name)
    ensures Ascending([m] + ms)
  {
    hide Before;
    var r := [m] + ms;
    forall i, j | 0 <= i < j < |r|
      ensures Before(r[i].name, r[j].name)
    {
      if i == 0 { assert r[j] in ms; }
    }
  }

  lemma BelowHead(m: Member, ms: seq<Member>)
    requires Ascending(ms) && ms != [] && Before(m.name, ms[0].name)
    ensures forall n :: n in ms ==> Before(m.name, n.name)
  {
    forall n | n in ms
      ensures Before(m.name, n.name)
    {
      if n != ms[0] {
        assert ms == [ms[0]] + ms[1..];
        AscendingHead(ms, n);
        LessTransitive(CodeUnits(m.name), CodeUnits(ms[0].name), CodeUnits(n.name));
      }
    }
  }

  lemma {:induction false} InsertAscending(m: Member, ms: seq<Member>)
    requires Ascending(ms) && forall n :: n in ms ==> n.name != m.name
    ensures Ascending(Insert(m, ms))
    ensures forall n :: n in Insert(m, ms) <==> n == m || n in ms
  {
    hide Before;
    if ms != [] {
      if Before(m.name, ms[0].name) {
        BelowHead(m, ms);
        AscendingPrepend(m, ms);
      } else {
        assert ms == [ms[0]] + ms[1..];
        BeforeTotal(m.name, ms[0].name);
        InsertAscending(m, ms[1..]);
        var rest := Insert(m, ms[1..]);
        forall n | n in rest
          ensures Before(ms[0].name, n.name)
        {
          if n != m { AscendingHead(ms, n); }
        }
        AscendingPrepend(ms[0], rest);
      }
    }
  }

  /** The members stand in strictly increasing UTF-16 order: no ties. */
  lemma {:induction false} SortedAscending(ms: seq<Member>)
    requires DistinctNames(ms)
    ensures Ascending(Sorted(ms))
  {
    if ms != [] {
      var tail := ms[1..];
      forall n | n in tail
        ensures n.name != ms[0].name
      {
        var i :| 0 <= i < |tail| && tail[i] == n;
        assert ms[i + 1] == n;
      }
      SortedAscending(tail);
      SortedMembers(tail);
      InsertAscending(ms[0], Sorted(tail));
    }
  }

  lemma AscendingDistinct(ms: seq<Member>)
    requires Ascending(ms)
    ensures DistinctNames(ms)
  {
    forall i, j | 0 <= i < j < |ms|
      ensures ms[i].name != ms[j].name
    {
      LessIrreflexive(CodeUnits(ms[i].name));
    }
  }

  // ----- matching up sorted members --------------------------------------------------------------

  predicate Matches(m: Member, n: Member) {
    m.name == n.name && SameJson(m.value, n.value)
  }

  predicate Covered(ms: seq<Member>, ns: seq<Member>) {
    forall m | m in ms :: exists n | n in ns :: Matches(m, n)
  }

  function NameUnits(ms: seq<Member>): (ks: seq<seq<nat>>)
    ensures |ks| == |ms| && forall i :: 0 <= i < |ms| ==> ks[i] == CodeUnits(ms[i].name)
  {
    seq(|ms|, i requires 0 <= i < |ms| => CodeUnits(ms[i].name))
  }

  /** Sorted members that match each other match position by position. */
  lemma PairUp(r: seq<Member>, s: seq<Member>)
    requires Ascending(r) && Ascending(s) && |r| == |s| && Covered(r, s)
    ensures forall i | 0 <= i < |r| :: Matches(r[i], s[i])
  {
    hide SameJson, Less, CodeUnits;
    var ks, ls := NameUnits(r), NameUnits(s);
    assert Increasing(ks) by { forall i, j | 0 <= i < j < |r| ensures Less(ks[i], ks[j]) { assert Before(r[i].name, r[j].name); } }
    assert Increasing(ls) by { forall i, j | 0 <= i < j < |s| ensures Less(ls[i], ls[j]) { assert Before(s[i].name, s[j].name); } }
    forall i | 0 <= i < |ks|
      ensures ks[i] in ls
    {
      assert r[i] in r;
      var n :| n in s && Matches(r[i], n);
      var j :| 0 <= j < |s| && s[j] == n;
      assert ls[j] == ks[i];
    }
    IncreasingEqual(ks, ls);
    AscendingDistinct(s);
    forall i | 0 <= i < |r|
      ensures Matches(r[i], s[i])
    {
      assert r[i] in r;
      var n :| n in s && Matches(r[i], n);
      assert CodeUnits(s[i].name) == ks[i];
      CodeUnitsInjective(r[i].name, s[i].name);
    }
  }

  lemma PairUpSorted(ms: seq<Member>, ns: seq<Member>)
    requires DistinctNames(ms) && DistinctNames(ns) && |ms| == |ns| && Covered(ms, ns)
    ensures |Sorted(ms)| == |Sorted(ns)|
    ensures forall i | 0 <= i < |Sorted(ms)| :: Matches(Sorted(ms)[i], Sorted(ns)[i])
  {
    hide SameJson, Before, Sorted;
    SortedMembers(ms);
    SortedMembers(ns);
    SortedAscending(ms);
    SortedAscending(ns);
    assert Covered(Sorted(ms), Sorted(ns));
    PairUp(Sorted(ms), Sorted(ns));
  }

  // ----- the same value has the same text ----------------------------------------------------------

  lemma {:induction false} SameText(v: Json, w: Json)
    requires Good(v) && Good(w) && SameJson(v, w)
    ensures Canon(v) == Canon(w) && Normal(v) == Normal(w)
    decreases Height(v), 1, 0
  {
    hide Finite, NumText, SameRational, Sorted, Quoted, Points;
    match (v, w) {
      case (Num(x), Num(y)) => NumTextDecides(x, y);
      case (Arr(xs), Arr(ys)) => SameItemsText(xs, ys);
      case (Obj(ms), Obj(ns)) =>
        assert Covered(ms, ns);
        PairUpSorted(ms, ns);
        ObjectIsGood(ms);
        ObjectIsGood(ns);
        SameMembersText(Sorted(ms), Sorted(ns));
      case _ =>
    }
  }

  lemma {:induction false} SameItemsText(xs: seq<Json>, ys: seq<Json>)
    requires GoodItems(xs) && GoodItems(ys)
    requires |xs| == |ys| && forall i | 0 <= i < |xs| :: SameJson(xs[i], ys[i])
    ensures CanonItems(xs) == CanonItems(ys) && NormalItems(xs) == NormalItems(ys)
    decreases HeightItems(xs), 0, |xs|
  {
    hide Good, SameJson, Normal, Canon;
    if xs != [] {
      SameText(xs[0], ys[0]);
      SameItemsText(xs[1..], ys[1..]);
    }
  }

  lemma {:induction false} SameMembersText(ms: seq<Member>, ns: seq<Member>)
    requires GoodMembers(ms) && GoodMembers(ns)
    requires |ms| == |ns| && forall i | 0 <= i < |ms| :: Matches(ms[i], ns[i])
    ensures CanonMembers(ms) == CanonMembers(ns) && NormalMembers(ms) == NormalMembers(ns)
    decreases HeightMembers(ms), 0, |ms|
  {
    hide Good, SameJson, Normal, Canon, Quoted;
    if ms != [] {
      assert Matches(ms[0], ns[0]);
      assert Height(ms[0].value) == HeightMember(ms[0]);
      SameText(ms[0].value, ns[0].value);
      SameMembersText(ms[1..], ns[1..]);
    }
  }

  // ----- equal normal forms come from the same value ---------------------------------------------

  lemma {:induction false} SameFromNormal(v: Json, w: Json)
    requires Good(v) && Good(w) && Normal(v) == Normal(w)
    ensures SameJson(v, w)
    decreases Height(v), 2, 0
  {
    hide Finite, NumText, SameRational, Sorted, NormalMembers;
    match (v, w) {
      case (Num(x), Num(y)) => NumTextDecides(x, y);
      case (Arr(xs), Arr(ys)) => SameItemsFromNormal(xs, ys);
      case (Obj(ms), Obj(ns)) => SameObjectFromNormal(ms, ns);
      case _ =>
    }
  }

  lemma {:induction false} SameItemsFromNormal(xs: seq<Json>, ys: seq<Json>)
    requires GoodItems(xs) && GoodItems(ys) && NormalItems(xs) == NormalItems(ys)
    ensures |xs| == |ys| && forall i | 0 <= i < |xs| :: SameJson(xs[i], ys[i])
    decreases HeightItems(xs), 0, |xs|
  {
    hide Good, SameJson, Normal;
    assert |xs| == |ys|;
    if xs != [] {
      assert NormalItems(xs)[0] == Normal(xs[0]) && NormalItems(ys)[0] == Normal(ys[0]);
      assert NormalItems(xs)[1..] == NormalItems(xs[1..]);
      assert NormalItems(ys)[1..] == NormalItems(ys[1..]);
      SameFromNormal(xs[0], ys[0]);
      SameItemsFromNormal(xs[1..], ys[1..]);
    }
  }

  lemma {:induction false} SameMembersFromNormal(ms: seq<Member>, ns: seq<Member>)
    requires GoodMembers(ms) && GoodMembers(ns) && NormalMembers(ms) == NormalMembers(ns)
    ensures |ms| == |ns| && forall i | 0 <= i < |ms| :: Matches(ms[i], ns[i])
    decreases HeightMembers(ms), 0, |ms|
  {
    hide Good, SameJson, Normal;
    assert |ms| == |ns|;
    if ms != [] {
      assert NormalMembers(ms)[0] == NormalMember(ms[0]) && NormalMembers(ns)[0] == NormalMember(ns[0]);
      assert NormalMembers(ms)[1..] == NormalMembers(ms[1..]);
      assert NormalMembers(ns)[1..] == NormalMembers(ns[1..]);
      assert Height(ms[0].value) == HeightMember(ms[0]);
      SameFromNormal(ms[0].value, ns[0].value);
      SameMembersFromNormal(ms[1..], ns[1..]);
    }
  }

  lemma {:induction false} SameObjectFromNormal(ms: seq<Member>, ns: seq<Member>)
    requires Good(Obj(ms)) && Good(Obj(ns)) && Normal(Obj(ms)) == Normal(Obj(ns))
    ensures SameJson(Obj(ms), Obj(ns))
    decreases Height(Obj(ms)), 1, 0
  {
    ObjectIsGood(ms);
    ObjectIsGood(ns);
    ObjectFacts(ms);
    ObjectFacts(ns);
    var r, s := Sorted(ms), Sorted(ns);
    SortedMembers(ms);
    SortedMembers(ns);
    SameMembersFromNormal(r, s);
    hide Sorted, Normal, NormalMembers, Good;
    forall m | m in ms
      ensures exists n | n in ns :: m.name == n.name && SameJson(m.value, n.value)
    {
      assert m in r;
      var i :| 0 <= i < |r| && r[i] == m;
      assert Matches(r[i], s[i]) && s[i] in s;
    }
  }

  // ----- the theorems --------------------------------------------------------------------------------

  /** Two values have the same canonical text if and only if they are the same JSON value. */
  lemma CanonDecidesValue(v: Json, w: Json)
    requires Good(v) && Good(w)
    ensures Canon(v) == Canon(w) <==> SameJson(v, w)
  {
    hide *;
    if Canon(v) == Canon(w) {
      assert Ends([]) by { NothingEnds(); }
      ReadsBack(v, []);
      ReadsBack(w, []);
      SameFromNormal(v, w);
    }
    if SameJson(v, w) {
      SameText(v, w);
    }
  }

  lemma NothingEnds()
    ensures Ends([])
  {
  }

  /** Values that differ leave different signing input: the two canonicalisations succeed with
      the same bytes only for the same JSON value. */
  lemma SignedBytesDetermineValue(v: Json, w: Json)
    requires WellFormed(v) && WellFormed(w)
    requires Serialize(v, 0).Ok? && Serialize(w, 0).Ok?
    ensures Utf8(Serialize(v, 0).value) == Utf8(Serialize(w, 0).value) <==> SameJson(v, w)
  {
    SerializeSucceedsExactly(v, 0);
    SerializeSucceedsExactly(w, 0);
    CanonDecidesValue(v, w);
    FromUtf8Inverts(Canon(v));
    FromUtf8Inverts(Canon(w));
    hide *;
  }

  /** An object's text does not depend on the order its members were inserted in. */
  lemma MemberOrderIrrelevant(ms: seq<Member>, ns: seq<Member>)
    requires Good(Obj(ms)) && Good(Obj(ns)) && multiset(ms) == multiset(ns)
    ensures Canon(Obj(ms)) == Canon(Obj(ns))
  {
    assert |multiset(ms)| == |multiset(ns)|;
    forall m | m in ms
      ensures exists n | n in ns :: m.name == n.name && SameJson(m.value, n.value)
    {
      assert m in multiset(ms);
      SameJsonReflexive(m.value);
      assert m in ns && m.name == m.name && SameJson(m.value, m.value);
    }
    CanonDecidesValue(Obj(ms), Obj(ns));
    hide Canon;
  }

  lemma SameJsonReflexive(v: Json)
    requires Good(v)
    ensures SameJson(v, v)
  {
    CanonDecidesValue(v, v);
  }

  /** What the reader recovers is a JSON value of the same meaning, and canonicalising it again
      gives back the same text. */
  lemma {:induction false} NormalIsSame(v: Json)
    requires Good(v)
    ensures Good(Normal(v)) && SameJson(v, Normal(v))
    decreases Height(v), 1, 0
  {
    match v {
      case Num(x) =>
        NumTextStable(x);
        NumTextDecides(x, Double(NumText(x)));
        hide Finite, NumText, SameRational;
      case Arr(items) => NormalItemsSame(items);
      case Obj(ms) => NormalObjectSame(ms);
      case _ =>
    }
  }

  lemma {:induction false} NormalItemsSame(items: seq<Json>)
    requires GoodItems(items)
    ensures GoodItems(NormalItems(items))
    ensures forall i | 0 <= i < |items| :: SameJson(items[i], NormalItems(items)[i])
    decreases HeightItems(items), 0, |items|
  {
    hide Good, SameJson, Normal;
    if items != [] {
      NormalIsSame(items[0]);
      NormalItemsSame(items[1..]);
      var r := NormalItems(items);
      assert r[1..] == NormalItems(items[1..]);
      forall i | 0 <= i < |items|
        ensures SameJson(items[i], r[i])
      {
        if i > 0 { assert items[i] == items[1..][i - 1] && r[i] == r[1..][i - 1]; }
      }
    }
  }

  lemma {:induction false} NormalMembersSame(ms: seq<Member>)
    requires GoodMembers(ms)
    ensures GoodMembers(NormalMembers(ms))
    ensures forall i | 0 <= i < |ms| :: Matches(ms[i], NormalMembers(ms)[i])
    decreases HeightMembers(ms), 0, |ms|
  {
    hide Good, SameJson, Normal;
    if ms != [] {
      assert Height(ms[0].value) == HeightMember(ms[0]);
      NormalIsSame(ms[0].value);
      NormalMembersSame(ms[1..]);
      var r := NormalMembers(ms);
      assert r[0] == NormalMember(ms[0]) && r[1..] == NormalMembers(ms[1..]);
      forall i | 0 <= i < |ms|
        ensures Matches(ms[i], r[i])
      {
        if i > 0 { assert ms[i] == ms[1..][i - 1] && r[i] == r[1..][i - 1]; }
      }
    }
  }

  lemma {:induction false} NormalObjectSame(ms: seq<Member>)
    requires Good(Obj(ms))
    ensures Good(Normal(Obj(ms))) && SameJson(Obj(ms), Normal(Obj(ms)))
    decreases Height(Obj(ms)), 0, |ms| + 1
  {
    ObjectIsGood(ms);
    ObjectFacts(ms);
    var sorted := Sorted(ms);
    SortedAscending(ms);
    AscendingDistinct(sorted);
    SortedMembers(ms);
    NormalMembersSame(sorted);
    ArrangedSame(ms, sorted, NormalMembers(sorted));
    hide Sorted, Normal, NormalMembers, Ascending, Matches, SameJson;
  }

  lemma ArrangedSame(ms: seq<Member>, sorted: seq<Member>, r: seq<Member>)
    requires |ms| == |sorted| == |r| && (forall m :: m in sorted <==> m in ms)
    requires DistinctNames(sorted) && GoodMembers(r)
    requires forall i | 0 <= i < |sorted| :: Matches(sorted[i], r[i])
    ensures Good(Obj(r)) && SameJson(Obj(ms), Obj(r))
  {
    forall i, j | 0 <= i < j < |r|
      ensures r[i].name != r[j].name
    {
      assert Matches(sorted[i], r[i]) && Matches(sorted[j], r[j]);
    }
    forall m | m in ms
      ensures exists n | n in r :: m.name == n.name && SameJson(m.value, n.value)
    {
      assert m in sorted;
      var i :| 0 <= i < |sorted| && sorted[i] == m;
      assert Matches(sorted[i], r[i]) && r[i] in r;
    }
  }

  /** Reading canonical text and canonicalising again changes nothing. */
  lemma CanonIsStable(v: Json)
    requires Good(v)
    ensures Good(Normal(v)) && Read(Canon(v)) == Some((Normal(v), [])) && Canon(Normal(v)) == Canon(v)
  {
    NormalIsSame(v);
    CanonDecidesValue(v, Normal(v));
    NothingEnds();
    ReadsBack(v, []);
    assert Canon(v) + [] == Canon(v);
    hide *;
  }
}

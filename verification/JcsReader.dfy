/**
 Reading canonical JSON back: the text determines the value, and when the
 serialiser succeeds.
 */
module JcsReader {
  import opened Prelude
  import opened Unicode
  import opened JcsText
  import opened Jcs

  // ----- the serialiser writes the canonical text ----------------------------------------

  /** The outcome `_serialize` must have at a depth. */
  predicate Outcome(r: Result<Text, JcsError>, text: Text, finite: bool, fits: bool) {
    && (finite && fits ==> r == Ok(text))
    && (!finite && fits ==> r == Err(NotANumber))
    && (finite && !fits ==> r == Err(TooDeep))
    && (!finite && !fits ==> r.Err?)
  }

  function TextOr(v: Json): Text {
    if Good(v) then Canon(v) else []
  }

  /** The serialiser succeeds exactly on the finite values whose innermost value lies at most
      100 levels down, and then writes the canonical text. */
  lemma {:induction false} SerializeSucceedsExactly(v: Json, depth: nat)
    requires WellFormed(v)
    ensures Outcome(Serialize(v, depth), TextOr(v), AllFinite(v), depth + Height(v) <= MAX_DEPTH)
    decreases Height(v), 1, 0
  {
    hide Sorted, NumText, Quoted, Finite;
    if depth <= MAX_DEPTH {
      match v {
        case Arr(items) => SerializeItemsExactly(items, depth + 1);
        case Obj(ms) =>
          SortedMembers(ms);
          SerializeMembersExactly(Sorted(ms), depth + 1);
        case _ =>
      }
    }
  }

  lemma {:induction false} SerializeItemsExactly(items: seq<Json>, depth: nat)
    requires 1 <= depth <= MAX_DEPTH + 1
    requires forall x | x in items :: WellFormed(x)
    ensures Outcome(SerializeItems(items, depth), if GoodItems(items) then CanonItems(items) else [],
                    forall x | x in items :: AllFinite(x), depth - 1 + HeightItems(items) <= MAX_DEPTH)
    decreases HeightItems(items), 0, |items|
  {
    hide WellFormed, AllFinite, Canon, Serialize, Height;
    if items != [] {
      assert items == [items[0]] + items[1..];
      SerializeSucceedsExactly(items[0], depth);
      SerializeItemsExactly(items[1..], depth);
    }
  }

  lemma {:induction false} SerializeMembersExactly(ms: seq<Member>, depth: nat)
    requires 1 <= depth <= MAX_DEPTH + 1
    requires forall m | m in ms :: WellFormed(m.value)
    ensures Outcome(SerializeMembers(ms, depth), if GoodMembers(ms) then CanonMembers(ms) else [],
                    forall m | m in ms :: AllFinite(m.value), depth - 1 + HeightMembers(ms) <= MAX_DEPTH)
    decreases HeightMembers(ms), 0, |ms|
  {
    hide WellFormed, AllFinite, Canon, Serialize, Height, Quoted;
    if ms != [] {
      assert ms == [ms[0]] + ms[1..];
      assert Height(ms[0].value) == HeightMember(ms[0]);
      SerializeSucceedsExactly(ms[0].value, depth);
      SerializeMembersExactly(ms[1..], depth);
    }
  }

  // ----- the reader inverts the text -------------------------------------------------------

  /** What may follow a value. */
  predicate Ends(rest: Text) {
    rest == [] || rest[0] == 0x2C || rest[0] == 0x5D || rest[0] == 0x7D
  }

  lemma {:induction false} RunStops(s: Text, k: nat)
    requires k <= |s| && (forall i :: 0 <= i < k ==> NumPoint(s[i]))
    requires k < |s| ==> !NumPoint(s[k])
    ensures Run(s) == k
  {
  }

  lemma ReadsNumber(x: Numeral, rest: Text)
    requires Finite(x) && Ends(rest)
    ensures Read(Points(NumText(x)) + rest) == Some((Num(Double(NumText(x))), rest))
  {
    hide Finite, NumText;
    NumTextChars(x);
    var t := Points(NumText(x));
    var s := t + rest;
    assert forall i :: 0 <= i < |t| ==> NumChar(NumText(x)[i]) && NumPoint(s[i]);
    RunStops(s, |t|);
    assert s[..|t|] == t && s[|t|..] == rest;
    assert Chars(t) == NumText(x);
    assert NumPoint(s[0]) && s[0] != 0x6E && s[0] != 0x74 && s[0] != 0x66;
    NotAWord(s);
  }

  lemma NotAWord(s: Text)
    requires s != [] && s[0] != 0x6E && s[0] != 0x74 && s[0] != 0x66
    ensures !(Points("null") <= s) && !(Points("true") <= s) && !(Points("false") <= s)
  {
    assert Points("null")[0] == 0x6E && Points("true")[0] == 0x74 && Points("false")[0] == 0x66;
  }

  lemma ReadsWord(v: Json, rest: Text)
    requires v.Null? || v.Bool?
    ensures Read(Canon(v) + rest) == Some((v, rest))
  {
    var s := Canon(v) + rest;
    assert Points("null")[0] == 0x6E && Points("true")[0] == 0x74 && Points("false")[0] == 0x66;
    assert s[0] == Canon(v)[0];
    assert s[|Canon(v)|..] == rest;
    if v.Bool? {
      assert s[0] == if v.b then 0x74 else 0x66;
    } else {
      assert s[0] == 0x6E;
    }
  }

  lemma ReadsString(t: Text, rest: Text)
    ensures Read(Quoted(t) + rest) == Some((Str(t), rest))
    ensures var s := Quoted(t) + rest; s[0] == QUOTE && ReadBody(s[1..]) == Some((t, rest))
  {
    var s := Quoted(t) + rest;
    assert s[1..] == EscapedAll(t) + [QUOTE] + rest;
    ReadBodyInverts(t, rest);
  }

  /** A value's text starts neither with a closing bracket nor with a separator. */
  lemma CanonStarts(v: Json)
    requires Good(v)
    ensures Canon(v) != [] && Canon(v)[0] != 0x5D && Canon(v)[0] != 0x7D
  {
    match v {
      case Num(x) =>
        NumTextChars(x);
        assert NumChar(NumText(x)[0]);
        hide Finite, NumText;
      case Null => assert Canon(v)[0] == 0x6E;
      case Bool(b) => assert Canon(v)[0] == if b then 0x74 else 0x66;
      case _ =>
    }
  }

  /** Every value is read back from its canonical text, up to member order and the way its
      numbers are held, and nothing of what follows is touched. */
  lemma {:induction false} ReadsBack(v: Json, rest: Text)
    requires Good(v) && Ends(rest)
    ensures Read(Canon(v) + rest) == Some((Normal(v), rest))
    decreases Height(v), 1, 0
  {
    match v {
      case Num(x) => ReadsNumber(x, rest);
      case Str(t) => ReadsString(t, rest);
      case Arr(items) => ReadsBackArray(items, rest);
      case Obj(ms) => ReadsBackObject(ms, rest);
      case _ => ReadsWord(v, rest);
    }
  }

  lemma {:induction false} ReadsBackArray(items: seq<Json>, rest: Text)
    requires Good(Arr(items))
    ensures Read(Canon(Arr(items)) + rest) == Some((Normal(Arr(items)), rest))
    decreases Height(Arr(items)), 0, |items| + 1
  {
    hide WellFormed, AllFinite, CanonItems, ReadItems;
    ArrayIsGood(items);
    var s := Canon(Arr(items)) + rest;
    assert s == [0x5B] + (CanonItems(items) + [0x5D] + rest);
    var t := CanonItems(items) + [0x5D] + rest;
    assert s[1..] == t;
    if items == [] {
      assert CanonItems(items) == [] by { NoItems(); }
      assert s[1] == 0x5D && s[2..] == rest;
    } else {
      ReadsBackItems(items, rest);
      ItemsStart(items);
      assert t[0] == CanonItems(items)[0];
    }
    hide Canon, Normal;
    ArrayFacts(items);
  }

  lemma NoItems()
    ensures CanonItems([]) == []
  {
  }

  lemma ArrayIsGood(items: seq<Json>)
    requires Good(Arr(items))
    ensures GoodItems(items)
  {
  }

  lemma ArrayFacts(items: seq<Json>)
    requires Good(Arr(items))
    ensures GoodItems(items) && Normal(Arr(items)) == Arr(NormalItems(items))
    ensures Canon(Arr(items)) == [0x5B] + CanonItems(items) + [0x5D]
  {
  }

  lemma ItemsStart(items: seq<Json>)
    requires GoodItems(items) && items != []
    ensures CanonItems(items) != [] && CanonItems(items)[0] != 0x5D
  {
    CanonStarts(items[0]);
  }

  lemma {:induction false} ReadsBackItems(items: seq<Json>, rest: Text)
    requires GoodItems(items) && items != []
    ensures ReadItems(CanonItems(items) + [0x5D] + rest) == Some((NormalItems(items), rest))
    decreases HeightItems(items), 0, |items|
  {
    hide Good, Canon, Read, Normal, Height;
    var first := Canon(items[0]);
    var s := CanonItems(items) + [0x5D] + rest;
    if |items| == 1 {
      assert s == first + ([0x5D] + rest);
      ReadsBack(items[0], [0x5D] + rest);
      assert ([0x5D] + rest)[1..] == rest;
      assert items[1..] == [] && NormalItems(items) == [Normal(items[0])];
    } else {
      var tail := CanonItems(items[1..]) + [0x5D] + rest;
      assert s == first + ([0x2C] + tail);
      ReadsBack(items[0], [0x2C] + tail);
      assert ([0x2C] + tail)[1..] == tail;
      ReadsBackItems(items[1..], rest);
    }
  }

  lemma {:induction false} ReadsBackObject(ms: seq<Member>, rest: Text)
    requires Good(Obj(ms))
    ensures Read(Canon(Obj(ms)) + rest) == Some((Normal(Obj(ms)), rest))
    decreases Height(Obj(ms)), 0, |ms| + 1
  {
    hide WellFormed, AllFinite, CanonMembers, ReadMembers, Sorted;
    ObjectIsGood(ms);
    var sorted := Sorted(ms);
    var s := Canon(Obj(ms)) + rest;
    var t := CanonMembers(sorted) + [0x7D] + rest;
    assert s == [0x7B] + t;
    assert s[1..] == t;
    if ms == [] {
      assert sorted == [];
      assert CanonMembers(sorted) == [] by { NoMembers(); }
      assert s[1] == 0x7D && s[2..] == rest;
    } else {
      assert sorted != [];
      ReadsBackMembers(sorted, rest);
      MembersStart(sorted);
      assert t[0] == CanonMembers(sorted)[0];
    }
    hide Canon, Normal;
    ObjectFacts(ms);
  }

  lemma NoMembers()
    ensures CanonMembers([]) == []
  {
  }

  lemma ObjectIsGood(ms: seq<Member>)
    requires Good(Obj(ms))
    ensures GoodMembers(ms) && GoodMembers(Sorted(ms))
  {
    SortedMembers(ms);
  }

  lemma ObjectFacts(ms: seq<Member>)
    requires Good(Obj(ms))
    ensures GoodMembers(Sorted(ms)) && Normal(Obj(ms)) == Obj(NormalMembers(Sorted(ms)))
    ensures Canon(Obj(ms)) == [0x7B] + CanonMembers(Sorted(ms)) + [0x7D]
  {
    ObjectIsGood(ms);
  }

  lemma MembersStart(ms: seq<Member>)
    requires GoodMembers(ms) && ms != []
    ensures CanonMembers(ms) != [] && CanonMembers(ms)[0] == QUOTE
  {
  }

  lemma {:induction false} ReadsBackMember(m: Member, rest: Text)
    requires Good(m.value) && Ends(rest)
    ensures ReadMember(CanonMember(m) + rest) == Some((NormalMember(m), rest))
    decreases HeightMember(m), 2, 0
  {
    hide Good, Canon, Read, Normal, Height, Quoted, ReadBody;
    var tail := [0x3A] + (Canon(m.value) + rest);
    var s := CanonMember(m) + rest;
    assert s == Quoted(m.name) + tail;
    ReadsString(m.name, tail);
    assert tail[1..] == Canon(m.value) + rest;
    ReadsBack(m.value, rest);
  }

  lemma {:induction false} ReadsBackMembers(ms: seq<Member>, rest: Text)
    requires GoodMembers(ms) && ms != []
    ensures ReadMembers(CanonMembers(ms) + [0x7D] + rest) == Some((NormalMembers(ms), rest))
    decreases HeightMembers(ms), 0, |ms|
  {
    hide Good, CanonMember, ReadMember, NormalMember, HeightMember;
    var first := CanonMember(ms[0]);
    var s := CanonMembers(ms) + [0x7D] + rest;
    if |ms| == 1 {
      assert s == first + ([0x7D] + rest);
      ReadsBackMember(ms[0], [0x7D] + rest);
      assert ([0x7D] + rest)[1..] == rest;
      assert ms[1..] == [] && NormalMembers(ms) == [NormalMember(ms[0])];
    } else {
      var tail := CanonMembers(ms[1..]) + [0x7D] + rest;
      assert s == first + ([0x2C] + tail);
      ReadsBackMember(ms[0], [0x2C] + tail);
      assert ([0x2C] + tail)[1..] == tail;
      ReadsBackMembers(ms[1..], rest);
    }
  }
}

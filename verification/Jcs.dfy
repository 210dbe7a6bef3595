/**
 Canonical JSON (RFC 8785): the serialiser with its depth limit, the text it
 writes, and a reader for that text.
 */
module Jcs {
  import opened Prelude
  import opened Unicode
  import opened JcsText

  const MAX_DEPTH := 100

  /** A JSON value; an object's members stand in insertion order. */
  datatype Json =
    | Null
    | Bool(b: bool)
    | Num(x: Numeral)
    | Str(t: Text)
    | Arr(items: seq<Json>)
    | Obj(members: seq<Member>)

  datatype Member = Member(name: Text, value: Json)

  datatype JcsError = TooDeep | NotANumber

  predicate DistinctNames(ms: seq<Member>) {
    forall i, j :: 0 <= i < j < |ms| ==> ms[i].name != ms[j].name
  }

  /** Every object is a Python dict: no name twice. */
  predicate WellFormed(v: Json) {
    match v
    case Arr(items) => forall x | x in items :: WellFormed(x)
    case Obj(ms) => DistinctNames(ms) && forall m | m in ms :: WellFormed(m.value)
    case _ => true
  }

  /** No NaN and no infinity anywhere. */
  predicate AllFinite(v: Json) {
    match v
    case Num(x) => Finite(x)
    case Arr(items) => forall x | x in items :: AllFinite(x)
    case Obj(ms) => forall m | m in ms :: AllFinite(m.value)
    case _ => true
  }

  predicate Good(v: Json) {
    WellFormed(v) && AllFinite(v)
  }

  predicate GoodItems(items: seq<Json>) {
    forall x | x in items :: Good(x)
  }

  predicate GoodMembers(ms: seq<Member>) {
    forall m | m in ms :: Good(m.value)
  }

  /** How many levels of values lie below the value itself. */
  function Height(v: Json): nat {
    match v
    case Arr(items) => HeightItems(items)
    case Obj(ms) => HeightMembers(ms)
    case _ => 0
  }

  function HeightItems(items: seq<Json>): nat {
    if items == [] then 0 else Max(1 + Height(items[0]), HeightItems(items[1..]))
  }

  function HeightMember(m: Member): nat {
    Height(m.value)
  }

  function HeightMembers(ms: seq<Member>): nat {
    if ms == [] then 0 else Max(1 + HeightMember(ms[0]), HeightMembers(ms[1..]))
  }

  // ----- member order ----------------------------------------------------------------------

  function Insert(m: Member, ms: seq<Member>): (r: seq<Member>)
    ensures |r| == |ms| + 1
  {
    if ms == [] then [m]
    else if Before(m.name, ms[0].name) then [m] + ms
    else [ms[0]] + Insert(m, ms[1..])
  }

  lemma {:induction false} InsertMembers(m: Member, ms: seq<Member>)
    ensures multiset(Insert(m, ms)) == multiset(ms) + multiset{m}
  {
    hide Before;
    if ms != [] && !Before(m.name, ms[0].name) {
      InsertMembers(m, ms[1..]);
      assert ms == [ms[0]] + ms[1..];
    }
  }

  lemma {:induction false} InsertHeight(m: Member, ms: seq<Member>)
    ensures HeightMembers(Insert(m, ms)) == Max(1 + HeightMember(m), HeightMembers(ms))
  {
    hide Before, HeightMember;
    if ms != [] {
      if Before(m.name, ms[0].name) {
        assert ([m] + ms)[1..] == ms;
      } else {
        InsertHeight(m, ms[1..]);
        assert Insert(m, ms)[1..] == Insert(m, ms[1..]);
      }
    }
  }

  /** `sorted(value.items(), key=...)`. */
  function Sorted(ms: seq<Member>): (r: seq<Member>)
    ensures multiset(r) == multiset(ms) && |r| == |ms|
    ensures HeightMembers(r) == HeightMembers(ms)
  {
    if ms == [] then []
    else
      var rest := Sorted(ms[1..]);
      SortStep(ms, rest);
      Insert(ms[0], rest)
  }

  lemma SortStep(ms: seq<Member>, rest: seq<Member>)
    requires ms != [] && |rest| == |ms| - 1
    requires multiset(rest) == multiset(ms[1..]) && HeightMembers(rest) == HeightMembers(ms[1..])
    ensures var r := Insert(ms[0], rest);
      multiset(r) == multiset(ms) && |r| == |ms| && HeightMembers(r) == HeightMembers(ms)
  {
    hide Insert, HeightMember;
    InsertMembers(ms[0], rest);
    InsertHeight(ms[0], rest);
    assert ms == [ms[0]] + ms[1..];
  }

  lemma SortedMembers(ms: seq<Member>)
    ensures forall m :: m in Sorted(ms) <==> m in ms
  {
    assert forall m :: m in Sorted(ms) <==> m in multiset(Sorted(ms));
    assert forall m :: m in ms <==> m in multiset(ms);
  }

  // ----- the canonical text ------------------------------------------------------------------

  /** The code points of ASCII text. */
  function Points(s: string): (t: Text)
    ensures |t| == |s| && forall i :: 0 <= i < |s| ==> t[i] == s[i] as int
  {
    seq(|s|, i requires 0 <= i < |s| => s[i] as int)
  }

  /** The canonical text of a value, whatever its depth. */
  function Canon(v: Json): Text
    requires Good(v)
    decreases Height(v), 1, 0
  {
    match v
    case Null => Points("null")
    case Bool(b) => Points(if b then "true" else "false")
    case Num(x) => Points(NumText(x))
    case Str(t) => Quoted(t)
    case Arr(items) => [0x5B] + CanonItems(items) + [0x5D]
    case Obj(ms) =>
      SortedMembers(ms);
      [0x7B] + CanonMembers(Sorted(ms)) + [0x7D]
  }

  /** The items' texts joined by commas. */
  function CanonItems(items: seq<Json>): Text
    requires GoodItems(items)
    decreases HeightItems(items), 0, |items|
  {
    if items == [] then []
    else if |items| == 1 then Canon(items[0])
    else Canon(items[0]) + [0x2C] + CanonItems(items[1..])
  }

  function CanonMember(m: Member): Text
    requires Good(m.value)
    decreases HeightMember(m), 2, 0
  {
    Quoted(m.name) + [0x3A] + Canon(m.value)
  }

  function CanonMembers(ms: seq<Member>): Text
    requires GoodMembers(ms)
    decreases HeightMembers(ms), 0, |ms|
  {
    if ms == [] then []
    else if |ms| == 1 then CanonMember(ms[0])
    else CanonMember(ms[0]) + [0x2C] + CanonMembers(ms[1..])
  }

  // ----- the serialiser ------------------------------------------------------------------------

  /** `_serialize`. */
  function Serialize(v: Json, depth: nat): Result<Text, JcsError>
    decreases Height(v), 1, 0
  {
    if depth > MAX_DEPTH then Err(TooDeep)
    else
      match v
      case Null => Ok(Points("null"))
      case Bool(b) => Ok(Points(if b then "true" else "false"))
      case Num(x) => if Finite(x) then Ok(Points(NumText(x))) else Err(NotANumber)
      case Str(t) => Ok(Quoted(t))
      case Arr(items) =>
        (match SerializeItems(items, depth + 1)
         case Ok(body) => Ok([0x5B] + body + [0x5D])
         case Err(e) => Err(e))
      case Obj(ms) =>
        (match SerializeMembers(Sorted(ms), depth + 1)
         case Ok(body) => Ok([0x7B] + body + [0x7D])
         case Err(e) => Err(e))
  }

  function SerializeItems(items: seq<Json>, depth: nat): Result<Text, JcsError>
    decreases HeightItems(items), 0, |items|
  {
    if items == [] then Ok([])
    else
      match Serialize(items[0], depth)
      case Err(e) => Err(e)
      case Ok(first) =>
        if |items| == 1 then Ok(first)
        else
          match SerializeItems(items[1..], depth)
          case Err(e) => Err(e)
          case Ok(more) => Ok(first + [0x2C] + more)
  }

  function SerializeMember(m: Member, depth: nat): Result<Text, JcsError>
    decreases HeightMember(m), 2, 0
  {
    match Serialize(m.value, depth)
    case Ok(text) => Ok(Quoted(m.name) + [0x3A] + text)
    case Err(e) => Err(e)
  }

  function SerializeMembers(ms: seq<Member>, depth: nat): Result<Text, JcsError>
    decreases HeightMembers(ms), 0, |ms|
  {
    if ms == [] then Ok([])
    else
      match SerializeMember(ms[0], depth)
      case Err(e) => Err(e)
      case Ok(first) =>
        if |ms| == 1 then Ok(first)
        else
          match SerializeMembers(ms[1..], depth)
          case Err(e) => Err(e)
          case Ok(more) => Ok(first + [0x2C] + more)
  }

  // ----- the reader ------------------------------------------------------------------------------

  predicate NumPoint(cp: Scalar) {
    0x30 <= cp < 0x3A || cp == 0x2B || cp == 0x2D || cp == 0x2E || cp == 0x65
  }

  /** The length of the number at the front. */
  function Run(s: Text): (k: nat)
    ensures k <= |s| && forall i :: 0 <= i < k ==> NumPoint(s[i])
    ensures k < |s| ==> !NumPoint(s[k])
  {
    if s == [] || !NumPoint(s[0]) then 0 else 1 + Run(s[1..])
  }

  function Chars(t: Text): (s: string)
    ensures |s| == |t| && forall i :: 0 <= i < |t| ==> s[i] == t[i] as char
  {
    seq(|t|, i requires 0 <= i < |t| => t[i] as char)
  }

  /** Reads one value off the front; numbers come back as their text. */
  function Read(s: Text): (r: Option<(Json, Text)>)
    ensures r.Some? ==> |r.value.1| < |s|
    decreases |s|, 0
  {
    if s == [] then None
    else if s[0] == QUOTE then
      (match ReadBody(s[1..])
       case Some((t, rest)) => Some((Str(t), rest))
       case None => None)
    else if s[0] == 0x5B then
      if |s| > 1 && s[1] == 0x5D then Some((Arr([]), s[2..]))
      else
        (match ReadItems(s[1..])
         case Some((items, rest)) => Some((Arr(items), rest))
         case None => None)
    else if s[0] == 0x7B then
      if |s| > 1 && s[1] == 0x7D then Some((Obj([]), s[2..]))
      else
        (match ReadMembers(s[1..])
         case Some((ms, rest)) => Some((Obj(ms), rest))
         case None => None)
    else if Points("null") <= s then Some((Null, s[4..]))
    else if Points("true") <= s then Some((Bool(true), s[4..]))
    else if Points("false") <= s then Some((Bool(false), s[5..]))
    else if NumPoint(s[0]) then Some((Num(Double(Chars(s[..Run(s)]))), s[Run(s)..]))
    else None
  }

  /** Items separated by commas, up to the closing bracket. */
  function ReadItems(s: Text): (r: Option<(seq<Json>, Text)>)
    ensures r.Some? ==> |r.value.1| < |s|
    decreases |s|, 1
  {
    match Read(s)
    case None => None
    case Some((v, rest)) =>
      if rest == [] then None
      else if rest[0] == 0x5D then Some(([v], rest[1..]))
      else if rest[0] != 0x2C then None
      else
        match ReadItems(rest[1..])
        case None => None
        case Some((more, end)) => Some(([v] + more, end))
  }

  function ReadMember(s: Text): (r: Option<(Member, Text)>)
    ensures r.Some? ==> |r.value.1| < |s|
    decreases |s|, 1
  {
    if s == [] || s[0] != QUOTE then None
    else
      match ReadBody(s[1..])
      case None => None
      case Some((name, rest)) =>
        if rest == [] || rest[0] != 0x3A then None
        else
          match Read(rest[1..])
          case None => None
          case Some((v, end)) => Some((Member(name, v), end))
  }

  function ReadMembers(s: Text): (r: Option<(seq<Member>, Text)>)
    ensures r.Some? ==> |r.value.1| < |s|
    decreases |s|, 2
  {
    match ReadMember(s)
    case None => None
    case Some((m, rest)) =>
      if rest == [] then None
      else if rest[0] == 0x7D then Some(([m], rest[1..]))
      else if rest[0] != 0x2C then None
      else
        match ReadMembers(rest[1..])
        case None => None
        case Some((more, end)) => Some(([m] + more, end))
  }

  // ----- equality and normal form ------------------------------------------------------------------

  /** The same JSON value: members in any order, numbers compared as rationals. */
  predicate SameJson(v: Json, w: Json)
  {
    match (v, w)
    case (Num(x), Num(y)) => Finite(x) && Finite(y) && SameRational(x, y)
    case (Arr(xs), Arr(ys)) =>
      |xs| == |ys| && forall i | 0 <= i < |xs| :: SameJson(xs[i], ys[i])
    case (Obj(ms), Obj(ns)) =>
      |ms| == |ns| && forall m | m in ms :: exists n | n in ns :: m.name == n.name && SameJson(m.value, n.value)
    case _ => (v.Null? || v.Bool? || v.Str?) && v == w
  }

  /** What the reader recovers: members sorted, numbers as canonical text. */
  function Normal(v: Json): Json
    requires Good(v)
    decreases Height(v), 1, 0
  {
    match v
    case Num(x) => Num(Double(NumText(x)))
    case Arr(items) => Arr(NormalItems(items))
    case Obj(ms) =>
      SortedMembers(ms);
      Obj(NormalMembers(Sorted(ms)))
    case _ => v
  }

  function NormalItems(items: seq<Json>): (r: seq<Json>)
    requires GoodItems(items)
    ensures |r| == |items|
    decreases HeightItems(items), 0, |items|
  {
    if items == [] then [] else [Normal(items[0])] + NormalItems(items[1..])
  }

  function NormalMember(m: Member): Member
    requires Good(m.value)
    decreases HeightMember(m), 2, 0
  {
    Member(m.name, Normal(m.value))
  }

  function NormalMembers(ms: seq<Member>): (r: seq<Member>)
    requires GoodMembers(ms)
    ensures |r| == |ms|
    decreases HeightMembers(ms), 0, |ms|
  {
    if ms == [] then [] else [NormalMember(ms[0])] + NormalMembers(ms[1..])
  }
}

/**
 The CBOR profile of section 4.2.1 of RFC 8949: the values, the deterministic
 encoding as a function, and the fail-closed decoder as a function.
 The byte-appending and looping code is in CborCodec, proved against these.
 */
module Cbor {
  import opened Prelude
  import opened Order
  import opened Numerals
  import opened Unicode

  const TWO64: int := 0x1_0000_0000_0000_0000

  /** The deepest item `Decode` reads; the top-level item is at depth 0. */
  const MAX_DEPTH: nat := 64

  /** What the codec carries. A Python dict is its entries in insertion order. */
  datatype Value =
    | Null
    | Bool(b: bool)
    | Int(i: int)
    | Bytes(data: bytes)
    | Text(text: Text)
    | Array(items: seq<Value>)
    | Map(entries: seq<Entry>)
    | Tag(tag: nat, value: Value, raw: Option<bytes>)
    | Raw(encoded: bytes)

  datatype Entry = Entry(key: Value, val: Value)

  datatype CborError =
    | TruncatedHead | IndefiniteLength | ReservedInfo | TruncatedArgument
    | TruncatedString | BadUtf8 | TooDeep | BadKey | DuplicateKey
    | UnsupportedSimple | TrailingBytes | OutOfRange

  predicate IsKey(v: Value) {
    v.Int? || v.Bytes? || v.Text?
  }

  predicate IsLeaf(v: Value) {
    IsKey(v) || v.Null? || v.Bool? || v.Raw?
  }

  predicate DistinctKeys(es: seq<Entry>) {
    forall i, j :: 0 <= i < j < |es| ==> es[i].key != es[j].key
  }

  /** What `encode` documents: 64-bit arguments and distinct int, byte or text keys. */
  predicate Supported(v: Value) {
    match v
    case Null => true
    case Bool(_) => true
    case Int(i) => -TWO64 <= i < TWO64
    case Bytes(d) => |d| < TWO64
    case Text(t) => |Utf8(t)| < TWO64
    case Array(items) => |items| < TWO64 && forall x | x in items :: Supported(x)
    case Map(es) =>
      && |es| < TWO64 && DistinctKeys(es)
      && forall e | e in es :: IsKey(e.key) && Supported(e.key) && Supported(e.val)
    case Tag(t, x, _) => t < TWO64 && Supported(x)
    case Raw(_) => true
  }

  /** No pre-encoded part: such values are what `decode` can return. */
  predicate Plain(v: Value) {
    match v
    case Array(items) => forall x | x in items :: Plain(x)
    case Map(es) => forall e | e in es :: Plain(e.key) && Plain(e.val)
    case Tag(_, x, _) => Plain(x)
    case Raw(_) => false
    case _ => true
  }

  predicate GoodEntries(es: seq<Entry>) {
    forall e | e in es :: IsKey(e.key) && Supported(e.key) && Supported(e.val)
  }

  predicate PlainEntries(es: seq<Entry>) {
    forall e | e in es :: Plain(e.key) && Plain(e.val)
  }

  /** How many levels of items lie below the item itself. */
  function Height(v: Value): nat {
    match v
    case Array(items) => HeightItems(items)
    case Map(es) => HeightEntries(es)
    case Tag(_, x, _) => 1 + Height(x)
    case _ => 0
  }

  function HeightItems(items: seq<Value>): nat {
    if items == [] then 0 else Max(1 + Height(items[0]), HeightItems(items[1..]))
  }

  function HeightEntry(e: Entry): nat {
    Max(Height(e.key), Height(e.val))
  }

  function HeightEntries(es: seq<Entry>): nat {
    if es == [] then 0
    else Max(1 + HeightEntry(es[0]), HeightEntries(es[1..]))
  }

  // ----- deterministic encoding ------------------------------------------------------

  /** The item head: major type and argument, the argument in its shortest form. */
  function Head(major: nat, n: nat): (h: bytes)
    requires major < 8 && n < TWO64
    ensures 1 <= |h| <= 9
  {
    if n < 24 then [(major * 32 + n) as byte]
    else if n < 0x100 then [(major * 32 + 24) as byte] + ToBE(n, 1)
    else if n < 0x10000 then [(major * 32 + 25) as byte] + ToBE(n, 2)
    else if n < 0x1_0000_0000 then [(major * 32 + 26) as byte] + ToBE(n, 4)
    else [(major * 32 + 27) as byte] + ToBE(n, 8)
  }

  function LeafBytes(v: Value): bytes
    requires IsLeaf(v) && Supported(v)
  {
    match v
    case Null => [0xF6]
    case Bool(b) => if b then [0xF5] else [0xF4]
    case Int(i) => if i < 0 then Head(1, -1 - i) else Head(0, i)
    case Bytes(d) => Head(2, |d|) + d
    case Text(t) => Head(3, |Utf8(t)|) + Utf8(t)
    case Raw(e) => e
  }

  predicate GoodKeys(es: seq<Entry>) {
    forall e | e in es :: IsKey(e.key) && Supported(e.key)
  }

  function InsertEntry(e: Entry, es: seq<Entry>): (r: seq<Entry>)
    requires IsKey(e.key) && Supported(e.key) && GoodKeys(es)
    ensures |r| == |es| + 1
  {
    if es == [] then [e]
    else if Less(LeafBytes(e.key), LeafBytes(es[0].key)) then [e] + es
    else [es[0]] + InsertEntry(e, es[1..])
  }

  lemma {:induction false} InsertEntryMembers(e: Entry, es: seq<Entry>)
    requires IsKey(e.key) && Supported(e.key) && GoodKeys(es)
    ensures multiset(InsertEntry(e, es)) == multiset(es) + multiset{e}
  {
    hide Less, LeafBytes, Supported, IsKey;
    if es != [] && !Less(LeafBytes(e.key), LeafBytes(es[0].key)) {
      InsertEntryMembers(e, es[1..]);
      assert es == [es[0]] + es[1..];
    }
  }

  lemma {:induction false} InsertEntryHeight(e: Entry, es: seq<Entry>)
    requires IsKey(e.key) && Supported(e.key) && GoodKeys(es)
    ensures HeightEntries(InsertEntry(e, es)) == Max(1 + HeightEntry(e), HeightEntries(es))
  {
    hide Less, LeafBytes, Supported, IsKey, HeightEntry;
    var r := InsertEntry(e, es);
    if es == [] {
    } else if Less(LeafBytes(e.key), LeafBytes(es[0].key)) {
      assert r[1..] == es;
    } else {
      InsertEntryHeight(e, es[1..]);
      assert r[1..] == InsertEntry(e, es[1..]);
    }
  }

  lemma SameMembers(r: seq<Entry>, es: seq<Entry>)
    requires multiset(r) == multiset(es)
    ensures forall e :: e in r <==> e in es
    ensures |r| == |es|
  {
    forall e
      ensures e in r <==> e in es
    {
      assert e in r <==> e in multiset(r);
      assert e in es <==> e in multiset(es);
    }
    assert |multiset(r)| == |r| && |multiset(es)| == |es|;
  }

  /** The entries in core-deterministic order: by their encoded key bytes. */
  function SortEntries(es: seq<Entry>): (r: seq<Entry>)
    requires GoodKeys(es)
    ensures multiset(r) == multiset(es) && GoodKeys(r)
    ensures HeightEntries(r) == HeightEntries(es)
  {
    if es == [] then []
    else
      var rest := SortEntries(es[1..]);
      SortStep(es, rest);
      InsertEntry(es[0], rest)
  }

  lemma SortStep(es: seq<Entry>, rest: seq<Entry>)
    requires GoodKeys(es) && es != [] && GoodKeys(rest)
    requires multiset(rest) == multiset(es[1..]) && HeightEntries(rest) == HeightEntries(es[1..])
    ensures var r := InsertEntry(es[0], rest);
      multiset(r) == multiset(es) && GoodKeys(r) && HeightEntries(r) == HeightEntries(es)
  {
    hide InsertEntry, Supported, IsKey, HeightEntry;
    InsertEntryHeight(es[0], rest);
    InsertEntryMembers(es[0], rest);
    assert es == [es[0]] + es[1..];
    SameMembers(InsertEntry(es[0], rest), es);
  }

  lemma SortedMembers(es: seq<Entry>)
    requires GoodKeys(es)
    ensures forall e :: e in SortEntries(es) <==> e in es
    ensures |SortEntries(es)| == |es|
  {
    SameMembers(SortEntries(es), es);
  }

  /** The deterministic encoding (section 4.2.1 of RFC 8949). */
  function Enc(v: Value): bytes
    requires Supported(v)
    decreases Height(v), 1, 0
  {
    match v
    case Array(items) => Head(4, |items|) + EncItems(items)
    case Map(es) =>
      SortedMembers(es);
      Head(5, |es|) + EncEntries(SortEntries(es))
    case Tag(t, x, _) => Head(6, t) + Enc(x)
    case _ => LeafBytes(v)
  }

  function EncItems(items: seq<Value>): bytes
    requires forall x | x in items :: Supported(x)
    decreases HeightItems(items), 0, |items|
  {
    if items == [] then [] else Enc(items[0]) + EncItems(items[1..])
  }

  function EncEntries(es: seq<Entry>): bytes
    requires GoodEntries(es)
    decreases HeightEntries(es), 0, |es|
  {
    if es == [] then []
    else
      assert Height(es[0].val) <= HeightEntry(es[0]);
      LeafBytes(es[0].key) + (Enc(es[0].val) + EncEntries(es[1..]))
  }

  /** What decoding the encoding of `v` returns: map entries in encoded-key order, and every
      tag with its encoded bytes recorded. */
  function Normal(v: Value): Value
    requires Supported(v)
    decreases Height(v), 1, 0
  {
    match v
    case Array(items) => Array(NormalItems(items))
    case Map(es) =>
      SortedMembers(es);
      Map(NormalEntries(SortEntries(es)))
    case Tag(t, x, _) => Tag(t, Normal(x), Some(Enc(v)))
    case _ => v
  }

  function NormalItems(items: seq<Value>): (r: seq<Value>)
    requires forall x | x in items :: Supported(x)
    ensures |r| == |items|
    decreases HeightItems(items), 0, |items|
  {
    if items == [] then [] else [Normal(items[0])] + NormalItems(items[1..])
  }

  function NormalEntries(es: seq<Entry>): (r: seq<Entry>)
    requires GoodEntries(es)
    ensures |r| == |es|
    decreases HeightEntries(es), 0, |es|
  {
    if es == [] then []
    else
      assert Height(es[0].val) <= HeightEntry(es[0]);
      [Entry(es[0].key, Normal(es[0].val))] + NormalEntries(es[1..])
  }

  /** Equality of value and type: dicts compare by key, tags ignore their recorded bytes. Python's
      `==` is coarser, it also takes True for 1 (`PyEqual` in CborEquality). */
  predicate TypedEqual(v: Value, w: Value)
  {
    match (v, w)
    case (Array(xs), Array(ys)) =>
      |xs| == |ys| && forall i | 0 <= i < |xs| :: TypedEqual(xs[i], ys[i])
    case (Map(es), Map(fs)) =>
      |es| == |fs| && forall e | e in es :: exists f | f in fs :: e.key == f.key && TypedEqual(e.val, f.val)
    case (Tag(t, x, _), Tag(u, y, _)) => t == u && TypedEqual(x, y)
    case _ => IsLeaf(v) && v == w
  }

  // ----- fail-closed decoding ----------------------------------------------------------

  lemma ArgumentFits(argument: bytes)
    requires |argument| == 1 || |argument| == 2 || |argument| == 4 || |argument| == 8
    ensures FromBE(argument) < TWO64
  {
    ToFromBE(argument);
    PowersOf256();
  }

  lemma PowersOf256()
    ensures Pow256(1) == 0x100 && Pow256(2) == 0x1_0000
    ensures Pow256(4) == 0x1_0000_0000 && Pow256(8) == TWO64
  {
    assert Pow256(2) == 256 * Pow256(1);
    assert Pow256(3) == 256 * Pow256(2);
    assert Pow256(4) == 256 * Pow256(3);
    assert Pow256(5) == 256 * Pow256(4);
    assert Pow256(6) == 256 * Pow256(5);
    assert Pow256(7) == 256 * Pow256(6);
    assert Pow256(8) == 256 * Pow256(7);
  }

  /** The octets of an argument after the first one, by additional information 24 to 27. */
  function ArgumentWidth(info: nat): (w: nat)
    requires 24 <= info <= 27
    ensures w == 1 || w == 2 || w == 4 || w == 8
  {
    if info == 24 then 1 else if info == 25 then 2 else if info == 26 then 4 else 8
  }

  /** Major type, argument and the offset after the head. */
  function ReadHead(data: bytes, i: nat): (r: Result<(nat, nat, nat), CborError>)
    ensures r.Ok? ==> i < r.value.2 <= |data| && r.value.0 == data[i] / 32 && r.value.1 < TWO64
  {
    if i >= |data| then Err(TruncatedHead)
    else
      var major, info := data[i] / 32, data[i] % 32;
      if info < 24 then Ok((major, info, i + 1))
      else if info == 31 then Err(IndefiniteLength)
      else if info > 27 then Err(ReservedInfo)
      else
        var end := i + 1 + ArgumentWidth(info);
        if end > |data| then Err(TruncatedArgument)
        else
          ArgumentFits(data[i + 1..end]);
          Ok((major, FromBE(data[i + 1..end]), end))
  }

  function Room(depth: nat, limit: nat): nat {
    if depth > limit then 0 else limit + 1 - depth
  }

  /** One item at offset `i`, nested `depth` levels below the top, and the offset after it. */
  function DecodeAt(data: bytes, i: nat, depth: nat, limit: nat): Result<(Value, nat), CborError>
    decreases Room(depth, limit), 0, 0
  {
    if depth > limit then Err(TooDeep)
    else
      match ReadHead(data, i)
      case Err(e) => Err(e)
      case Ok((major, n, k)) =>
        if major == 0 then Ok((Int(n), k))
        else if major == 1 then Ok((Int(-1 - n), k))
        else if major == 2 then
          if k + n > |data| then Err(TruncatedString) else Ok((Bytes(data[k..k + n]), k + n))
        else if major == 3 then
          if k + n > |data| then Err(TruncatedString)
          else
            match FromUtf8(data[k..k + n])
            case None => Err(BadUtf8)
            case Some(t) => Ok((Text(t), k + n))
        else if major == 4 then
          match DecodeItems(data, k, n, [], depth + 1, limit)
          case Err(e) => Err(e)
          case Ok((items, j)) => Ok((Array(items), j))
        else if major == 5 then
          match DecodeEntries(data, k, n, [], depth + 1, limit)
          case Err(e) => Err(e)
          case Ok((es, j)) => Ok((Map(es), j))
        else if major == 6 then
          match DecodeAt(data, k, depth + 1, limit)
          case Err(e) => Err(e)
          case Ok((x, j)) =>
            if i <= j <= |data| then Ok((Tag(n, x, Some(data[i..j])), j)) else Err(TruncatedHead)
        else
          var info := data[i] % 32;
          if info == 20 then Ok((Bool(false), k))
          else if info == 21 then Ok((Bool(true), k))
          else if info == 22 then Ok((Null, k))
          else Err(UnsupportedSimple)
  }

  function DecodeItems(data: bytes, i: nat, n: nat, acc: seq<Value>, depth: nat, limit: nat)
    : Result<(seq<Value>, nat), CborError>
    decreases Room(depth, limit), 1, n
  {
    if n == 0 then Ok((acc, i))
    else
      match DecodeAt(data, i, depth, limit)
      case Err(e) => Err(e)
      case Ok((x, j)) => DecodeItems(data, j, n - 1, acc + [x], depth, limit)
  }

  function DecodeEntries(data: bytes, i: nat, n: nat, acc: seq<Entry>, depth: nat, limit: nat)
    : Result<(seq<Entry>, nat), CborError>
    decreases Room(depth, limit), 1, n
  {
    if n == 0 then Ok((acc, i))
    else
      match DecodeAt(data, i, depth, limit)
      case Err(e) => Err(e)
      case Ok((key, j)) =>
        match DecodeAt(data, j, depth, limit)
        case Err(e) => Err(e)
        case Ok((val, k)) =>
          if !IsKey(key) then Err(BadKey)
          else if HasKey(acc, key) then Err(DuplicateKey)
          else DecodeEntries(data, k, n - 1, acc + [Entry(key, val)], depth, limit)
  }

  predicate HasKey(es: seq<Entry>, key: Value) {
    exists e | e in es :: e.key == key
  }

  /** One top-level item and nothing after it. */
  function Decode(data: bytes): Result<Value, CborError> {
    match DecodeAt(data, 0, 0, MAX_DEPTH)
    case Err(e) => Err(e)
    case Ok((v, j)) => if j != |data| then Err(TrailingBytes) else Ok(v)
  }
}

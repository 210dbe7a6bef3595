/**
 The CBOR codec as the source runs it: an encoder that appends to one growing
 buffer and a decoder that loops over counts, each proved against the functions
 of module Cbor.
 */
module CborCodec {
  import opened Prelude
  import opened Order
  import opened Numerals
  import opened Unicode
  import opened Cbor
  import opened CborProofs
  import opened CborSound

  /** What the type system of the source leaves to the caller: dict keys are distinct ints,
      byte strings or text. Numeric ranges are checked by `Encode` itself. */
  predicate Shaped(v: Value) {
    match v
    case Array(items) => forall x | x in items :: Shaped(x)
    case Map(es) =>
      && DistinctKeys(es)
      && forall e | e in es :: IsKey(e.key) && Shaped(e.key) && Shaped(e.val)
    case Tag(_, x, _) => Shaped(x)
    case _ => true
  }

  // ----- sorting pairs of encoded key and entry ------------------------------------------

  datatype Keyed = Keyed(bytes: bytes, entry: Entry)

  function InsertKeyed(p: Keyed, ps: seq<Keyed>): seq<Keyed> {
    if ps == [] then [p]
    else if Less(p.bytes, ps[0].bytes) then [p] + ps
    else [ps[0]] + InsertKeyed(p, ps[1..])
  }

  /** `sorted` on pairs whose first components are distinct byte strings. */
  function SortKeyed(ps: seq<Keyed>): seq<Keyed> {
    if ps == [] then [] else InsertKeyed(ps[0], SortKeyed(ps[1..]))
  }

  function KeyedOf(es: seq<Entry>): (ps: seq<Keyed>)
    requires GoodKeys(es)
    ensures |ps| == |es|
    ensures forall i | 0 <= i < |es| :: ps[i] == Keyed(LeafBytes(es[i].key), es[i])
  {
    if es == [] then [] else [Keyed(LeafBytes(es[0].key), es[0])] + KeyedOf(es[1..])
  }

  lemma {:induction false} InsertKeyedOf(e: Entry, es: seq<Entry>)
    requires IsKey(e.key) && Supported(e.key) && GoodKeys(es)
    ensures GoodKeys(InsertEntry(e, es))
    ensures InsertKeyed(Keyed(LeafBytes(e.key), e), KeyedOf(es)) == KeyedOf(InsertEntry(e, es))
  {
    hide Supported, IsKey, LeafBytes, Less;
    var ps, r := KeyedOf(es), InsertEntry(e, es);
    if es == [] {
    } else if Less(LeafBytes(e.key), LeafBytes(es[0].key)) {
      assert r[1..] == es;
    } else {
      InsertKeyedOf(e, es[1..]);
      assert ps[1..] == KeyedOf(es[1..]);
      assert r[1..] == InsertEntry(e, es[1..]);
    }
  }

  lemma {:induction false} SortKeyedOf(es: seq<Entry>)
    requires GoodKeys(es)
    ensures SortKeyed(KeyedOf(es)) == KeyedOf(SortEntries(es))
  {
    hide Supported, IsKey, LeafBytes, Less;
    if es != [] {
      SortKeyedOf(es[1..]);
      assert KeyedOf(es)[1..] == KeyedOf(es[1..]);
      InsertKeyedOf(es[0], SortEntries(es[1..]));
    }
  }

  // ----- encoder --------------------------------------------------------------------------

  class Encoder {
    /** The bytearray every call appends to. */
    var out: bytes

    constructor ()
      ensures out == []
    {
      out := [];
    }

    /** Append an item head, or refuse an argument of 65 bits or more. */
    method WriteHead(major: nat, n: nat) returns (ok: bool)
      requires major < 8
      modifies this
      ensures ok <==> n < TWO64
      ensures out == if ok then old(out) + Head(major, n) else old(out)
    {
      var mt := major * 32;
      if n < 24 {
        out := out + [(mt + n) as byte];
      } else if n < 0x100 {
        out := out + ([(mt + 24) as byte] + ToBE(n, 1));
      } else if n < 0x10000 {
        out := out + ([(mt + 25) as byte] + ToBE(n, 2));
      } else if n < 0x1_0000_0000 {
        out := out + ([(mt + 26) as byte] + ToBE(n, 4));
      } else if n < TWO64 {
        out := out + ([(mt + 27) as byte] + ToBE(n, 8));
      } else {
        return false;
      }
      return true;
    }

    /** Append the deterministic encoding of `v`; it fails exactly on an integer, tag or length
        that 64 bits cannot carry. */
    method Encode(v: Value) returns (ok: bool)
      requires Shaped(v)
      modifies this
      ensures ok <==> Supported(v)
      ensures ok ==> out == old(out) + Enc(v)
      decreases Height(v), 1, 0
    {
      hide Height, Enc, Shaped;
      match v {
        case Tag(t, x, raw) => ok := EncodeTag(t, x, raw);
        case Array(items) => ok := EncodeArray(items);
        case Map(es) => ok := EncodeMap(es);
        case _ => ok := EncodeLeaf(v);
      }
    }

    method EncodeLeaf(v: Value) returns (ok: bool)
      requires IsLeaf(v)
      modifies this
      ensures ok <==> Supported(v)
      ensures ok ==> out == old(out) + Enc(v)
    {
      hide Head;
      match v {
        case Null => out := out + [0xF6]; ok := true;
        case Bool(b) => out := out + (if b then [0xF5] else [0xF4]); ok := true;
        case Raw(e) => out := out + e; ok := true;
        case Int(i) =>
          if i < 0 {
            ok := WriteHead(1, -1 - i);
          } else {
            ok := WriteHead(0, i);
          }
        case Bytes(d) =>
          ok := WriteHead(2, |d|);
          if ok { out := out + d; }
        case Text(t) =>
          var raw := Utf8(t);
          ok := WriteHead(3, |raw|);
          if ok { out := out + raw; }
      }
    }

    method EncodeTag(t: nat, x: Value, raw: Option<bytes>) returns (ok: bool)
      requires Shaped(Tag(t, x, raw))
      modifies this
      ensures ok <==> Supported(Tag(t, x, raw))
      ensures ok ==> out == old(out) + Enc(Tag(t, x, raw))
      decreases Height(Tag(t, x, raw)), 0, 0
    {
      hide Head, LeafBytes, Enc, Supported, Height;
      TagFacts(t, x, raw);
      ok := WriteHead(6, t);
      if ok {
        ok := Encode(x);
        if ok { ConcatAssoc(old(out), Head(6, t), Enc(x)); }
      }
    }

    method EncodeArray(items: seq<Value>) returns (ok: bool)
      requires Shaped(Array(items))
      modifies this
      ensures ok <==> Supported(Array(items))
      ensures ok ==> out == old(out) + Enc(Array(items))
      decreases Height(Array(items)), 0, 0
    {
      hide Head, LeafBytes, Supported, Shaped, Enc, Height, EncItems;
      ArrayFacts(items);
      assert EncItems([]) == [] by { EncNothing(); }
      ok := WriteHead(4, |items|);
      if !ok { return; }
      var start := out;
      var i := 0;
      ghost var done := [];
      while i < |items|
        invariant 0 <= i <= |items| && done == items[..i]
        invariant forall x | x in done :: Supported(x)
        invariant out == start + EncItems(done)
      {
        HeightOfItem(items, i);
        assert items[i] in items;
        ok := Encode(items[i]);
        if !ok { return; }
        ConcatAssoc(start, EncItems(done), Enc(items[i]));
        EncItemsSnoc(done, items[i]);
        done := done + [items[i]];
        i := i + 1;
      }
      assert done == items;
      ConcatAssoc(old(out), Head(4, |items|), EncItems(items));
    }

    method EncodeMap(es: seq<Entry>) returns (ok: bool)
      requires Shaped(Map(es))
      modifies this
      ensures ok <==> Supported(Map(es))
      ensures ok ==> out == old(out) + Enc(Map(es))
      decreases Height(Map(es)), 0, 1
    {
      hide Head, LeafBytes, Less, SortEntries, KeyedOf, Supported, Shaped, Enc, Height, IsKey, EncEntries;
      MapFacts(es);
      var encoded: seq<Keyed>;
      ok, encoded := SortedPairs(es);
      if !ok { return; }
      ghost var sorted := SortEntries(es);
      SortedMembers(es);
      SortedHeight(es);
      ok := WriteHead(5, |encoded|);
      if !ok { return; }
      ok := EncodeEntries(encoded, sorted);
      if !ok { return; }
      GoodSorted(es);
      EncMap(es);
      ConcatAssoc(old(out), Head(5, |es|), EncEntries(sorted));
    }

    /** The sorted pairs one after the other: the key bytes as they are, then the value. */
    method EncodeEntries(encoded: seq<Keyed>, ghost sorted: seq<Entry>) returns (ok: bool)
      requires GoodKeys(sorted) && encoded == KeyedOf(sorted)
      requires forall e | e in sorted :: Shaped(e.val)
      modifies this
      ensures ok <==> GoodEntries(sorted)
      ensures ok ==> out == old(out) + EncEntries(sorted)
      decreases HeightEntries(sorted), 0, 0
    {
      hide Head, LeafBytes, Less, Supported, Shaped, Enc, IsKey, EncEntries, Height;
      assert EncEntries([]) == [] by { EncNothing(); }
      var start := out;
      var j := 0;
      ghost var done := [];
      while j < |encoded|
        invariant 0 <= j <= |encoded| && done == sorted[..j]
        invariant GoodEntries(done)
        invariant out == start + EncEntries(done)
      {
        HeightOfEntry(sorted, j);
        var e := encoded[j].entry;
        assert e == sorted[j] && e in sorted;
        out := out + encoded[j].bytes;
        ok := Encode(e.val);
        if !ok { return; }
        ConcatAssoc(start + EncEntries(done), LeafBytes(e.key), Enc(e.val));
        ConcatAssoc(start, EncEntries(done), LeafBytes(e.key) + Enc(e.val));
        assert GoodEntries([e]);
        EncEntriesSnoc(done, e);
        done := done + [e];
        j := j + 1;
      }
      assert done == sorted;
      ok := true;
    }

    method EncodeKey(key: Value) returns (ok: bool, encoded: bytes)
      requires IsKey(key) && Shaped(key)
      ensures ok <==> Supported(key)
      ensures ok ==> encoded == LeafBytes(key)
      decreases Height(key), 2, 0
    {
      hide Head, LeafBytes, Supported, Shaped, Height, Enc;
      var e := new Encoder();
      ok := e.Encode(key);
      encoded := e.out;
      if ok {
        KeyEnc(key);
        assert [] + Enc(key) == Enc(key);
      }
    }

    /** Every key encoded on its own, and the pairs sorted by the encoded keys. */
    method SortedPairs(es: seq<Entry>) returns (ok: bool, encoded: seq<Keyed>)
      requires Shaped(Map(es))
      ensures ok <==> GoodKeys(es)
      ensures ok ==> encoded == KeyedOf(SortEntries(es))
      decreases Height(Map(es)), 0, 0
    {
      hide Head, LeafBytes, Less, KeyedOf, Supported, Shaped, Enc, IsKey, Height;
      MapFacts(es);
      var pairs: seq<Keyed> := [];
      var i := 0;
      ghost var done := [];
      assert KeyedOf([]) == [];
      while i < |es|
        invariant 0 <= i <= |es| && done == es[..i]
        invariant GoodKeys(done) && pairs == KeyedOf(done)
      {
        HeightOfEntry(es, i);
        var e := es[i];
        assert e in es;
        var keyBytes: bytes;
        ok, keyBytes := EncodeKey(e.key);
        if !ok { return false, []; }
        KeyedOfSnoc(done, e);
        done := done + [e];
        pairs := pairs + [Keyed(keyBytes, e)];
        i := i + 1;
      }
      assert done == es;
      SortKeyedOf(es);
      return true, SortKeyed(pairs);
    }
  }

  lemma EncNothing()
    ensures EncItems([]) == [] && EncEntries([]) == []
  {
  }

  lemma ArrayFacts(items: seq<Value>)
    requires Shaped(Array(items))
    ensures forall x | x in items :: Shaped(x)
    ensures Supported(Array(items)) <==> |items| < TWO64 && forall x | x in items :: Supported(x)
    ensures Supported(Array(items)) ==> Enc(Array(items)) == Head(4, |items|) + EncItems(items)
  {
  }

  lemma MapFacts(es: seq<Entry>)
    requires Shaped(Map(es))
    ensures forall e | e in es :: Shaped(e.key) && Shaped(e.val) && IsKey(e.key)
    ensures Supported(Map(es)) <==> |es| < TWO64 && GoodEntries(es)
    ensures Supported(Map(es)) ==> GoodKeys(es)
  {
  }

  lemma SortedHeight(es: seq<Entry>)
    requires GoodKeys(es)
    ensures HeightEntries(SortEntries(es)) == Height(Map(es))
  {
  }

  lemma GoodSorted(es: seq<Entry>)
    requires GoodKeys(es) && GoodEntries(SortEntries(es))
    ensures GoodEntries(es)
  {
    hide LeafBytes, SortEntries, IsKey, Supported;
    SortedMembers(es);
    forall e | e in es
      ensures IsKey(e.key) && Supported(e.key) && Supported(e.val)
    {
      assert e in SortEntries(es);
    }
  }

  lemma KeyedOfSnoc(es: seq<Entry>, e: Entry)
    requires GoodKeys(es) && IsKey(e.key) && Supported(e.key)
    ensures GoodKeys(es + [e])
    ensures KeyedOf(es + [e]) == KeyedOf(es) + [Keyed(LeafBytes(e.key), e)]
  {
    hide LeafBytes, Supported;
    var all := es + [e];
    assert forall i | 0 <= i < |all| :: KeyedOf(all)[i] == (KeyedOf(es) + [Keyed(LeafBytes(e.key), e)])[i];
  }

  lemma {:induction false} HeightOfItem(items: seq<Value>, i: nat)
    requires i < |items|
    ensures Height(items[i]) < HeightItems(items) == Height(Array(items))
  {
    if i > 0 {
      HeightOfItem(items[1..], i - 1);
    }
  }

  lemma {:induction false} HeightOfEntry(es: seq<Entry>, i: nat)
    requires i < |es|
    ensures Height(es[i].key) < HeightEntries(es) == Height(Map(es))
    ensures Height(es[i].val) < HeightEntries(es)
  {
    assert Height(es[0].key) <= HeightEntry(es[0]) && Height(es[0].val) <= HeightEntry(es[0]);
    if i > 0 {
      HeightOfEntry(es[1..], i - 1);
    }
  }

  lemma EncItemsCons(x: Value, rest: seq<Value>)
    requires Supported(x) && forall y | y in rest :: Supported(y)
    ensures EncItems([x] + rest) == Enc(x) + EncItems(rest)
  {
    hide Supported, Enc;
    var all := [x] + rest;
    assert all[0] == x && all[1..] == rest;
  }

  lemma {:induction false} EncItemsSnoc(items: seq<Value>, x: Value)
    requires Supported(x) && forall y | y in items :: Supported(y)
    ensures EncItems(items + [x]) == EncItems(items) + Enc(x)
  {
    hide Supported, Enc, EncItems;
    if items == [] {
      EncNothing();
      EncItemsCons(x, []);
      assert items + [x] == [x] + [];
      assert Enc(x) + [] == [] + Enc(x);
    } else {
      var y, rest := items[0], items[1..];
      EncItemsSnoc(rest, x);
      EncItemsCons(y, rest);
      EncItemsCons(y, rest + [x]);
      assert items == [y] + rest;
      assert items + [x] == [y] + (rest + [x]);
      ConcatAssoc(Enc(y), EncItems(rest), Enc(x));
    }
  }

  lemma EncEntriesCons(e: Entry, rest: seq<Entry>)
    requires GoodEntries([e]) && GoodEntries(rest)
    ensures GoodEntries([e] + rest)
    ensures EncEntries([e] + rest) == (LeafBytes(e.key) + Enc(e.val)) + EncEntries(rest)
  {
    hide Supported, Enc, LeafBytes, IsKey;
    var all := [e] + rest;
    assert all[0] == e && all[1..] == rest;
    assert e in [e];
    ConcatAssoc(LeafBytes(e.key), Enc(e.val), EncEntries(rest));
  }

  lemma {:induction false} EncEntriesSnoc(es: seq<Entry>, e: Entry)
    requires GoodEntries(es) && GoodEntries([e])
    ensures GoodEntries(es + [e])
    ensures EncEntries(es + [e]) == EncEntries(es) + (LeafBytes(e.key) + Enc(e.val))
  {
    assert e in [e];
    hide Supported, Enc, LeafBytes, IsKey, EncEntries;
    if es == [] {
      EncNothing();
      EncEntriesCons(e, []);
      assert es + [e] == [e] + [];
      assert (LeafBytes(e.key) + Enc(e.val)) + [] == [] + (LeafBytes(e.key) + Enc(e.val));
    } else {
      var f, rest := es[0], es[1..];
      EncEntriesSnoc(rest, e);
      EncEntriesCons(f, rest);
      EncEntriesCons(f, rest + [e]);
      assert es == [f] + rest;
      assert es + [e] == [f] + (rest + [e]);
      ConcatAssoc(LeafBytes(f.key) + Enc(f.val), EncEntries(rest), LeafBytes(e.key) + Enc(e.val));
    }
  }

  /** `encode`: the bytes, or OutOfRange. */
  method Encode(v: Value) returns (r: Result<bytes, CborError>)
    requires Shaped(v)
    ensures r == if Supported(v) then Ok(Enc(v)) else Err(OutOfRange)
  {
    var e := new Encoder();
    var ok := e.Encode(v);
    if ok {
      assert [] + Enc(v) == Enc(v);
      return Ok(e.out);
    } else {
      return Err(OutOfRange);
    }
  }

  // ----- decoder --------------------------------------------------------------------------

  method DecodeItem(data: bytes, start: nat, depth: nat) returns (r: Result<(Value, nat), CborError>)
    ensures r == DecodeAt(data, start, depth, MAX_DEPTH)
    decreases Room(depth, MAX_DEPTH), 0
  {
    hide ReadHead, FromUtf8;
    if depth > MAX_DEPTH {
      return Err(TooDeep);
    }
    var head := ReadHead(data, start);
    if head.Err? {
      return Err(head.error);
    }
    var (major, n, i) := head.value;
    HeadOk(data, start);
    if major == 0 {
      return Ok((Int(n), i));
    }
    if major == 1 {
      return Ok((Int(-1 - n), i));
    }
    if major == 2 {
      if i + n > |data| {
        return Err(TruncatedString);
      }
      return Ok((Bytes(data[i..i + n]), i + n));
    }
    if major == 3 {
      if i + n > |data| {
        return Err(TruncatedString);
      }
      match FromUtf8(data[i..i + n]) {
        case None => return Err(BadUtf8);
        case Some(t) => return Ok((Text(t), i + n));
      }
    }
    if major == 4 {
      r := DecodeArray(data, i, n, depth);
      return;
    }
    if major == 5 {
      r := DecodeMap(data, i, n, depth);
      return;
    }
    if major == 6 {
      var inner := DecodeItem(data, i, depth + 1);
      if inner.Err? {
        return Err(inner.error);
      }
      DecodeSound(data, i, depth + 1, MAX_DEPTH);
      return Ok((Tag(n, inner.value.0, Some(data[start..inner.value.1])), inner.value.1));
    }
    var info := data[start] % 32;
    if info == 20 {
      return Ok((Bool(false), i));
    }
    if info == 21 {
      return Ok((Bool(true), i));
    }
    if info == 22 {
      return Ok((Null, i));
    }
    return Err(UnsupportedSimple);
  }

  method DecodeArray(data: bytes, start: nat, n: nat, depth: nat) returns (r: Result<(Value, nat), CborError>)
    requires depth <= MAX_DEPTH
    ensures r == match DecodeItems(data, start, n, [], depth + 1, MAX_DEPTH)
                 case Err(e) => Err(e)
                 case Ok((items, j)) => Ok((Array(items), j))
    decreases Room(depth + 1, MAX_DEPTH), 1
  {
    hide DecodeAt;
    var i := start;
    var outList: seq<Value> := [];
    var done := 0;
    while done < n
      invariant done <= n
      invariant DecodeItems(data, start, n, [], depth + 1, MAX_DEPTH)
             == DecodeItems(data, i, n - done, outList, depth + 1, MAX_DEPTH)
    {
      var item := DecodeItem(data, i, depth + 1);
      if item.Err? {
        return Err(item.error);
      }
      outList, i := outList + [item.value.0], item.value.1;
      done := done + 1;
    }
    return Ok((Array(outList), i));
  }

  method DecodeMap(data: bytes, start: nat, n: nat, depth: nat) returns (r: Result<(Value, nat), CborError>)
    requires depth <= MAX_DEPTH
    ensures r == match DecodeEntries(data, start, n, [], depth + 1, MAX_DEPTH)
                 case Err(e) => Err(e)
                 case Ok((es, j)) => Ok((Map(es), j))
    decreases Room(depth + 1, MAX_DEPTH), 1
  {
    hide DecodeAt;
    var i := start;
    var outMap: seq<Entry> := [];
    var done := 0;
    while done < n
      invariant done <= n
      invariant DecodeEntries(data, start, n, [], depth + 1, MAX_DEPTH)
             == DecodeEntries(data, i, n - done, outMap, depth + 1, MAX_DEPTH)
    {
      var key := DecodeItem(data, i, depth + 1);
      if key.Err? {
        return Err(key.error);
      }
      var val := DecodeItem(data, key.value.1, depth + 1);
      if val.Err? {
        return Err(val.error);
      }
      if !IsKey(key.value.0) {
        return Err(BadKey);
      }
      if HasKey(outMap, key.value.0) {
        return Err(DuplicateKey);
      }
      outMap, i := outMap + [Entry(key.value.0, val.value.0)], val.value.1;
      done := done + 1;
    }
    return Ok((Map(outMap), i));
  }

  /** `decode`: one item, and nothing after it. */
  method DecodeAll(data: bytes) returns (r: Result<Value, CborError>)
    ensures r == Decode(data)
  {
    hide DecodeAt;
    var item := DecodeItem(data, 0, 0);
    if item.Err? {
      return Err(item.error);
    }
    if item.value.1 != |data| {
      return Err(TrailingBytes);
    }
    return Ok(item.value.0);
  }
}

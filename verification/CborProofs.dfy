/**
 What the CBOR codec is for: encodings are self-delimiting and read back to the
 value, decoding and re-encoding is a normal form, and the bytes a decoded tag
 records are the bytes it came from.
 */
module CborProofs {
  import opened Prelude
  import opened Order
  import opened Unicode
  import opened Cbor
  import opened CborOrder

  // ----- round trip --------------------------------------------------------------------

  /** Wherever the encoding of `v` stands, decoding there returns exactly `Normal(v)` and the
      offset just after it; if and only if the nesting fits. */
  lemma {:induction false} RoundTrip(v: Value, data: bytes, i: nat, depth: nat, limit: nat)
    requires Supported(v) && Plain(v)
    requires At(data, i, Enc(v))
    ensures DecodeAt(data, i, depth, limit)
         == if depth + Height(v) <= limit then Ok((Normal(v), i + |Enc(v)|)) else Err(TooDeep)
    decreases Height(v), 2, 0
  {
    hide *;
    if IsLeaf(v) {
      LeafIsEnc(v);
      LeafRoundTrip(v, data, i, depth, limit);
    } else if depth > limit {
      TooDeepAtOnce(data, i, depth, limit);
    } else {
      match v {
        case Array(items) => RoundTripArray(items, data, i, depth, limit);
        case Map(es) => RoundTripMap(es, data, i, depth, limit);
        case Tag(t, x, raw) => RoundTripTag(t, x, raw, data, i, depth, limit);
        case Null => assert false by { NotLeaf(v); }
        case Bool(_) => assert false by { NotLeaf(v); }
        case Int(_) => assert false by { NotLeaf(v); }
        case Bytes(_) => assert false by { NotLeaf(v); }
        case Text(_) => assert false by { NotLeaf(v); }
        case Raw(_) => assert false by { NotLeaf(v); }
      }
    }
  }

  lemma LeafIsEnc(v: Value)
    requires IsLeaf(v) && Supported(v) && Plain(v)
    ensures Enc(v) == LeafBytes(v) && Normal(v) == v && Height(v) == 0 && !v.Raw?
  {
  }

  lemma NotLeaf(v: Value)
    requires !IsLeaf(v)
    ensures v.Array? || v.Map? || v.Tag?
  {
  }

  lemma TooDeepAtOnce(data: bytes, i: nat, depth: nat, limit: nat)
    requires depth > limit
    ensures DecodeAt(data, i, depth, limit) == Err(TooDeep)
  {
  }

  // One unfolding of the decoder, for each kind of container.

  lemma DecodeArrayStep(data: bytes, i: nat, depth: nat, limit: nat, n: nat, k: nat)
    requires depth <= limit && ReadHead(data, i) == Ok((4, n, k))
    ensures DecodeAt(data, i, depth, limit)
         == match DecodeItems(data, k, n, [], depth + 1, limit)
            case Err(e) => Err(e)
            case Ok((items, j)) => Ok((Array(items), j))
  {
  }

  lemma DecodeMapStep(data: bytes, i: nat, depth: nat, limit: nat, n: nat, k: nat)
    requires depth <= limit && ReadHead(data, i) == Ok((5, n, k))
    ensures DecodeAt(data, i, depth, limit)
         == match DecodeEntries(data, k, n, [], depth + 1, limit)
            case Err(e) => Err(e)
            case Ok((es, j)) => Ok((Map(es), j))
  {
  }

  lemma DecodeTagStep(data: bytes, i: nat, depth: nat, limit: nat, n: nat, k: nat)
    requires depth <= limit && ReadHead(data, i) == Ok((6, n, k))
    ensures DecodeAt(data, i, depth, limit)
         == match DecodeAt(data, k, depth + 1, limit)
            case Err(e) => Err(e)
            case Ok((x, j)) =>
              if i <= j <= |data| then Ok((Tag(n, x, Some(data[i..j])), j)) else Err(TruncatedHead)
  {
  }

  lemma {:induction false} RoundTripArray(items: seq<Value>, data: bytes, i: nat, depth: nat, limit: nat)
    requires Supported(Array(items)) && Plain(Array(items)) && depth <= limit
    requires At(data, i, Enc(Array(items)))
    ensures DecodeAt(data, i, depth, limit)
         == if depth + Height(Array(items)) <= limit
            then Ok((Normal(Array(items)), i + |Enc(Array(items))|)) else Err(TooDeep)
    decreases Height(Array(items)), 1, 0
  {
    hide Head, ReadHead, LeafBytes, DecodeAt;
    AtConcat(data, i, Head(4, |items|), EncItems(items));
    ReadHeadInverts(4, |items|, data, i);
    var k := i + |Head(4, |items|)|;
    RoundTripItems(items, [], data, k, depth + 1, limit);
    DecodeArrayStep(data, i, depth, limit, |items|, k);
    assert [] + NormalItems(items) == NormalItems(items);
  }

  /** The sorted entries are what the loop over a decoded map needs. */
  lemma SortedReady(es: seq<Entry>)
    requires Supported(Map(es)) && Plain(Map(es))
    ensures var sorted := SortEntries(es);
      && GoodEntries(sorted) && PlainEntries(sorted) && DistinctKeys(sorted)
      && |sorted| == |es| && HeightEntries(sorted) == HeightEntries(es)
  {
    hide LeafBytes, Less;
    SortedMembers(es);
    SortStrict(es);
    StrictIsDistinct(SortEntries(es));
  }

  lemma MapParts(es: seq<Entry>)
    requires Supported(Map(es)) && Plain(Map(es))
    ensures var sorted := SortEntries(es);
      && |es| < TWO64 && GoodEntries(sorted)
      && Height(Map(es)) == HeightEntries(sorted)
      && Enc(Map(es)) == Head(5, |es|) + EncEntries(sorted)
      && Normal(Map(es)) == Map(NormalEntries(sorted))
  {
    hide Head, LeafBytes, SortEntries, EncEntries, NormalEntries, Less;
    SortedReady(es);
  }

  lemma {:induction false} RoundTripMap(es: seq<Entry>, data: bytes, i: nat, depth: nat, limit: nat)
    requires Supported(Map(es)) && Plain(Map(es)) && depth <= limit
    requires At(data, i, Enc(Map(es)))
    ensures DecodeAt(data, i, depth, limit)
         == if depth + Height(Map(es)) <= limit
            then Ok((Normal(Map(es)), i + |Enc(Map(es))|)) else Err(TooDeep)
    decreases Height(Map(es)), 1, 1
  {
    hide Head, ReadHead, LeafBytes, DecodeAt, SortEntries, EncEntries, NormalEntries, Enc, Normal, Height;
    var sorted := SortEntries(es);
    SortedReady(es);
    MapParts(es);
    AtConcat(data, i, Head(5, |es|), EncEntries(sorted));
    ReadHeadInverts(5, |es|, data, i);
    var k := i + |Head(5, |es|)|;
    RoundTripSorted(sorted, data, k, depth + 1, limit);
    DecodeMapStep(data, i, depth, limit, |es|, k);
  }

  lemma {:induction false} RoundTripSorted(sorted: seq<Entry>, data: bytes, k: nat, depth: nat, limit: nat)
    requires GoodEntries(sorted) && PlainEntries(sorted) && DistinctKeys(sorted)
    requires At(data, k, EncEntries(sorted)) && depth <= limit + 1
    ensures DecodeEntries(data, k, |sorted|, [], depth, limit)
         == if depth + HeightEntries(sorted) <= limit + 1
            then Ok((NormalEntries(sorted), k + |EncEntries(sorted)|)) else Err(TooDeep)
    decreases HeightEntries(sorted), 1, 0
  {
    hide Supported, Plain, DecodeAt, DecodeEntries, NormalEntries, EncEntries, HeightEntries, IsKey, DistinctKeys;
    RoundTripEntries(sorted, [], data, k, depth, limit);
    assert [] + NormalEntries(sorted) == NormalEntries(sorted);
  }

  lemma TagFacts(t: nat, x: Value, raw: Option<bytes>)
    ensures Supported(Tag(t, x, raw)) <==> t < TWO64 && Supported(x)
    ensures Plain(Tag(t, x, raw)) <==> Plain(x)
    ensures Height(Tag(t, x, raw)) == 1 + Height(x)
    ensures Supported(Tag(t, x, raw)) ==>
      var e := Enc(Tag(t, x, raw));
      e == Head(6, t) + Enc(x) && Normal(Tag(t, x, raw)) == Tag(t, Normal(x), Some(e))
  {
  }

  lemma {:induction false} RoundTripTag(t: nat, x: Value, raw: Option<bytes>, data: bytes, i: nat, depth: nat, limit: nat)
    requires Supported(Tag(t, x, raw)) && Plain(Tag(t, x, raw)) && depth <= limit
    requires At(data, i, Enc(Tag(t, x, raw)))
    ensures DecodeAt(data, i, depth, limit)
         == if depth + Height(Tag(t, x, raw)) <= limit
            then Ok((Normal(Tag(t, x, raw)), i + |Enc(Tag(t, x, raw))|)) else Err(TooDeep)
    decreases Height(Tag(t, x, raw)), 1, 0
  {
    hide Head, ReadHead, LeafBytes, DecodeAt, Enc, Normal, Height, Supported, Plain;
    TagFacts(t, x, raw);
    AtConcat(data, i, Head(6, t), Enc(x));
    ReadHeadInverts(6, t, data, i);
    var k := i + |Head(6, t)|;
    RoundTrip(x, data, k, depth + 1, limit);
    DecodeTagStep(data, i, depth, limit, t, k);
  }

  lemma {:induction false} RoundTripItems(items: seq<Value>, acc: seq<Value>, data: bytes, i: nat, depth: nat, limit: nat)
    requires forall x | x in items :: Supported(x) && Plain(x)
    requires At(data, i, EncItems(items))
    requires depth <= limit + 1
    ensures DecodeItems(data, i, |items|, acc, depth, limit)
         == if depth + HeightItems(items) <= limit + 1
            then Ok((acc + NormalItems(items), i + |EncItems(items)|)) else Err(TooDeep)
    decreases HeightItems(items), 0, |items|
  {
    hide Supported, Plain, DecodeAt, Normal, Enc;
    if items != [] {
      var x, rest := items[0], items[1..];
      AtConcat(data, i, Enc(x), EncItems(rest));
      RoundTrip(x, data, i, depth, limit);
      if depth + Height(x) <= limit {
        RoundTripItems(rest, acc + [Normal(x)], data, i + |Enc(x)|, depth, limit);
        assert acc + [Normal(x)] + NormalItems(rest) == acc + NormalItems(items);
      }
    } else {
      assert acc + NormalItems(items) == acc;
    }
  }

  lemma DecodeEntryStep(data: bytes, i: nat, n: nat, acc: seq<Entry>, depth: nat, limit: nat, e: Entry, j: nat, k: nat)
    requires n > 0 && IsKey(e.key) && !HasKey(acc, e.key)
    requires DecodeAt(data, i, depth, limit) == Ok((e.key, j))
    requires DecodeAt(data, j, depth, limit) == Ok((e.val, k))
    ensures DecodeEntries(data, i, n, acc, depth, limit)
         == DecodeEntries(data, k, n - 1, acc + [e], depth, limit)
  {
  }

  lemma DecodeEntryTooDeep(data: bytes, i: nat, n: nat, acc: seq<Entry>, depth: nat, limit: nat)
    requires n > 0
    requires DecodeAt(data, i, depth, limit) == Err(TooDeep)
          || (DecodeAt(data, i, depth, limit).Ok?
              && DecodeAt(data, DecodeAt(data, i, depth, limit).value.1, depth, limit) == Err(TooDeep))
    ensures DecodeEntries(data, i, n, acc, depth, limit) == Err(TooDeep)
  {
  }

  lemma NormalEntriesCons(es: seq<Entry>)
    requires GoodEntries(es) && es != []
    ensures NormalEntries(es) == [Entry(es[0].key, Normal(es[0].val))] + NormalEntries(es[1..])
    ensures EncEntries(es) == LeafBytes(es[0].key) + (Enc(es[0].val) + EncEntries(es[1..]))
    ensures HeightEntries(es) == Max(1 + Max(Height(es[0].key), Height(es[0].val)), HeightEntries(es[1..]))
  {
  }

  lemma {:induction false} RoundTripEntries(es: seq<Entry>, acc: seq<Entry>, data: bytes, i: nat, depth: nat, limit: nat)
    requires GoodEntries(es) && PlainEntries(es) && DistinctKeys(es)
    requires forall a, e :: a in acc && e in es ==> a.key != e.key
    requires At(data, i, EncEntries(es))
    requires depth <= limit + 1
    ensures DecodeEntries(data, i, |es|, acc, depth, limit)
         == if depth + HeightEntries(es) <= limit + 1
            then Ok((acc + NormalEntries(es), i + |EncEntries(es)|)) else Err(TooDeep)
    decreases HeightEntries(es), 0, |es|
  {
    hide Supported, Plain, DecodeAt, Normal, Enc, LeafBytes, Height, IsKey;
    if es == [] {
      assert acc + NormalEntries(es) == acc;
    } else {
      NormalEntriesCons(es);
      hide DecodeEntries, EncEntries, NormalEntries, HeightEntries;
      var e, rest := es[0], es[1..];
      var j := i + |LeafBytes(e.key)|;
      var k := j + |Enc(e.val)|;
      AtConcat(data, i, LeafBytes(e.key), Enc(e.val) + EncEntries(rest));
      AtConcat(data, j, Enc(e.val), EncEntries(rest));
      PlainKeyIsLeaf(e.key);
      LeafRoundTrip(e.key, data, i, depth, limit);
      RoundTrip(e.val, data, j, depth, limit);
      if depth + Height(e.val) <= limit {
        var next := Entry(e.key, Normal(e.val));
        assert !HasKey(acc, e.key);
        DecodeEntryStep(data, i, |es|, acc, depth, limit, next, j, k);
        RoundTripEntries(rest, acc + [next], data, k, depth, limit);
        ConcatAssoc(acc, [next], NormalEntries(rest));
      } else {
        DecodeEntryTooDeep(data, i, |es|, acc, depth, limit);
      }
    }
  }

  lemma PlainKeyIsLeaf(k: Value)
    requires IsKey(k)
    ensures IsLeaf(k) && !k.Raw? && Height(k) == 0
  {
  }

  /** Decoding an encoding, with anything after it, gives the value and stops at its end. */
  lemma SelfDelimiting(v: Value, rest: bytes)
    requires Supported(v) && Plain(v)
    ensures DecodeAt(Enc(v) + rest, 0, 0, MAX_DEPTH)
         == if Height(v) <= MAX_DEPTH then Ok((Normal(v), |Enc(v)|)) else Err(TooDeep)
  {
    hide *;
    AtFront(Enc(v), rest);
    RoundTrip(v, Enc(v) + rest, 0, 0, MAX_DEPTH);
  }

  // ----- equality ------------------------------------------------------------------------

  /** What decoding returns equals what was encoded, types included. */
  lemma {:induction false} NormalIsSame(v: Value)
    requires Supported(v) && Plain(v)
    ensures TypedEqual(v, Normal(v))
    decreases Height(v), 2, 0
  {
    match v {
      case Array(items) =>
        hide Head, LeafBytes, Enc, SortEntries;
        NormalItemsSame(items);
      case Map(es) =>
        hide *;
        NormalMapSame(es);
      case Tag(_, x, _) =>
        hide Head, LeafBytes, Enc, SortEntries;
        NormalIsSame(x);
      case _ =>
    }
  }

  lemma {:induction false} NormalMapSame(es: seq<Entry>)
    requires Supported(Map(es)) && Plain(Map(es))
    ensures TypedEqual(Map(es), Normal(Map(es)))
    decreases Height(Map(es)), 1, 0
  {
    hide Head, LeafBytes, Enc, SortEntries, Less, NormalEntries;
    var sorted := SortEntries(es);
    SortedReady(es);
    SortedMembers(es);
    NormalEntriesSame(sorted);
    var fs := NormalEntries(sorted);
    forall e | e in es
      ensures exists f | f in fs :: e.key == f.key && TypedEqual(e.val, f.val)
    {
      assert e in sorted;
      var i :| 0 <= i < |sorted| && sorted[i] == e;
      assert fs[i] in fs;
    }
  }

  lemma {:induction false} NormalItemsSame(items: seq<Value>)
    requires forall x | x in items :: Supported(x) && Plain(x)
    ensures forall i | 0 <= i < |items| :: TypedEqual(items[i], NormalItems(items)[i])
    decreases HeightItems(items), 0, |items|
  {
    hide Supported, Plain, TypedEqual, Normal;
    if items != [] {
      NormalIsSame(items[0]);
      NormalItemsSame(items[1..]);
    }
  }

  lemma {:induction false} NormalEntriesSame(es: seq<Entry>)
    requires GoodEntries(es) && PlainEntries(es)
    ensures forall i | 0 <= i < |es| ::
      && NormalEntries(es)[i].key == es[i].key
      && TypedEqual(es[i].val, NormalEntries(es)[i].val)
    decreases HeightEntries(es), 0, |es|
  {
    hide Supported, Plain, TypedEqual, Normal, LeafBytes;
    if es != [] {
      assert Height(es[0].val) <= HeightEntry(es[0]);
      NormalIsSame(es[0].val);
      NormalEntriesSame(es[1..]);
    }
  }
}

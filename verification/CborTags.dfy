/**
 Bytes-as-received: decoding reads only the item's own bytes, so the bytes a tag
 records decode alone to that same tag; and the normal form of accepted bytes.
 */
module CborTags {
  import opened Prelude
  import opened Numerals
  import opened Unicode
  import opened Cbor
  import opened CborProofs
  import opened CborEquality
  import opened CborSound

  /** `data[i..j]` stands in `other` at offset `o`. */
  ghost predicate Mirror(data: bytes, i: nat, j: nat, other: bytes, o: nat) {
    i <= j <= |data| && At(other, o, data[i..j])
  }

  lemma MirrorPart(data: bytes, i: nat, j: nat, other: bytes, o: nat, a: nat, b: nat)
    requires Mirror(data, i, j, other, o) && i <= a <= b <= j
    ensures Mirror(data, a, b, other, o + (a - i))
  {
    SliceOfSlice(data, i, j, a - i, b - i);
    SliceOfSlice(other, o, o + (j - i), a - i, b - i);
  }

  lemma ReadHeadLocal(data: bytes, i: nat, other: bytes, o: nat)
    requires ReadHead(data, i).Ok? && Mirror(data, i, ReadHead(data, i).value.2, other, o)
    ensures var (major, n, k) := ReadHead(data, i).value;
      ReadHead(other, o) == Ok((major, n, o + (k - i))) && other[o] == data[i]
  {
    hide FromBE;
    var (major, n, k) := ReadHead(data, i).value;
    assert data[i] == data[i..k][0] == other[o..o + (k - i)][0] == other[o];
    if 24 <= data[i] % 32 {
      assert data[i + 1..k] == data[i..k][1..];
      assert other[o + 1..o + (k - i)] == other[o..o + (k - i)][1..];
    }
  }

  /** Decoding depends on nothing outside the item, and on the depth only through the limit. */
  lemma {:induction false} DecodeLocal(data: bytes, i: nat, depth: nat, limit: nat, other: bytes, o: nat, depth': nat)
    requires DecodeAt(data, i, depth, limit).Ok? && depth' <= depth
    requires Mirror(data, i, DecodeAt(data, i, depth, limit).value.1, other, o)
    ensures var (v, j) := DecodeAt(data, i, depth, limit).value;
      j >= i && DecodeAt(other, o, depth', limit) == Ok((v, o + (j - i)))
    decreases Room(depth, limit), 0, 0
  {
    hide ReadHead, DecodeAt;
    DecodeSoundBounds(data, i, depth, limit);
    DecodeReadsHead(data, i, depth, limit);
    HeadOk(data, i);
    var (v, j) := DecodeAt(data, i, depth, limit).value;
    var (major, n, k) := ReadHead(data, i).value;
    var o' := o + (k - i);
    if major == 4 {
      DecodeArrayStep(data, i, depth, limit, n, k);
      DecodeItemsSound(data, k, n, [], depth + 1, limit);
      MirrorParts(data, i, k, j, other, o);
      DecodeItemsLocal(data, k, n, [], depth + 1, limit, other, o', depth' + 1);
      DecodeArrayStep(other, o, depth', limit, n, o');
    } else if major == 5 {
      DecodeMapStep(data, i, depth, limit, n, k);
      DecodeEntriesSound(data, k, n, [], depth + 1, limit);
      MirrorParts(data, i, k, j, other, o);
      DecodeEntriesLocal(data, k, n, [], depth + 1, limit, other, o', depth' + 1);
      DecodeMapStep(other, o, depth', limit, n, o');
    } else if major == 6 {
      DecodeTagStep(data, i, depth, limit, n, k);
      DecodeSoundBounds(data, k, depth + 1, limit);
      MirrorParts(data, i, k, j, other, o);
      DecodeLocal(data, k, depth + 1, limit, other, o', depth' + 1);
      DecodeTagStep(other, o, depth', limit, n, o');
    } else {
      LeafLocal(data, i, depth, limit, other, o, depth');
    }
  }

  lemma MirrorParts(data: bytes, i: nat, k: nat, j: nat, other: bytes, o: nat)
    requires Mirror(data, i, j, other, o) && i <= k <= j
    requires ReadHead(data, i).Ok? && ReadHead(data, i).value.2 == k
    ensures Mirror(data, k, j, other, o + (k - i))
    ensures ReadHead(other, o) == Ok((ReadHead(data, i).value.0, ReadHead(data, i).value.1, o + (k - i)))
  {
    hide ReadHead;
    MirrorPart(data, i, j, other, o, i, k);
    ReadHeadLocal(data, i, other, o);
    MirrorPart(data, i, j, other, o, k, j);
  }

  lemma DecodeReadsHead(data: bytes, i: nat, depth: nat, limit: nat)
    requires DecodeAt(data, i, depth, limit).Ok?
    ensures depth <= limit && ReadHead(data, i).Ok?
    ensures ReadHead(data, i).value.2 <= DecodeAt(data, i, depth, limit).value.1
  {
    hide ReadHead, FromUtf8;
    HeadOk(data, i);
    var (major, n, k) := ReadHead(data, i).value;
    if major == 4 {
      DecodeItemsSound(data, k, n, [], depth + 1, limit);
    } else if major == 5 {
      DecodeEntriesSound(data, k, n, [], depth + 1, limit);
    } else if major == 6 {
      DecodeSoundBounds(data, k, depth + 1, limit);
    }
  }

  lemma LeafLocal(data: bytes, i: nat, depth: nat, limit: nat, other: bytes, o: nat, depth': nat)
    requires DecodeAt(data, i, depth, limit).Ok? && depth' <= depth
    requires ReadHead(data, i).Ok? && ReadHead(data, i).value.0 !in {4, 5, 6}
    requires Mirror(data, i, DecodeAt(data, i, depth, limit).value.1, other, o)
    ensures var (v, j) := DecodeAt(data, i, depth, limit).value;
      j >= i && DecodeAt(other, o, depth', limit) == Ok((v, o + (j - i)))
  {
    DecodeReadsHead(data, i, depth, limit);
    HeadOk(data, i);
    hide ReadHead, FromUtf8;
    var (v, j) := DecodeAt(data, i, depth, limit).value;
    var k := ReadHead(data, i).value.2;
    MirrorPart(data, i, j, other, o, i, k);
    ReadHeadLocal(data, i, other, o);
    MirrorPart(data, i, j, other, o, k, j);
  }

  lemma DecodeSoundBounds(data: bytes, i: nat, depth: nat, limit: nat)
    requires DecodeAt(data, i, depth, limit).Ok?
    ensures i < DecodeAt(data, i, depth, limit).value.1 <= |data|
  {
    hide *;
    DecodeSound(data, i, depth, limit);
  }

  lemma {:induction false} DecodeItemsLocal(data: bytes, i: nat, n: nat, acc: seq<Value>, depth: nat, limit: nat, other: bytes, o: nat, depth': nat)
    requires DecodeItems(data, i, n, acc, depth, limit).Ok? && depth' <= depth <= limit + 1 && i <= |data|
    requires Mirror(data, i, DecodeItems(data, i, n, acc, depth, limit).value.1, other, o)
    ensures var (items, j) := DecodeItems(data, i, n, acc, depth, limit).value;
      j >= i && DecodeItems(other, o, n, acc, depth', limit) == Ok((items, o + (j - i)))
    decreases Room(depth, limit), 1, n
  {
    hide DecodeAt, AcceptedItems;
    if n > 0 {
      var (items, j) := DecodeItems(data, i, n, acc, depth, limit).value;
      var (x, k) := DecodeAt(data, i, depth, limit).value;
      DecodeSoundBounds(data, i, depth, limit);
      DecodeItemsSound(data, k, n - 1, acc + [x], depth, limit);
      MirrorPart(data, i, j, other, o, i, k);
      DecodeLocal(data, i, depth, limit, other, o, depth');
      MirrorPart(data, i, j, other, o, k, j);
      DecodeItemsLocal(data, k, n - 1, acc + [x], depth, limit, other, o + (k - i), depth');
    }
  }

  lemma {:induction false} DecodeEntriesLocal(data: bytes, i: nat, n: nat, acc: seq<Entry>, depth: nat, limit: nat, other: bytes, o: nat, depth': nat)
    requires DecodeEntries(data, i, n, acc, depth, limit).Ok? && depth' <= depth <= limit + 1 && i <= |data|
    requires DistinctKeys(acc)
    requires Mirror(data, i, DecodeEntries(data, i, n, acc, depth, limit).value.1, other, o)
    ensures var (es, j) := DecodeEntries(data, i, n, acc, depth, limit).value;
      j >= i && DecodeEntries(other, o, n, acc, depth', limit) == Ok((es, o + (j - i)))
    decreases Room(depth, limit), 1, n
  {
    hide DecodeAt, AcceptedEntries, DistinctKeys;
    if n > 0 {
      var (es, j) := DecodeEntries(data, i, n, acc, depth, limit).value;
      var (key, k) := DecodeAt(data, i, depth, limit).value;
      var (val, l) := DecodeAt(data, k, depth, limit).value;
      var e := Entry(key, val);
      DecodeSoundBounds(data, i, depth, limit);
      DecodeSoundBounds(data, k, depth, limit);
      DistinctSnoc(acc, e);
      DecodeEntriesSound(data, l, n - 1, acc + [e], depth, limit);
      MirrorPart(data, i, j, other, o, i, k);
      DecodeLocal(data, i, depth, limit, other, o, depth');
      MirrorPart(data, i, j, other, o, k, l);
      DecodeLocal(data, k, depth, limit, other, o + (k - i), depth');
      MirrorPart(data, i, j, other, o, l, j);
      DecodeEntriesLocal(data, l, n - 1, acc + [e], depth, limit, other, o + (l - i), depth');
    }
  }

  // ----- recorded tag bytes ------------------------------------------------------------------

  /** `r` is a slice of `data`. */
  ghost predicate SliceOf(r: bytes, data: bytes) {
    exists p :: 0 <= p && At(data, p, r)
  }

  /** Every tag in `v`, at any depth, carries bytes of `data` that decode alone to that tag. */
  ghost predicate TagsRecorded(v: Value, data: bytes, limit: nat) {
    match v
    case Array(items) => forall x | x in items :: TagsRecorded(x, data, limit)
    case Map(es) => forall e | e in es :: TagsRecorded(e.key, data, limit) && TagsRecorded(e.val, data, limit)
    case Tag(_, x, raw) =>
      && raw.Some? && SliceOf(raw.value, data)
      && DecodeAt(raw.value, 0, 0, limit) == Ok((v, |raw.value|))
      && TagsRecorded(x, data, limit)
    case _ => true
  }

  lemma {:induction false} DecodeRecordsTags(data: bytes, i: nat, depth: nat, limit: nat)
    requires DecodeAt(data, i, depth, limit).Ok?
    ensures TagsRecorded(DecodeAt(data, i, depth, limit).value.0, data, limit)
    decreases Room(depth, limit), 0, 0
  {
    hide ReadHead, FromUtf8;
    DecodeSoundBounds(data, i, depth, limit);
    HeadOk(data, i);
    var (v, j) := DecodeAt(data, i, depth, limit).value;
    var (major, n, k) := ReadHead(data, i).value;
    if major == 4 {
      DecodeItemsRecordTags(data, k, n, [], depth + 1, limit);
    } else if major == 5 {
      DecodeEntriesRecordTags(data, k, n, [], depth + 1, limit);
    } else if major == 6 {
      DecodeRecordsTags(data, k, depth + 1, limit);
      TagRecorded(data, i, depth, limit);
    }
  }

  lemma TagRecorded(data: bytes, i: nat, depth: nat, limit: nat)
    requires DecodeAt(data, i, depth, limit).Ok? && DecodeAt(data, i, depth, limit).value.0.Tag?
    ensures var v := DecodeAt(data, i, depth, limit).value.0;
      && v.raw.Some? && SliceOf(v.raw.value, data)
      && DecodeAt(v.raw.value, 0, 0, limit) == Ok((v, |v.raw.value|))
  {
    var (v, j) := DecodeAt(data, i, depth, limit).value;
    DecodeSoundBounds(data, i, depth, limit);
    TagRawIs(data, i, depth, limit);
    hide DecodeAt;
    var raw := data[i..j];
    assert At(data, i, raw);
    assert raw[0..|raw|] == raw;
    DecodeLocal(data, i, depth, limit, raw, 0, 0);
  }

  lemma TagRawIs(data: bytes, i: nat, depth: nat, limit: nat)
    requires DecodeAt(data, i, depth, limit).Ok? && DecodeAt(data, i, depth, limit).value.0.Tag?
    ensures var (v, j) := DecodeAt(data, i, depth, limit).value;
      i <= j <= |data| && v.raw == Some(data[i..j])
  {
  }

  lemma {:induction false} DecodeItemsRecordTags(data: bytes, i: nat, n: nat, acc: seq<Value>, depth: nat, limit: nat)
    requires DecodeItems(data, i, n, acc, depth, limit).Ok?
    requires forall x | x in acc :: TagsRecorded(x, data, limit)
    ensures forall x | x in DecodeItems(data, i, n, acc, depth, limit).value.0 :: TagsRecorded(x, data, limit)
    decreases Room(depth, limit), 1, n
  {
    hide DecodeAt, TagsRecorded;
    if n > 0 {
      var (x, k) := DecodeAt(data, i, depth, limit).value;
      DecodeRecordsTags(data, i, depth, limit);
      DecodeItemsRecordTags(data, k, n - 1, acc + [x], depth, limit);
    }
  }

  lemma {:induction false} DecodeEntriesRecordTags(data: bytes, i: nat, n: nat, acc: seq<Entry>, depth: nat, limit: nat)
    requires DecodeEntries(data, i, n, acc, depth, limit).Ok?
    requires forall e | e in acc :: TagsRecorded(e.key, data, limit) && TagsRecorded(e.val, data, limit)
    ensures forall e | e in DecodeEntries(data, i, n, acc, depth, limit).value.0 ::
      TagsRecorded(e.key, data, limit) && TagsRecorded(e.val, data, limit)
    decreases Room(depth, limit), 1, n
  {
    hide DecodeAt, TagsRecorded;
    if n > 0 {
      var (key, k) := DecodeAt(data, i, depth, limit).value;
      var (val, l) := DecodeAt(data, k, depth, limit).value;
      DecodeRecordsTags(data, i, depth, limit);
      DecodeRecordsTags(data, k, depth, limit);
      DecodeEntriesRecordTags(data, l, n - 1, acc + [Entry(key, val)], depth, limit);
    }
  }

  // ----- the theorems --------------------------------------------------------------------------

  /** Every tag of an accepted document records a slice of it that decodes, on its own and with
      nothing left over, to the same tag. */
  lemma RecordedBytesDecodeAlone(data: bytes)
    requires Decode(data).Ok?
    ensures TagsRecorded(Decode(data).value, data, MAX_DEPTH)
  {
    hide DecodeAt, TagsRecorded;
    DecodeRecordsTags(data, 0, 0, MAX_DEPTH);
  }

  /** Re-encoding what `decode` accepted is accepted again, is equal to it and is no longer;
      decoding that gives the value in normal form, and encoding it once more changes nothing. */
  lemma ReencodeIsNormalForm(data: bytes)
    requires Decode(data).Ok?
    ensures var v := Decode(data).value;
      && Supported(v) && Plain(v)
      && Decode(Enc(v)) == Ok(Normal(v)) && TypedEqual(v, Normal(v))
      && |Enc(v)| <= |data|
      && Supported(Normal(v)) && Plain(Normal(v)) && Enc(Normal(v)) == Enc(v)
  {
    hide DecodeAt, Supported, Plain, Enc, Normal, TypedEqual;
    var v := Decode(data).value;
    DecodeSound(data, 0, 0, MAX_DEPTH);
    var bytes' := Enc(v);
    assert bytes' + [] == bytes';
    SelfDelimiting(v, []);
    NormalIsSame(v);
    DecodeSound(bytes', 0, 0, MAX_DEPTH);
    SameEncoding(v, Normal(v));
  }

  /** Accepted documents of equal value re-encode to the same bytes: however a document spelled its
      heads and ordered its maps, there is one deterministic form of it. */
  lemma NormalFormIsUnique(a: bytes, b: bytes)
    requires Decode(a).Ok? && Decode(b).Ok? && TypedEqual(Decode(a).value, Decode(b).value)
    ensures Supported(Decode(a).value) && Supported(Decode(b).value)
    ensures Enc(Decode(a).value) == Enc(Decode(b).value)
  {
    hide DecodeAt, Supported, Plain, Enc, Normal, TypedEqual;
    DecodeSound(a, 0, 0, MAX_DEPTH);
    DecodeSound(b, 0, 0, MAX_DEPTH);
    SameEncoding(Decode(a).value, Decode(b).value);
  }
}

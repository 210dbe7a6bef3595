/**
 The decoder read backwards: what it accepts, what it records on tags, and why
 re-encoding what it returns is a normal form.
 */
module CborSound {
  import opened Prelude
  import opened Order
  import opened Unicode
  import opened Cbor
  import opened CborOrder

  // ----- accepted items are in profile and re-encode no longer --------------------------------

  /** What the decoder says of an accepted item standing at `data[i..j]`. */
  ghost predicate Accepted(v: Value, consumed: int, depth: nat, limit: nat) {
    && Supported(v) && Plain(v)
    && depth + Height(v) <= limit
    && 1 <= |Enc(v)| <= consumed
  }

  lemma LeafAccepted(data: bytes, i: nat, depth: nat, limit: nat)
    requires DecodeAt(data, i, depth, limit).Ok? && IsLeaf(DecodeAt(data, i, depth, limit).value.0)
    ensures var (v, j) := DecodeAt(data, i, depth, limit).value;
      i < j <= |data| && Accepted(v, j - i, depth, limit)
  {
    hide Head, ReadHead, FromUtf8, Utf8;
    HeadIsShortest(data, i);
    var (major, n, k) := ReadHead(data, i).value;
    HeadOk(data, i);
    if major == 3 {
      FromUtf8Sound(data[k..k + n]);
    }
  }

  lemma HeadOk(data: bytes, i: nat)
    requires ReadHead(data, i).Ok?
    ensures var (major, n, k) := ReadHead(data, i).value; i < k <= |data| && n < TWO64 && major < 8
  {
  }

  lemma {:induction false} DecodeSound(data: bytes, i: nat, depth: nat, limit: nat)
    requires DecodeAt(data, i, depth, limit).Ok?
    ensures var (v, j) := DecodeAt(data, i, depth, limit).value;
      i < j <= |data| && Accepted(v, j - i, depth, limit)
    decreases Room(depth, limit), 0, 0
  {
    hide Head, ReadHead, FromUtf8, Utf8, Supported, Plain, Enc, Height;
    var (v, j) := DecodeAt(data, i, depth, limit).value;
    if IsLeaf(v) {
      LeafAccepted(data, i, depth, limit);
    } else {
      HeadIsShortest(data, i);
      HeadOk(data, i);
      var (major, n, k) := ReadHead(data, i).value;
      if major == 4 {
        DecodeItemsSound(data, k, n, [], depth + 1, limit);
        ArrayAccepted(v.items, n, k - i, j - k, depth, limit);
      } else if major == 5 {
        DecodeEntriesSound(data, k, n, [], depth + 1, limit);
        MapAccepted(v.entries, n, k - i, j - k, depth, limit);
      } else {
        DecodeSound(data, k, depth + 1, limit);
        TagAccepted(v.tag, v.value, v.raw, k - i, j - k, depth, limit);
      }
    }
  }

  lemma TagAccepted(t: nat, x: Value, raw: Option<bytes>, head: nat, body: int, depth: nat, limit: nat)
    requires t < TWO64 && |Head(6, t)| <= head && Accepted(x, body, depth + 1, limit)
    ensures Accepted(Tag(t, x, raw), head + body, depth, limit)
  {
  }

  lemma ArrayAccepted(items: seq<Value>, n: nat, head: nat, body: int, depth: nat, limit: nat)
    requires n < TWO64 && |items| == n && |Head(4, n)| <= head && depth <= limit
    requires AcceptedItems(items, body, depth + 1, limit)
    ensures Accepted(Array(items), head + body, depth, limit)
  {
  }

  lemma MapAccepted(es: seq<Entry>, n: nat, head: nat, body: int, depth: nat, limit: nat)
    requires n < TWO64 && |es| == n && |Head(5, n)| <= head && depth <= limit
    requires AcceptedEntries(es, body, depth + 1, limit) && DistinctKeys(es)
    ensures Accepted(Map(es), head + body, depth, limit)
  {
    hide Head, LeafBytes, Less, SortEntries, EncEntries;
    SortedLength(es);
    EncMap(es);
  }

  lemma EncMap(es: seq<Entry>)
    requires Supported(Map(es))
    ensures GoodEntries(SortEntries(es))
    ensures Enc(Map(es)) == Head(5, |es|) + EncEntries(SortEntries(es))
  {
    hide Head, LeafBytes, Less, SortEntries, EncEntries;
    SortedMembers(es);
  }

  ghost predicate AcceptedItems(items: seq<Value>, consumed: int, depth: nat, limit: nat) {
    && (forall x | x in items :: Supported(x) && Plain(x))
    && depth + HeightItems(items) <= limit + 1
    && |EncItems(items)| <= consumed
  }

  ghost predicate AcceptedEntries(es: seq<Entry>, consumed: int, depth: nat, limit: nat) {
    && GoodEntries(es) && PlainEntries(es)
    && depth + HeightEntries(es) <= limit + 1
    && |EncEntries(es)| <= consumed
  }

  lemma AcceptedItemsCons(x: Value, rest: seq<Value>, a: int, b: int, depth: nat, limit: nat)
    requires Accepted(x, a, depth, limit) && AcceptedItems(rest, b, depth, limit)
    ensures AcceptedItems([x] + rest, a + b, depth, limit)
  {
    hide Supported, Plain, Enc, Height;
    var items := [x] + rest;
    assert items[0] == x && items[1..] == rest;
  }

  lemma AcceptedEntriesCons(e: Entry, rest: seq<Entry>, a: int, b: int, c: int, depth: nat, limit: nat)
    requires IsKey(e.key) && Accepted(e.key, a, depth, limit) && Accepted(e.val, b, depth, limit)
    requires AcceptedEntries(rest, c, depth, limit)
    ensures AcceptedEntries([e] + rest, a + b + c, depth, limit)
  {
    KeyEnc(e.key);
    hide Supported, Plain, Enc, Height, LeafBytes;
    var es := [e] + rest;
    assert es[0] == e && es[1..] == rest;
    assert GoodEntries(es);
    assert PlainEntries(es);
    assert depth + HeightEntries(es) <= limit + 1;
    assert |EncEntries(es)| <= a + b + c;
  }

  lemma KeyEnc(k: Value)
    requires IsKey(k) && Supported(k)
    ensures Enc(k) == LeafBytes(k)
  {
  }

  lemma {:induction false} DecodeItemsSound(data: bytes, i: nat, n: nat, acc: seq<Value>, depth: nat, limit: nat)
    requires DecodeItems(data, i, n, acc, depth, limit).Ok? && depth <= limit + 1 && i <= |data|
    ensures var (items, j) := DecodeItems(data, i, n, acc, depth, limit).value;
      && i <= j <= |data| && |items| == |acc| + n && items[..|acc|] == acc
      && AcceptedItems(items[|acc|..], j - i, depth, limit)
    decreases Room(depth, limit), 1, n
  {
    hide DecodeAt, Accepted, Supported, Plain, Enc, Height;
    var (items, j) := DecodeItems(data, i, n, acc, depth, limit).value;
    if n > 0 {
      var (x, k) := DecodeAt(data, i, depth, limit).value;
      DecodeSound(data, i, depth, limit);
      DecodeItemsSound(data, k, n - 1, acc + [x], depth, limit);
      var rest := items[|acc| + 1..];
      AcceptedItemsCons(x, rest, k - i, j - k, depth, limit);
      assert items[|acc|] == items[..|acc| + 1][|acc|] == x;
      assert items[|acc|..] == [x] + rest;
      assert items[..|acc|] == items[..|acc| + 1][..|acc|] == acc;
    }
  }

  lemma DistinctSnoc(es: seq<Entry>, e: Entry)
    requires DistinctKeys(es) && !HasKey(es, e.key)
    ensures DistinctKeys(es + [e])
  {
    forall i, j | 0 <= i < j < |es + [e]|
      ensures (es + [e])[i].key != (es + [e])[j].key
    {
      if j == |es| { assert es[i] in es; }
    }
  }

  lemma {:induction false} DecodeEntriesSound(data: bytes, i: nat, n: nat, acc: seq<Entry>, depth: nat, limit: nat)
    requires DecodeEntries(data, i, n, acc, depth, limit).Ok? && depth <= limit + 1 && i <= |data|
    requires DistinctKeys(acc)
    ensures var (es, j) := DecodeEntries(data, i, n, acc, depth, limit).value;
      && i <= j <= |data| && |es| == |acc| + n && es[..|acc|] == acc && DistinctKeys(es)
      && AcceptedEntries(es[|acc|..], j - i, depth, limit)
    decreases Room(depth, limit), 1, n
  {
    hide DecodeAt, Accepted, Supported, Plain, Enc, Height, LeafBytes, IsKey, DistinctKeys;
    var (es, j) := DecodeEntries(data, i, n, acc, depth, limit).value;
    if n > 0 {
      var (key, k) := DecodeAt(data, i, depth, limit).value;
      var (val, l) := DecodeAt(data, k, depth, limit).value;
      var e := Entry(key, val);
      DecodeSound(data, i, depth, limit);
      DecodeSound(data, k, depth, limit);
      DistinctSnoc(acc, e);
      DecodeEntriesSound(data, l, n - 1, acc + [e], depth, limit);
      var rest := es[|acc| + 1..];
      AcceptedEntriesCons(e, rest, k - i, l - k, j - l, depth, limit);
      assert es[|acc|] == es[..|acc| + 1][|acc|] == e;
      assert es[|acc|..] == [e] + rest;
      assert es[..|acc|] == es[..|acc| + 1][..|acc|] == acc;
    }
  }

  lemma {:induction false} InsertLength(e: Entry, es: seq<Entry>)
    requires GoodEntries([e]) && GoodEntries(es)
    ensures GoodEntries(InsertEntry(e, es))
    ensures |EncEntries(InsertEntry(e, es))| == |LeafBytes(e.key)| + |Enc(e.val)| + |EncEntries(es)|
  {
    hide Supported, IsKey, LeafBytes, Less, Enc;
    assert [e][0] == e && [e][1..] == [];
    assert e in [e];
    var r := InsertEntry(e, es);
    if es == [] {
    } else if Less(LeafBytes(e.key), LeafBytes(es[0].key)) {
      assert r[1..] == es;
    } else {
      InsertLength(e, es[1..]);
      assert r[0] == es[0] && r[1..] == InsertEntry(e, es[1..]);
    }
  }

  /** Sorting the entries does not change how many bytes they take. */
  lemma {:induction false} SortedLength(es: seq<Entry>)
    requires GoodEntries(es)
    ensures GoodEntries(SortEntries(es))
    ensures |EncEntries(SortEntries(es))| == |EncEntries(es)|
  {
    hide Supported, IsKey, LeafBytes, Less, Enc;
    SortedMembers(es);
    if es != [] {
      SortedLength(es[1..]);
      InsertLength(es[0], SortEntries(es[1..]));
    }
  }
}

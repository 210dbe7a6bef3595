/**
 Pre-encoded parts: an item kept as the exact bytes it arrived in can be put back
 into a new value without changing a byte of the encoding.
 */
module CborRaw {
  import opened Order
  import opened Cbor

  /** `w` is `v` with some of its parts replaced by their own encoding (`CborRaw`). */
  ghost predicate Spliced(v: Value, w: Value)
    requires Supported(v)
  {
    || w == Raw(Enc(v))
    || match (v, w)
       case (Array(xs), Array(ys)) => |xs| == |ys| && forall i | 0 <= i < |xs| :: Spliced(xs[i], ys[i])
       case (Map(es), Map(fs)) =>
         |es| == |fs| && forall i | 0 <= i < |es| :: es[i].key == fs[i].key && Spliced(es[i].val, fs[i].val)
       case (Tag(t, x, _), Tag(u, y, _)) => t == u && Spliced(x, y)
       case _ => v == w
  }

  ghost predicate SplicedEntry(e: Entry, f: Entry)
    requires Supported(e.val)
  {
    e.key == f.key && Spliced(e.val, f.val)
  }

  ghost predicate SplicedEntries(es: seq<Entry>, fs: seq<Entry>)
    requires GoodEntries(es)
  {
    |es| == |fs| && forall i | 0 <= i < |es| :: SplicedEntry(es[i], fs[i])
  }

  lemma {:induction false} InsertAlike(e: Entry, f: Entry, es: seq<Entry>, fs: seq<Entry>)
    requires GoodEntries(es) && GoodEntries(fs) && SplicedEntries(es, fs)
    requires IsKey(e.key) && Supported(e.key) && Supported(e.val) && Supported(f.val) && SplicedEntry(e, f)
    ensures GoodEntries(InsertEntry(e, es)) && GoodEntries(InsertEntry(f, fs))
    ensures SplicedEntries(InsertEntry(e, es), InsertEntry(f, fs))
    decreases |es|
  {
    hide Supported, Spliced, LeafBytes, Less, IsKey;
    if es != [] {
      assert SplicedEntry(es[0], fs[0]);
      if !Less(LeafBytes(e.key), LeafBytes(es[0].key)) {
        assert forall i :: 0 <= i < |es| - 1 ==> es[1..][i] == es[i + 1] && fs[1..][i] == fs[i + 1];
        InsertAlike(e, f, es[1..], fs[1..]);
        PrependAlike(es[0], fs[0], InsertEntry(e, es[1..]), InsertEntry(f, fs[1..]));
      } else {
        PrependAlike(e, f, es, fs);
      }
    } else {
      PrependAlike(e, f, [], []);
      assert [e] + [] == [e] && [f] + [] == [f];
    }
  }

  lemma GoodPrepend(e: Entry, es: seq<Entry>)
    requires GoodEntries(es) && IsKey(e.key) && Supported(e.key) && Supported(e.val)
    ensures GoodEntries([e] + es)
  {
    hide Supported, IsKey;
  }

  lemma PrependAlike(e: Entry, f: Entry, es: seq<Entry>, fs: seq<Entry>)
    requires GoodEntries(es) && GoodEntries(fs) && SplicedEntries(es, fs)
    requires IsKey(e.key) && Supported(e.key) && Supported(e.val) && Supported(f.val) && SplicedEntry(e, f)
    ensures GoodEntries([e] + es) && GoodEntries([f] + fs) && SplicedEntries([e] + es, [f] + fs)
  {
    assert e.key == f.key;
    GoodPrepend(e, es);
    GoodPrepend(f, fs);
    hide Supported, Spliced, IsKey, SplicedEntry, GoodEntries;
    var r, s := [e] + es, [f] + fs;
    forall i | 0 <= i < |r|
      ensures SplicedEntry(r[i], s[i])
    {
      if i > 0 { assert r[i] == es[i - 1] && s[i] == fs[i - 1] && SplicedEntry(es[i - 1], fs[i - 1]); }
    }
  }

  /** Values do not decide where an entry is sorted to. */
  lemma {:induction false} SortAlike(es: seq<Entry>, fs: seq<Entry>)
    requires GoodEntries(es) && GoodEntries(fs) && SplicedEntries(es, fs)
    ensures GoodEntries(SortEntries(es)) && GoodEntries(SortEntries(fs))
    ensures SplicedEntries(SortEntries(es), SortEntries(fs))
    decreases |es|
  {
    hide Supported, Spliced, IsKey, LeafBytes, Less;
    if es != [] {
      assert forall i :: 0 <= i < |es| - 1 ==> es[1..][i] == es[i + 1] && fs[1..][i] == fs[i + 1];
      SortAlike(es[1..], fs[1..]);
      InsertAlike(es[0], fs[0], SortEntries(es[1..]), SortEntries(fs[1..]));
    }
  }

  /** Splicing pre-encoded parts into a value, anywhere in it, leaves its encoding as it was. */
  lemma {:induction false} SplicingKeepsEncoding(v: Value, w: Value)
    requires Supported(v) && Supported(w) && Spliced(v, w)
    ensures Enc(w) == Enc(v)
    decreases Height(v), 1, 0
  {
    hide Head, SortEntries;
    if w != Raw(Enc(v)) {
      match (v, w) {
        case (Array(xs), Array(ys)) => ItemsKeepEncoding(xs, ys);
        case (Map(es), Map(fs)) =>
          MapReady(es, fs);
          SortAlike(es, fs);
          SortedMembers(es);
          SortedMembers(fs);
          EntriesKeepEncoding(SortEntries(es), SortEntries(fs));
        case (Tag(_, x, _), Tag(_, y, _)) => SplicingKeepsEncoding(x, y);
        case _ =>
      }
    }
  }

  lemma MapReady(es: seq<Entry>, fs: seq<Entry>)
    requires Supported(Map(es)) && Supported(Map(fs)) && |es| == |fs|
    requires forall i | 0 <= i < |es| :: es[i].key == fs[i].key && Spliced(es[i].val, fs[i].val)
    ensures GoodEntries(es) && GoodEntries(fs) && SplicedEntries(es, fs)
  {
    hide Spliced, Enc;
  }

  lemma {:induction false} ItemsKeepEncoding(xs: seq<Value>, ys: seq<Value>)
    requires (forall x | x in xs :: Supported(x)) && (forall y | y in ys :: Supported(y))
    requires |xs| == |ys| && forall i | 0 <= i < |xs| :: Spliced(xs[i], ys[i])
    ensures EncItems(ys) == EncItems(xs)
    decreases HeightItems(xs), 0, |xs|
  {
    hide Supported, Spliced, Enc;
    if xs != [] {
      SplicingKeepsEncoding(xs[0], ys[0]);
      ItemsKeepEncoding(xs[1..], ys[1..]);
    }
  }

  lemma {:induction false} EntriesKeepEncoding(es: seq<Entry>, fs: seq<Entry>)
    requires GoodEntries(es) && GoodEntries(fs) && SplicedEntries(es, fs)
    ensures EncEntries(fs) == EncEntries(es)
    decreases HeightEntries(es), 0, |es|
  {
    hide Supported, Spliced, Enc, LeafBytes;
    if es != [] {
      assert SplicedEntry(es[0], fs[0]);
      assert Height(es[0].val) <= HeightEntry(es[0]);
      SplicingKeepsEncoding(es[0].val, fs[0].val);
      assert forall i :: 0 <= i < |es| - 1 ==> es[1..][i] == es[i + 1] && fs[1..][i] == fs[i + 1];
      EntriesKeepEncoding(es[1..], fs[1..]);
    }
  }
}

/**
 Heads, keys and the deterministic member order of CBOR maps.
 */
module CborOrder {
  import opened Prelude
  import opened Order
  import opened Numerals
  import opened Unicode
  import opened Cbor

  // ----- heads -----------------------------------------------------------------------

  lemma HeadInfo(major: nat, n: nat)
    requires major < 8 && n < TWO64
    ensures Head(major, n)[0] / 32 == major
    ensures n < 24 ==> Head(major, n) == [Head(major, n)[0]] && Head(major, n)[0] % 32 == n
    ensures 24 <= n ==>
      var info := Head(major, n)[0] % 32;
      && 24 <= info <= 27
      && |Head(major, n)| == 1 + ArgumentWidth(info)
      && Head(major, n)[1..] == ToBE(n, ArgumentWidth(info))
      && n < Pow256(ArgumentWidth(info))
  {
    PowersOf256();
  }

  lemma ReadLongHead(data: bytes, i: nat, h: bytes)
    requires h != [] && 24 <= h[0] % 32 <= 27
    requires |h| == 1 + ArgumentWidth(h[0] % 32) && At(data, i, h)
    ensures ReadHead(data, i) == Ok((h[0] / 32, FromBE(h[1..]), i + |h|))
  {
    assert data[i..i + |h|][0] == data[i];
    assert data[i + 1..i + |h|] == data[i..i + |h|][1..];
  }

  /** Reading a head back gives the major type and the argument. */
  lemma ReadHeadInverts(major: nat, n: nat, data: bytes, i: nat)
    requires major < 8 && n < TWO64
    requires At(data, i, Head(major, n))
    ensures ReadHead(data, i) == Ok((major, n, i + |Head(major, n)|))
  {
    var h := Head(major, n);
    HeadInfo(major, n);
    if 24 <= n {
      ReadLongHead(data, i, h);
      FromToBE(n, ArgumentWidth(h[0] % 32));
    } else {
      assert data[i..i + 1][0] == data[i];
    }
  }

  /** No head that reads as the same argument is shorter than the one written. */
  lemma HeadIsShortest(data: bytes, i: nat)
    requires ReadHead(data, i).Ok?
    ensures var (major, n, k) := ReadHead(data, i).value;
      major < 8 && |Head(major, n)| <= k - i
  {
    var info := data[i] % 32;
    if 24 <= info {
      var argument := data[i + 1..i + 1 + ArgumentWidth(info)];
      ToFromBE(argument);
      PowersOf256();
    }
  }

  // ----- keys -------------------------------------------------------------------------

  lemma StringRoundTrip(major: nat, body: bytes, data: bytes, i: nat)
    requires major < 8 && |body| < TWO64
    requires At(data, i, Head(major, |body|) + body)
    ensures var k := i + |Head(major, |body|)|;
      && ReadHead(data, i) == Ok((major, |body|, k))
      && k + |body| <= |data| && data[k..k + |body|] == body
  {
    hide Head, ReadHead;
    AtConcat(data, i, Head(major, |body|), body);
    ReadHeadInverts(major, |body|, data, i);
  }

  lemma SimpleRoundTrip(v: Value, b: byte, data: bytes, i: nat, depth: nat, limit: nat)
    requires (v == Null && b == 0xF6) || (v == Bool(true) && b == 0xF5) || (v == Bool(false) && b == 0xF4)
    requires At(data, i, [b]) && depth <= limit
    ensures DecodeAt(data, i, depth, limit) == Ok((v, i + 1))
  {
    assert data[i] == data[i..i + 1][0];
  }

  /** A leaf decodes to itself wherever its bytes stand. */
  lemma LeafRoundTrip(v: Value, data: bytes, i: nat, depth: nat, limit: nat)
    requires IsLeaf(v) && !v.Raw? && Supported(v)
    requires At(data, i, LeafBytes(v))
    ensures DecodeAt(data, i, depth, limit)
         == if depth <= limit then Ok((v, i + |LeafBytes(v)|)) else Err(TooDeep)
  {
    if depth <= limit {
      LeafRoundTripInside(v, data, i, depth, limit);
    }
  }

  lemma TextRoundTrip(t: Text, data: bytes, i: nat, depth: nat, limit: nat)
    requires |Utf8(t)| < TWO64 && depth <= limit
    requires At(data, i, Head(3, |Utf8(t)|) + Utf8(t))
    ensures DecodeAt(data, i, depth, limit)
         == Ok((Text(t), i + |Head(3, |Utf8(t)|) + Utf8(t)|))
  {
    hide Head, ReadHead, Utf8, FromUtf8;
    StringRoundTrip(3, Utf8(t), data, i);
    FromUtf8Inverts(t);
  }

  lemma BytesRoundTrip(d: bytes, data: bytes, i: nat, depth: nat, limit: nat)
    requires |d| < TWO64 && depth <= limit
    requires At(data, i, Head(2, |d|) + d)
    ensures DecodeAt(data, i, depth, limit) == Ok((Bytes(d), i + |Head(2, |d|) + d|))
  {
    hide Head, ReadHead;
    StringRoundTrip(2, d, data, i);
  }

  lemma IntRoundTrip(n: int, data: bytes, i: nat, depth: nat, limit: nat)
    requires Supported(Int(n)) && depth <= limit
    requires At(data, i, LeafBytes(Int(n)))
    ensures DecodeAt(data, i, depth, limit) == Ok((Int(n), i + |LeafBytes(Int(n))|))
  {
    hide Head, ReadHead;
    if n < 0 { ReadHeadInverts(1, -1 - n, data, i); } else { ReadHeadInverts(0, n, data, i); }
  }

  lemma LeafRoundTripInside(v: Value, data: bytes, i: nat, depth: nat, limit: nat)
    requires IsLeaf(v) && !v.Raw? && Supported(v)
    requires At(data, i, LeafBytes(v)) && depth <= limit
    ensures DecodeAt(data, i, depth, limit) == Ok((v, i + |LeafBytes(v)|))
  {
    hide Head, ReadHead, Utf8, DecodeAt;
    match v {
      case Null => SimpleRoundTrip(v, 0xF6, data, i, depth, limit);
      case Bool(b) => SimpleRoundTrip(v, if b then 0xF5 else 0xF4, data, i, depth, limit);
      case Int(n) => IntRoundTrip(n, data, i, depth, limit);
      case Bytes(d) => BytesRoundTrip(d, data, i, depth, limit);
      case Text(t) => TextRoundTrip(t, data, i, depth, limit);
    }
  }

  lemma KeyBytesInjective(k: Value, l: Value)
    requires IsKey(k) && IsKey(l) && Supported(k) && Supported(l)
    requires LeafBytes(k) == LeafBytes(l)
    ensures k == l
  {
    AtFront(LeafBytes(k), []);
    assert LeafBytes(k) + [] == LeafBytes(k);
    LeafRoundTrip(k, LeafBytes(k), 0, 0, 0);
    LeafRoundTrip(l, LeafBytes(k), 0, 0, 0);
  }

  // ----- order -------------------------------------------------------------------------

  ghost predicate StrictKeys(es: seq<Entry>)
    requires GoodKeys(es)
  {
    forall i, j :: 0 <= i < j < |es| ==> Less(LeafBytes(es[i].key), LeafBytes(es[j].key))
  }

  lemma StrictPrepend(e: Entry, es: seq<Entry>)
    requires IsKey(e.key) && Supported(e.key) && GoodKeys(es) && StrictKeys(es)
    requires forall f :: f in es ==> Less(LeafBytes(e.key), LeafBytes(f.key))
    ensures GoodKeys([e] + es) && StrictKeys([e] + es)
  {
    var r := [e] + es;
    forall i, j | 0 <= i < j < |r|
      ensures Less(LeafBytes(r[i].key), LeafBytes(r[j].key))
    {
      assert r[j] == es[j - 1] && r[j] in es;
    }
  }

  lemma StrictHeadBelow(es: seq<Entry>, f: Entry)
    requires GoodKeys(es) && StrictKeys(es) && es != [] && f in es[1..]
    ensures Less(LeafBytes(es[0].key), LeafBytes(f.key))
  {
    var m :| 0 <= m < |es[1..]| && es[1..][m] == f;
    assert es[m + 1] == f;
  }

  lemma BelowHead(e: Entry, es: seq<Entry>)
    requires IsKey(e.key) && Supported(e.key) && GoodKeys(es) && StrictKeys(es)
    requires es != [] && Less(LeafBytes(e.key), LeafBytes(es[0].key))
    ensures forall f :: f in es ==> Less(LeafBytes(e.key), LeafBytes(f.key))
  {
    forall f | f in es
      ensures Less(LeafBytes(e.key), LeafBytes(f.key))
    {
      if f != es[0] {
        assert f in es[1..];
        StrictHeadBelow(es, f);
        LessTransitive(LeafBytes(e.key), LeafBytes(es[0].key), LeafBytes(f.key));
      }
    }
  }

  lemma {:induction false} InsertStrict(e: Entry, es: seq<Entry>)
    requires IsKey(e.key) && Supported(e.key) && GoodKeys(es) && StrictKeys(es)
    requires forall f :: f in es ==> f.key != e.key
    ensures forall f :: f in InsertEntry(e, es) ==> f == e || f in es
    ensures GoodKeys(InsertEntry(e, es)) && StrictKeys(InsertEntry(e, es))
  {
    if es != [] {
      var ke, k0 := LeafBytes(e.key), LeafBytes(es[0].key);
      if Less(ke, k0) {
        BelowHead(e, es);
        StrictPrepend(e, es);
      } else {
        assert Less(k0, ke) by {
          LessTotal(ke, k0);
          if ke == k0 { KeyBytesInjective(e.key, es[0].key); }
        }
        var rest := InsertEntry(e, es[1..]);
        InsertStrict(e, es[1..]);
        forall f | f in rest
          ensures Less(k0, LeafBytes(f.key))
        {
          if f != e { StrictHeadBelow(es, f); }
        }
        StrictPrepend(es[0], rest);
      }
    }
  }

  /** Section 4.2.1 of RFC 8949: the keys of an encoded map strictly increase as bytes. */
  lemma {:induction false} SortStrict(es: seq<Entry>)
    requires GoodKeys(es) && DistinctKeys(es)
    ensures StrictKeys(SortEntries(es))
  {
    if es != [] {
      var rest := SortEntries(es[1..]);
      SortStrict(es[1..]);
      SortedMembers(es[1..]);
      forall f | f in rest
        ensures f.key != es[0].key
      {
        assert f in es[1..];
      }
      InsertStrict(es[0], rest);
    }
  }

  lemma StrictIsDistinct(es: seq<Entry>)
    requires GoodKeys(es) && StrictKeys(es)
    ensures DistinctKeys(es)
  {
    forall i, j | 0 <= i < j < |es|
      ensures es[i].key != es[j].key
    {
      LessIrreflexive(LeafBytes(es[i].key));
    }
  }

  function KeyBytes(es: seq<Entry>): (ks: seq<bytes>)
    requires GoodKeys(es)
    ensures |ks| == |es| && forall i :: 0 <= i < |es| ==> es[i] in es && ks[i] == LeafBytes(es[i].key)
  {
    assert forall i :: 0 <= i < |es| ==> es[i] in es;
    seq(|es|, i requires 0 <= i < |es| => LeafBytes(es[i].key))
  }

  /** A strictly sorted arrangement of given entries is unique. */
  lemma StrictUnique(r: seq<Entry>, s: seq<Entry>)
    requires GoodKeys(r) && GoodKeys(s) && StrictKeys(r) && StrictKeys(s)
    requires multiset(r) == multiset(s)
    ensures r == s
  {
    hide LeafBytes, Less, Supported, IsKey;
    SameMembers(r, s);
    var ks, ls := KeyBytes(r), KeyBytes(s);
    forall i | 0 <= i < |r|
      ensures ks[i] in ls
    {
      var j :| 0 <= j < |s| && s[j] == r[i];
      assert ls[j] == ks[i];
    }
    IncreasingEqual(ks, ls);
    StrictIsDistinct(s);
    forall i | 0 <= i < |r|
      ensures r[i] == s[i]
    {
      var j :| 0 <= j < |s| && s[j] == r[i];
      KeyBytesInjective(s[i].key, s[j].key);
    }
  }

  /** Sorting does not depend on the order the entries were inserted in. */
  lemma SortIgnoresOrder(es: seq<Entry>, fs: seq<Entry>)
    requires GoodKeys(es) && DistinctKeys(es) && GoodKeys(fs) && DistinctKeys(fs)
    requires multiset(es) == multiset(fs)
    ensures SortEntries(es) == SortEntries(fs)
  {
    SortStrict(es);
    SortStrict(fs);
    StrictUnique(SortEntries(es), SortEntries(fs));
  }
}

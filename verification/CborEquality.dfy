/**
 The encoding decides equality: two values have the same encoding exactly when they
 are equal and of the same types, whatever order their maps were filled in. Python's
 own `==` also takes True for 1, which encode differently; the last section says
 exactly how far it agrees with the encoding.
 */
module CborEquality {
  import opened Prelude
  import opened Order
  import opened Cbor
  import opened CborOrder
  import opened CborProofs

  // ----- matching up sorted entries ------------------------------------------------------

  predicate Matches(e: Entry, f: Entry) {
    e.key == f.key && TypedEqual(e.val, f.val)
  }

  predicate Covered(es: seq<Entry>, fs: seq<Entry>) {
    forall e | e in es :: exists f | f in fs :: Matches(e, f)
  }

  /** Strictly sorted entries that match each other match position by position. */
  lemma PairUp(r: seq<Entry>, s: seq<Entry>)
    requires GoodKeys(r) && GoodKeys(s) && StrictKeys(r) && StrictKeys(s)
    requires |r| == |s| && Covered(r, s)
    ensures forall i | 0 <= i < |r| :: Matches(r[i], s[i])
  {
    hide Supported, IsKey, LeafBytes, Less, TypedEqual;
    var ks, ls := KeyBytes(r), KeyBytes(s);
    forall i | 0 <= i < |ks|
      ensures ks[i] in ls
    {
      assert r[i] in r;
      var f :| f in s && Matches(r[i], f);
      var j :| 0 <= j < |s| && s[j] == f;
      assert ls[j] == ks[i];
    }
    IncreasingEqual(ks, ls);
    StrictIsDistinct(s);
    forall i | 0 <= i < |r|
      ensures Matches(r[i], s[i])
    {
      assert r[i] in r;
      var f :| f in s && Matches(r[i], f);
      assert LeafBytes(s[i].key) == ks[i];
      KeyBytesInjective(r[i].key, s[i].key);
    }
  }

  lemma PairUpSorted(es: seq<Entry>, fs: seq<Entry>)
    requires GoodKeys(es) && DistinctKeys(es) && GoodKeys(fs) && DistinctKeys(fs)
    requires |es| == |fs| && Covered(es, fs)
    ensures |SortEntries(es)| == |SortEntries(fs)|
    ensures forall i | 0 <= i < |SortEntries(es)| :: Matches(SortEntries(es)[i], SortEntries(fs)[i])
  {
    hide Supported, IsKey, LeafBytes, Less, TypedEqual, SortEntries;
    SortedMembers(es);
    SortedMembers(fs);
    SortStrict(es);
    SortStrict(fs);
    assert Covered(SortEntries(es), SortEntries(fs));
    PairUp(SortEntries(es), SortEntries(fs));
  }

  // ----- equal values encode equally -------------------------------------------------------

  lemma {:induction false} SameEncoding(v: Value, w: Value)
    requires Supported(v) && Plain(v) && Supported(w) && Plain(w)
    requires TypedEqual(v, w)
    ensures Enc(v) == Enc(w) && Normal(v) == Normal(w)
    decreases Height(v), 1, 0
  {
    hide Head, LeafBytes;
    match (v, w) {
      case (Array(xs), Array(ys)) => SameItemsEncoding(xs, ys);
      case (Map(es), Map(fs)) =>
        assert Covered(es, fs);
        PairUpSorted(es, fs);
        SortedReady(es);
        SortedReady(fs);
        SameEntriesEncoding(SortEntries(es), SortEntries(fs));
      case (Tag(_, x, _), Tag(_, y, _)) => SameEncoding(x, y);
      case _ =>
    }
  }

  lemma {:induction false} SameItemsEncoding(xs: seq<Value>, ys: seq<Value>)
    requires forall x | x in xs :: Supported(x) && Plain(x)
    requires forall y | y in ys :: Supported(y) && Plain(y)
    requires |xs| == |ys| && forall i | 0 <= i < |xs| :: TypedEqual(xs[i], ys[i])
    ensures EncItems(xs) == EncItems(ys) && NormalItems(xs) == NormalItems(ys)
    decreases HeightItems(xs), 0, |xs|
  {
    hide Supported, Plain, TypedEqual, Normal, Enc;
    if xs != [] {
      SameEncoding(xs[0], ys[0]);
      SameItemsEncoding(xs[1..], ys[1..]);
    }
  }

  lemma {:induction false} SameEntriesEncoding(es: seq<Entry>, fs: seq<Entry>)
    requires GoodEntries(es) && PlainEntries(es) && GoodEntries(fs) && PlainEntries(fs)
    requires |es| == |fs| && forall i | 0 <= i < |es| :: Matches(es[i], fs[i])
    ensures EncEntries(es) == EncEntries(fs) && NormalEntries(es) == NormalEntries(fs)
    decreases HeightEntries(es), 0, |es|
  {
    hide Supported, Plain, TypedEqual, Normal, Enc, LeafBytes;
    if es != [] {
      assert Matches(es[0], fs[0]);
      assert Height(es[0].val) <= HeightEntry(es[0]);
      SameEncoding(es[0].val, fs[0].val);
      SameEntriesEncoding(es[1..], fs[1..]);
    }
  }

  // ----- equal normal forms come from equal values -------------------------------------------

  lemma {:induction false} SameFromNormal(v: Value, w: Value)
    requires Supported(v) && Plain(v) && Supported(w) && Plain(w)
    requires Normal(v) == Normal(w)
    ensures TypedEqual(v, w)
    decreases Height(v), 2, 0
  {
    hide Head, LeafBytes, Enc, SortEntries;
    match (v, w) {
      case (Array(xs), Array(ys)) => SameItemsFromNormal(xs, ys);
      case (Map(es), Map(fs)) => SameMapFromNormal(es, fs);
      case (Tag(_, x, _), Tag(_, y, _)) => SameFromNormal(x, y);
      case _ =>
    }
  }

  lemma {:induction false} SameMapFromNormal(es: seq<Entry>, fs: seq<Entry>)
    requires Supported(Map(es)) && Plain(Map(es)) && Supported(Map(fs)) && Plain(Map(fs))
    requires Normal(Map(es)) == Normal(Map(fs))
    ensures TypedEqual(Map(es), Map(fs))
    decreases Height(Map(es)), 1, 0
  {
    hide Head, LeafBytes, Enc, SortEntries, Less, NormalEntries;
    var r, s := SortEntries(es), SortEntries(fs);
    SortedReady(es);
    SortedReady(fs);
    SortedMembers(es);
    SortedMembers(fs);
    SameEntriesFromNormal(r, s);
    forall e | e in es
      ensures exists f | f in fs :: e.key == f.key && TypedEqual(e.val, f.val)
    {
      assert e in r;
      var i :| 0 <= i < |r| && r[i] == e;
      assert Matches(r[i], s[i]) && s[i] in s;
    }
  }

  lemma {:induction false} SameItemsFromNormal(xs: seq<Value>, ys: seq<Value>)
    requires forall x | x in xs :: Supported(x) && Plain(x)
    requires forall y | y in ys :: Supported(y) && Plain(y)
    requires NormalItems(xs) == NormalItems(ys)
    ensures |xs| == |ys| && forall i | 0 <= i < |xs| :: TypedEqual(xs[i], ys[i])
    decreases HeightItems(xs), 0, |xs|
  {
    hide Supported, Plain, TypedEqual, Normal, Enc;
    assert |xs| == |ys|;
    if xs != [] {
      assert NormalItems(xs)[0] == Normal(xs[0]) && NormalItems(ys)[0] == Normal(ys[0]);
      assert NormalItems(xs)[1..] == NormalItems(xs[1..]);
      assert NormalItems(ys)[1..] == NormalItems(ys[1..]);
      SameFromNormal(xs[0], ys[0]);
      SameItemsFromNormal(xs[1..], ys[1..]);
    }
  }

  lemma {:induction false} SameEntriesFromNormal(es: seq<Entry>, fs: seq<Entry>)
    requires GoodEntries(es) && PlainEntries(es) && GoodEntries(fs) && PlainEntries(fs)
    requires NormalEntries(es) == NormalEntries(fs)
    ensures |es| == |fs| && forall i | 0 <= i < |es| :: Matches(es[i], fs[i])
    decreases HeightEntries(es), 0, |es|
  {
    hide Supported, Plain, TypedEqual, Normal, Enc, LeafBytes;
    assert |es| == |fs|;
    if es != [] {
      assert NormalEntries(es)[0] == Entry(es[0].key, Normal(es[0].val));
      assert NormalEntries(fs)[0] == Entry(fs[0].key, Normal(fs[0].val));
      assert NormalEntries(es)[1..] == NormalEntries(es[1..]);
      assert NormalEntries(fs)[1..] == NormalEntries(fs[1..]);
      assert Height(es[0].val) <= HeightEntry(es[0]);
      SameFromNormal(es[0].val, fs[0].val);
      SameEntriesFromNormal(es[1..], fs[1..]);
    }
  }

  // ----- the theorems -------------------------------------------------------------------------

  /** No proper extension of an encoding starts another one: the encodings are prefix-free,
      and the value and the remainder are both determined. */
  lemma PrefixFree(v: Value, w: Value, restV: bytes, restW: bytes)
    requires Supported(v) && Plain(v) && Supported(w) && Plain(w)
    requires Enc(v) + restV == Enc(w) + restW
    ensures TypedEqual(v, w) && Enc(v) == Enc(w) && restV == restW
  {
    hide *;
    var data := Enc(v) + restV;
    var limit := Height(v) + Height(w);
    AtFront(Enc(v), restV);
    AtFront(Enc(w), restW);
    RoundTrip(v, data, 0, 0, limit);
    RoundTrip(w, data, 0, 0, limit);
    SameFromNormal(v, w);
    SameEncoding(v, w);
    assert restV == data[|Enc(v)|..];
    assert restW == data[|Enc(w)|..];
  }

  /** Two values encode to the same bytes if and only if they are equal, types included. */
  lemma EncodingDecidesEquality(v: Value, w: Value)
    requires Supported(v) && Plain(v) && Supported(w) && Plain(w)
    ensures Enc(v) == Enc(w) <==> TypedEqual(v, w)
  {
    hide *;
    if Enc(v) == Enc(w) {
      PrefixFree(v, w, [], []);
    }
    if TypedEqual(v, w) {
      SameEncoding(v, w);
    }
  }

  /** A map encodes to the same bytes whatever order its entries were inserted in. */
  lemma InsertionOrderIrrelevant(es: seq<Entry>, fs: seq<Entry>)
    requires Supported(Map(es)) && Supported(Map(fs)) && multiset(es) == multiset(fs)
    ensures Enc(Map(es)) == Enc(Map(fs))
  {
    hide Head, LeafBytes, SortEntries, Less;
    SameMembers(es, fs);
    SortIgnoresOrder(es, fs);
  }

  // ----- Python's own equality -----------------------------------------------------------------

  /** Python's `==`: as `TypedEqual`, but True equals 1 and False equals 0. Keys are never bools. */
  predicate PyEqual(v: Value, w: Value) {
    match (v, w)
    case (Bool(b), Int(i)) => i == if b then 1 else 0
    case (Int(i), Bool(b)) => i == if b then 1 else 0
    case (Array(xs), Array(ys)) =>
      |xs| == |ys| && forall i | 0 <= i < |xs| :: PyEqual(xs[i], ys[i])
    case (Map(es), Map(fs)) =>
      |es| == |fs| && forall e | e in es :: exists f | f in fs :: e.key == f.key && PyEqual(e.val, f.val)
    case (Tag(t, x, _), Tag(u, y, _)) => t == u && PyEqual(x, y)
    case _ => IsLeaf(v) && v == w
  }

  /** No bool anywhere. */
  predicate NoBools(v: Value) {
    match v
    case Bool(_) => false
    case Array(items) => forall x | x in items :: NoBools(x)
    case Map(es) => forall e | e in es :: NoBools(e.val)
    case Tag(_, x, _) => NoBools(x)
    case _ => true
  }

  /** No bool, and no 0 or 1 either, outside keys and tag numbers: nothing Python equates with a
      value of another type. */
  predicate OneSpelling(v: Value) {
    match v
    case Bool(_) => false
    case Int(i) => i != 0 && i != 1
    case Array(items) => forall x | x in items :: OneSpelling(x)
    case Map(es) => forall e | e in es :: OneSpelling(e.val)
    case Tag(_, x, _) => OneSpelling(x)
    case _ => true
  }

  lemma {:induction false} TypedIsPyEqual(v: Value, w: Value)
    requires TypedEqual(v, w)
    ensures PyEqual(v, w)
    decreases v, 1
  {
    match v {
      case Array(xs) =>
        forall i | 0 <= i < |xs|
          ensures PyEqual(xs[i], w.items[i])
        {
          TypedIsPyEqual(xs[i], w.items[i]);
        }
      case Map(_) => TypedMapIsPyEqual(v, w);
      case Tag(_, x, _) => TypedIsPyEqual(x, w.value);
      case _ =>
    }
  }

  lemma {:induction false} TypedMapIsPyEqual(v: Value, w: Value)
    requires TypedEqual(v, w) && v.Map?
    ensures PyEqual(v, w)
    decreases v, 0
  {
    assert w.Map? && |v.entries| == |w.entries|;
    forall e | e in v.entries
      ensures exists f | f in w.entries :: e.key == f.key && PyEqual(e.val, f.val)
    {
      var f :| f in w.entries && e.key == f.key && TypedEqual(e.val, f.val);
      hide PyEqual;
      TypedIsPyEqual(e.val, f.val);
    }
    hide TypedEqual;
  }

  lemma {:induction false} PyEqualIsTyped(v: Value, w: Value)
    requires PyEqual(v, w)
    requires OneSpelling(v) || (NoBools(v) && NoBools(w))
    ensures TypedEqual(v, w)
  {
    match v {
      case Array(xs) =>
        forall i | 0 <= i < |xs|
          ensures TypedEqual(xs[i], w.items[i])
        {
          assert xs[i] in xs && w.items[i] in w.items;
          PyEqualIsTyped(xs[i], w.items[i]);
        }
      case Map(es) =>
        forall e | e in es
          ensures exists f | f in w.entries :: e.key == f.key && TypedEqual(e.val, f.val)
        {
          var f :| f in w.entries && e.key == f.key && PyEqual(e.val, f.val);
          PyEqualIsTyped(e.val, f.val);
        }
      case Tag(_, x, _) => PyEqualIsTyped(x, w.value);
      case _ =>
    }
  }

  /** Every bool as its number and every 0 or 1 as its bool, keys and tag numbers apart. */
  function Twin(v: Value): Value {
    match v
    case Bool(b) => Int(if b then 1 else 0)
    case Int(i) => if i == 0 then Bool(false) else if i == 1 then Bool(true) else v
    case Array(items) => Array(seq(|items|, i requires 0 <= i < |items| => Twin(items[i])))
    case Map(es) => Map(seq(|es|, i requires 0 <= i < |es| => Entry(es[i].key, Twin(es[i].val))))
    case Tag(t, x, raw) => Tag(t, Twin(x), raw)
    case _ => v
  }

  lemma {:induction false} TwinIsSupported(v: Value)
    requires Supported(v) && Plain(v)
    ensures Supported(Twin(v)) && Plain(Twin(v))
  {
    match v {
      case Array(items) =>
        forall i | 0 <= i < |items|
          ensures Supported(Twin(v).items[i]) && Plain(Twin(v).items[i])
        {
          assert items[i] in items;
          TwinIsSupported(items[i]);
        }
      case Map(es) =>
        forall i | 0 <= i < |es|
          ensures Supported(Twin(v).entries[i].val) && Plain(Twin(v).entries[i].val)
          ensures IsKey(Twin(v).entries[i].key) && Supported(Twin(v).entries[i].key) && Plain(Twin(v).entries[i].key)
        {
          assert es[i] in es;
          TwinIsSupported(es[i].val);
        }
      case Tag(_, x, _) => TwinIsSupported(x);
      case _ =>
    }
  }

  lemma {:induction false} TwinIsPyEqual(v: Value)
    requires Plain(v)
    ensures PyEqual(v, Twin(v))
  {
    match v {
      case Array(items) =>
        forall i | 0 <= i < |items|
          ensures PyEqual(items[i], Twin(v).items[i])
        {
          assert items[i] in items;
          TwinIsPyEqual(items[i]);
        }
      case Map(es) =>
        forall e | e in es
          ensures exists f | f in Twin(v).entries :: e.key == f.key && PyEqual(e.val, f.val)
        {
          var i :| 0 <= i < |es| && es[i] == e;
          TwinIsPyEqual(e.val);
          assert Twin(v).entries[i] in Twin(v).entries;
        }
      case Tag(_, x, _) => TwinIsPyEqual(x);
      case _ =>
    }
  }

  lemma {:induction false} TwinIsOther(v: Value)
    requires Supported(v) && !OneSpelling(v)
    ensures !TypedEqual(v, Twin(v))
  {
    match v {
      case Array(items) =>
        var x :| x in items && !OneSpelling(x);
        var i :| 0 <= i < |items| && items[i] == x;
        TwinIsOther(x);
        assert !TypedEqual(items[i], Twin(v).items[i]);
      case Map(es) =>
        var e :| e in es && !OneSpelling(e.val);
        var i :| 0 <= i < |es| && es[i] == e;
        TwinIsOther(e.val);
        forall f | f in Twin(v).entries
          ensures !(e.key == f.key && TypedEqual(e.val, f.val))
        {
          var j :| 0 <= j < |es| && Twin(v).entries[j] == f;
          if j != i { assert es[i].key != es[j].key; }
        }
      case Tag(_, x, _) => TwinIsOther(x);
      case _ =>
    }
  }

  /** Without bools the bytes decide Python's `==` as it stands. */
  lemma EncodingDecidesPyEqual(v: Value, w: Value)
    requires Supported(v) && Plain(v) && Supported(w) && Plain(w)
    requires NoBools(v) && NoBools(w)
    ensures Enc(v) == Enc(w) <==> PyEqual(v, w)
  {
    EncodingDecidesEquality(v, w);
    if TypedEqual(v, w) { TypedIsPyEqual(v, w); }
    if PyEqual(v, w) { PyEqualIsTyped(v, w); }
    hide *;
  }

  /** With them, a value's bytes are shared by everything Python equates with it if and only if it
      holds no bool and no 0 or 1 outside its keys. */
  lemma EqualValuesShareBytes(v: Value)
    requires Supported(v) && Plain(v)
    ensures (forall w | Supported(w) && Plain(w) && PyEqual(v, w) :: Enc(w) == Enc(v)) <==> OneSpelling(v)
  {
    hide Enc, TypedEqual, Supported, Plain, PyEqual, OneSpelling, Twin;
    if OneSpelling(v) {
      forall w | Supported(w) && Plain(w) && PyEqual(v, w)
        ensures Enc(w) == Enc(v)
      {
        PyEqualIsTyped(v, w);
        EncodingDecidesEquality(v, w);
      }
    } else {
      TwinIsSupported(v);
      TwinIsPyEqual(v);
      TwinIsOther(v);
      EncodingDecidesEquality(v, Twin(v));
    }
  }

  /** The pair that tells the two equalities apart. */
  lemma TrueIsNotOne()
    ensures PyEqual(Bool(true), Int(1)) && Enc(Bool(true)) != Enc(Int(1))
  {
  }
}

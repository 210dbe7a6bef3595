/**
 The profile's grammar, stated without the decoder: which octets spell which value.
 The decoder accepts exactly the documents the grammar spells within the depth limit,
 shortest form or not, members in any order.
 */
module CborGrammar {
  import opened Prelude
  import opened Numerals
  import opened Unicode
  import opened Cbor
  import opened CborOrder
  import opened CborProofs
  import opened CborSound

  // ----- the grammar ---------------------------------------------------------------------

  /** A head of the major type with the argument n: in the initial octet below 24, or in the 1, 2, 4
      or 8 octets after it (section 3 of RFC 8949). Nothing asks for the shortest. */
  predicate IsHead(head: bytes, major: nat, n: nat) {
    || (n < 24 && |head| == 1 && head[0] == 32 * major + n)
    || (|head| == 2 && head[0] == 32 * major + 24 && FromBE(head[1..]) == n)
    || (|head| == 3 && head[0] == 32 * major + 25 && FromBE(head[1..]) == n)
    || (|head| == 5 && head[0] == 32 * major + 26 && FromBE(head[1..]) == n)
    || (|head| == 9 && head[0] == 32 * major + 27 && FromBE(head[1..]) == n)
  }

  /** The octets spell the value: integers, byte strings, UTF-8 text, arrays, maps whose keys are
      distinct integers, byte strings or texts, tags that record their own octets, and the three
      simple values. */
  ghost predicate Spells(b: bytes, v: Value)
    decreases v, 0
  {
    match v
    case Null => b == [0xF6]
    case Bool(x) => b == if x then [0xF5] else [0xF4]
    case Int(i) => if i >= 0 then IsHead(b, 0, i) else IsHead(b, 1, -1 - i)
    case Bytes(d) => exists k | 0 <= k <= |b| :: IsHead(b[..k], 2, |d|) && b[k..] == d
    case Text(t) => exists k | 0 <= k <= |b| :: IsHead(b[..k], 3, |b| - k) && b[k..] == Utf8(t)
    case Array(items) => exists k | 0 <= k <= |b| :: IsHead(b[..k], 4, |items|) && SpellsItems(b[k..], items)
    case Map(es) =>
      && (forall e | e in es :: e.key.Int? || e.key.Bytes? || e.key.Text?)
      && (forall i, j :: 0 <= i < j < |es| ==> es[i].key != es[j].key)
      && exists k | 0 <= k <= |b| :: IsHead(b[..k], 5, |es|) && SpellsEntries(b[k..], es)
    case Tag(t, x, raw) =>
      raw == Some(b) && exists k | 0 <= k <= |b| :: IsHead(b[..k], 6, t) && Spells(b[k..], x)
    case Raw(_) => false
  }

  ghost predicate SpellsItems(b: bytes, items: seq<Value>)
    decreases items, 1
  {
    if items == [] then b == []
    else exists k | 0 <= k <= |b| :: Spells(b[..k], items[0]) && SpellsItems(b[k..], items[1..])
  }

  ghost predicate SpellsEntry(b: bytes, e: Entry)
    decreases e, 1
  {
    exists k | 0 <= k <= |b| :: Spells(b[..k], e.key) && Spells(b[k..], e.val)
  }

  ghost predicate SpellsEntries(b: bytes, es: seq<Entry>)
    decreases es, 2
  {
    if es == [] then b == []
    else exists k | 0 <= k <= |b| :: SpellsEntry(b[..k], es[0]) && SpellsEntries(b[k..], es[1..])
  }

  // ----- heads -----------------------------------------------------------------------------

  lemma HeadIsRead(head: bytes, major: nat, n: nat, data: bytes, i: nat)
    requires major < 8 && IsHead(head, major, n) && At(data, i, head)
    ensures i < |data| && data[i] == head[0]
    ensures ReadHead(data, i) == Ok((major, n, i + |head|))
  {
    hide FromBE;
    assert data[i] == data[i..i + |head|][0];
    if |head| > 1 {
      assert data[i + 1..i + |head|] == data[i..i + |head|][1..];
    }
  }

  lemma HeadWasRead(data: bytes, i: nat)
    requires ReadHead(data, i).Ok?
    ensures var (major, n, k) := ReadHead(data, i).value;
      major < 8 && i < k <= |data| && IsHead(data[i..k], major, n)
  {
    hide FromBE;
    var (major, n, k) := ReadHead(data, i).value;
    if k > i + 1 {
      assert data[i..k][1..] == data[i + 1..k];
    }
  }

  /** Two pieces one after the other. */
  lemma Cut<T>(data: seq<T>, i: nat, b: seq<T>, k: nat)
    requires At(data, i, b) && k <= |b|
    ensures At(data, i, b[..k]) && At(data, i + k, b[k..])
  {
    assert b[..k] + b[k..] == b;
    AtConcat(data, i, b[..k], b[k..]);
  }

  // ----- what is spelled is read ---------------------------------------------------------------

  lemma SpelledStringIsRead(b: bytes, k: nat, v: Value, data: bytes, i: nat, depth: nat, limit: nat)
    requires k <= |b| && At(data, i, b) && depth <= limit
    requires (v.Bytes? && IsHead(b[..k], 2, |v.data|) && b[k..] == v.data)
          || (v.Text? && IsHead(b[..k], 3, |b| - k) && b[k..] == Utf8(v.text))
    ensures DecodeAt(data, i, depth, limit) == Ok((v, i + |b|))
  {
    hide IsHead, ReadHead, FromUtf8, Utf8, DecodeItems, DecodeEntries;
    Cut(data, i, b, k);
    HeadIsRead(b[..k], if v.Bytes? then 2 else 3, |b| - k, data, i);
    assert data[i + k..i + |b|] == b[k..];
    if v.Text? { FromUtf8Inverts(v.text); }
  }

  lemma SpelledIntIsRead(b: bytes, n: int, data: bytes, i: nat, depth: nat, limit: nat)
    requires Spells(b, Int(n)) && At(data, i, b) && depth <= limit
    ensures DecodeAt(data, i, depth, limit) == Ok((Int(n), i + |b|))
  {
    hide IsHead, ReadHead, FromUtf8, Utf8, DecodeItems, DecodeEntries;
    HeadIsRead(b, if n >= 0 then 0 else 1, if n >= 0 then n else -1 - n, data, i);
  }

  lemma SpelledLeafIsRead(b: bytes, v: Value, data: bytes, i: nat, depth: nat, limit: nat)
    requires IsLeaf(v) && Spells(b, v) && At(data, i, b) && depth <= limit
    ensures DecodeAt(data, i, depth, limit) == Ok((v, i + |b|))
  {
    hide IsHead, DecodeAt, Utf8, At, SpellsItems, SpellsEntries;
    match v {
      case Null => SimpleRoundTrip(v, 0xF6, data, i, depth, limit);
      case Bool(x) => SimpleRoundTrip(v, if x then 0xF5 else 0xF4, data, i, depth, limit);
      case Int(n) => SpelledIntIsRead(b, n, data, i, depth, limit);
      case Bytes(d) =>
        var k :| 0 <= k <= |b| && IsHead(b[..k], 2, |d|) && b[k..] == d;
        SpelledStringIsRead(b, k, v, data, i, depth, limit);
      case Text(t) =>
        var k :| 0 <= k <= |b| && IsHead(b[..k], 3, |b| - k) && b[k..] == Utf8(t);
        SpelledStringIsRead(b, k, v, data, i, depth, limit);
    }
  }

  lemma {:induction false} SpelledIsRead(b: bytes, v: Value, data: bytes, i: nat, depth: nat, limit: nat)
    requires Spells(b, v) && At(data, i, b) && depth + Height(v) <= limit
    ensures DecodeAt(data, i, depth, limit) == Ok((v, i + |b|))
    decreases v, 0
  {
    hide *;
    var k := Opened(b, v);
    if !IsLeaf(v) {
      Cut(data, i, b, k);
      HeadIsRead(b[..k], if v.Array? then 4 else if v.Map? then 5 else 6,
                 if v.Array? then |v.items| else if v.Map? then |v.entries| else v.tag, data, i);
      HeightOfContainer(v);
    }
    match v {
      case Array(items) =>
        SpelledItemsAreRead(b[k..], items, [], data, i + k, depth + 1, limit);
        assert [] + items == items;
        DecodeArrayStep(data, i, depth, limit, |items|, i + k);
      case Map(es) =>
        MapKeys(b, es);
        SpelledEntriesAreRead(b[k..], es, [], data, i + k, depth + 1, limit);
        assert [] + es == es;
        DecodeMapStep(data, i, depth, limit, |es|, i + k);
      case Tag(t, x, _) =>
        SpelledIsRead(b[k..], x, data, i + k, depth + 1, limit);
        DecodeTagStep(data, i, depth, limit, t, i + k);
        Stands(data, i, b);
      case _ => SpelledLeafIsRead(b, v, data, i, depth, limit);
    }
  }

  /** Where a container's head ends. */
  lemma Opened(b: bytes, v: Value) returns (k: nat)
    requires Spells(b, v)
    ensures IsLeaf(v) <==> !(v.Array? || v.Map? || v.Tag?)
    ensures k <= |b|
    ensures v.Array? ==> IsHead(b[..k], 4, |v.items|) && SpellsItems(b[k..], v.items)
    ensures v.Map? ==> IsHead(b[..k], 5, |v.entries|) && SpellsEntries(b[k..], v.entries)
    ensures v.Tag? ==> IsHead(b[..k], 6, v.tag) && Spells(b[k..], v.value) && v.raw == Some(b)
  {
    hide IsHead, SpellsItems, SpellsEntries;
    k := 0;
    match v {
      case Array(items) => k :| 0 <= k <= |b| && IsHead(b[..k], 4, |items|) && SpellsItems(b[k..], items);
      case Map(es) => k :| 0 <= k <= |b| && IsHead(b[..k], 5, |es|) && SpellsEntries(b[k..], es);
      case Tag(t, x, _) => k :| 0 <= k <= |b| && IsHead(b[..k], 6, t) && Spells(b[k..], x);
      case _ =>
    }
  }

  lemma HeightOfContainer(v: Value)
    requires v.Array? || v.Map? || v.Tag?
    ensures v.Array? ==> Height(v) == HeightItems(v.items)
    ensures v.Map? ==> Height(v) == HeightEntries(v.entries)
    ensures v.Tag? ==> Height(v) == 1 + Height(v.value)
  {
  }

  lemma MapKeys(b: bytes, es: seq<Entry>)
    requires Spells(b, Map(es))
    ensures DistinctKeys(es) && forall e | e in es :: IsKey(e.key)
  {
    hide SpellsEntries, IsHead;
  }

  lemma Stands<T>(data: seq<T>, i: nat, b: seq<T>)
    requires At(data, i, b)
    ensures i + |b| <= |data| && data[i..i + |b|] == b
  {
  }

  lemma {:induction false} SpelledItemsAreRead(b: bytes, items: seq<Value>, acc: seq<Value>, data: bytes, i: nat, depth: nat, limit: nat)
    requires SpellsItems(b, items) && At(data, i, b) && depth + HeightItems(items) <= limit + 1
    ensures DecodeItems(data, i, |items|, acc, depth, limit) == Ok((acc + items, i + |b|))
    decreases items, 1
  {
    hide Spells, DecodeAt, Height;
    if items == [] {
      assert acc + items == acc;
    } else {
      var k :| 0 <= k <= |b| && Spells(b[..k], items[0]) && SpellsItems(b[k..], items[1..]);
      Cut(data, i, b, k);
      SpelledIsRead(b[..k], items[0], data, i, depth, limit);
      SpelledItemsAreRead(b[k..], items[1..], acc + [items[0]], data, i + k, depth, limit);
      assert acc + [items[0]] + items[1..] == acc + items;
    }
  }

  lemma {:induction false} SpelledEntryIsRead(b: bytes, e: Entry, data: bytes, i: nat, depth: nat, limit: nat) returns (k: nat)
    requires SpellsEntry(b, e) && At(data, i, b) && depth + HeightEntry(e) <= limit
    ensures DecodeAt(data, i, depth, limit) == Ok((e.key, k))
    ensures DecodeAt(data, k, depth, limit) == Ok((e.val, i + |b|))
    decreases e, 1
  {
    hide Spells, DecodeAt, Height;
    var j :| 0 <= j <= |b| && Spells(b[..j], e.key) && Spells(b[j..], e.val);
    Cut(data, i, b, j);
    SpelledIsRead(b[..j], e.key, data, i, depth, limit);
    SpelledIsRead(b[j..], e.val, data, i + j, depth, limit);
    k := i + j;
  }

  lemma {:induction false} SpelledEntriesAreRead(b: bytes, es: seq<Entry>, acc: seq<Entry>, data: bytes, i: nat, depth: nat, limit: nat)
    requires SpellsEntries(b, es) && At(data, i, b) && depth + HeightEntries(es) <= limit + 1
    requires DistinctKeys(es) && forall e | e in es :: IsKey(e.key)
    requires forall a, e :: a in acc && e in es ==> a.key != e.key
    ensures DecodeEntries(data, i, |es|, acc, depth, limit) == Ok((acc + es, i + |b|))
    decreases es, 2
  {
    hide SpellsEntry, DecodeAt, HeightEntry, At, IsKey;
    if es == [] {
      assert acc + es == acc;
    } else {
      var k :| 0 <= k <= |b| && SpellsEntry(b[..k], es[0]) && SpellsEntries(b[k..], es[1..]);
      hide SpellsEntries, DecodeEntries;
      Cut(data, i, b, k);
      var j := SpelledEntryIsRead(b[..k], es[0], data, i, depth, limit);
      assert !HasKey(acc, es[0].key);
      DecodeEntryStep(data, i, |es|, acc, depth, limit, es[0], j, i + k);
      SpelledEntriesAreRead(b[k..], es[1..], acc + [es[0]], data, i + k, depth, limit);
      assert acc + [es[0]] + es[1..] == acc + es;
    }
  }

  // ----- what is read was spelled --------------------------------------------------------------

  lemma LeafWasSpelled(data: bytes, i: nat, depth: nat, limit: nat)
    requires DecodeAt(data, i, depth, limit).Ok? && IsLeaf(DecodeAt(data, i, depth, limit).value.0)
    ensures var (v, j) := DecodeAt(data, i, depth, limit).value; i < j <= |data| && Spells(data[i..j], v)
  {
    hide IsHead, ReadHead, FromUtf8, Utf8, DecodeItems, DecodeEntries;
    var (v, j) := DecodeAt(data, i, depth, limit).value;
    HeadWasRead(data, i);
    var (major, n, k) := ReadHead(data, i).value;
    var b := data[i..j];
    assert b[..k - i] == data[i..k] && b[k - i..] == data[k..j];
    if major == 3 {
      FromUtf8Sound(data[k..j]);
    } else if v.Null? || v.Bool? {
      SimpleWasSpelled(data, i, depth, limit);
    } else if v.Int? {
      assert b[..k - i] == b;
    }
  }

  lemma SimpleWasSpelled(data: bytes, i: nat, depth: nat, limit: nat)
    requires DecodeAt(data, i, depth, limit).Ok?
    requires var v := DecodeAt(data, i, depth, limit).value.0; v.Null? || v.Bool?
    ensures var (v, j) := DecodeAt(data, i, depth, limit).value; j == i + 1 && i < |data| && Spells(data[i..j], v)
  {
    assert data[i] / 32 == 7 && data[i] % 32 < 24;
    assert data[i..i + 1] == [data[i]];
  }

  lemma {:induction false} ReadWasSpelled(data: bytes, i: nat, depth: nat, limit: nat)
    requires DecodeAt(data, i, depth, limit).Ok?
    ensures var (v, j) := DecodeAt(data, i, depth, limit).value;
      i < j <= |data| && Spells(data[i..j], v)
    decreases Room(depth, limit), 0, 0
  {
    hide IsHead, ReadHead, FromUtf8, Utf8, Spells, DecodeItems, DecodeEntries;
    var (v, j) := DecodeAt(data, i, depth, limit).value;
    if IsLeaf(v) {
      LeafWasSpelled(data, i, depth, limit);
    } else {
      HeadWasRead(data, i);
      var (major, n, k) := ReadHead(data, i).value;
      if major == 4 {
        ItemsWereSpelled(data, k, n, [], depth + 1, limit);
        assert v.items[0..] == v.items;
      } else if major == 5 {
        EntriesWereSpelled(data, k, n, [], depth + 1, limit);
        assert v.entries[0..] == v.entries;
      } else {
        ReadWasSpelled(data, k, depth + 1, limit);
      }
      ContainerSpelled(data, i, k, j, v);
    }
  }

  /** A head and the content after it. */
  lemma ContainerSpelled(data: bytes, i: nat, k: nat, j: nat, v: Value)
    requires i <= k <= j <= |data|
    requires match v
      case Array(items) => IsHead(data[i..k], 4, |items|) && SpellsItems(data[k..j], items)
      case Map(es) =>
        && IsHead(data[i..k], 5, |es|) && SpellsEntries(data[k..j], es)
        && DistinctKeys(es) && forall e | e in es :: IsKey(e.key)
      case Tag(t, x, raw) => IsHead(data[i..k], 6, t) && Spells(data[k..j], x) && raw == Some(data[i..j])
      case _ => false
    ensures Spells(data[i..j], v)
  {
    hide IsHead, SpellsItems, SpellsEntries;
    var b := data[i..j];
    assert b[..k - i] == data[i..k] && b[k - i..] == data[k..j];
  }

  lemma {:induction false} ItemsWereSpelled(data: bytes, i: nat, n: nat, acc: seq<Value>, depth: nat, limit: nat)
    requires DecodeItems(data, i, n, acc, depth, limit).Ok? && i <= |data|
    ensures var (items, j) := DecodeItems(data, i, n, acc, depth, limit).value;
      && i <= j <= |data| && |items| == |acc| + n && items[..|acc|] == acc
      && SpellsItems(data[i..j], items[|acc|..])
    decreases Room(depth, limit), 1, n
  {
    hide Spells, DecodeAt;
    var (items, j) := DecodeItems(data, i, n, acc, depth, limit).value;
    if n == 0 {
      assert items[|acc|..] == [] && data[i..j] == [];
    } else {
      var (x, k) := DecodeAt(data, i, depth, limit).value;
      ReadWasSpelled(data, i, depth, limit);
      ItemsWereSpelled(data, k, n - 1, acc + [x], depth, limit);
      ItemsTail(items, acc, x);
      assert data[i..j][..k - i] == data[i..k] && data[i..j][k - i..] == data[k..j];
    }
  }

  lemma ItemsTail<T>(items: seq<T>, acc: seq<T>, x: T)
    requires |acc| < |items| && items[..|acc| + 1] == acc + [x]
    ensures items[..|acc|] == acc
    ensures items[|acc|..] != [] && items[|acc|..][0] == x && items[|acc|..][1..] == items[|acc + [x]|..]
  {
    assert items[|acc|] == items[..|acc| + 1][|acc|];
    assert items[..|acc|] == items[..|acc| + 1][..|acc|];
  }

  lemma {:induction false} EntriesWereSpelled(data: bytes, i: nat, n: nat, acc: seq<Entry>, depth: nat, limit: nat)
    requires DecodeEntries(data, i, n, acc, depth, limit).Ok? && i <= |data|
    requires DistinctKeys(acc) && forall e | e in acc :: IsKey(e.key)
    ensures var (es, j) := DecodeEntries(data, i, n, acc, depth, limit).value;
      && i <= j <= |data| && |es| == |acc| + n && es[..|acc|] == acc
      && DistinctKeys(es) && (forall e | e in es :: IsKey(e.key))
      && SpellsEntries(data[i..j], es[|acc|..])
    decreases Room(depth, limit), 1, n
  {
    hide SpellsEntry, DecodeAt, DistinctKeys, IsKey;
    var (es, j) := DecodeEntries(data, i, n, acc, depth, limit).value;
    if n == 0 {
      assert es[|acc|..] == [] && data[i..j] == [];
    } else {
      var (key, l) := DecodeAt(data, i, depth, limit).value;
      var (val, k) := DecodeAt(data, l, depth, limit).value;
      var e := Entry(key, val);
      ReadWasSpelled(data, i, depth, limit);
      ReadWasSpelled(data, l, depth, limit);
      EntryWasSpelled(data, i, l, k, e);
      DistinctSnoc(acc, e);
      EntriesWereSpelled(data, k, n - 1, acc + [e], depth, limit);
      ItemsTail(es, acc, e);
      assert data[i..j][..k - i] == data[i..k] && data[i..j][k - i..] == data[k..j];
    }
  }

  lemma EntryWasSpelled(data: bytes, i: nat, l: nat, k: nat, e: Entry)
    requires i <= l <= k <= |data| && Spells(data[i..l], e.key) && Spells(data[l..k], e.val)
    ensures SpellsEntry(data[i..k], e)
  {
    hide Spells;
    assert data[i..k][..l - i] == data[i..l] && data[i..k][l - i..] == data[l..k];
  }

  // ----- the decoder -----------------------------------------------------------------------------

  /** The decoder accepts exactly the documents the grammar spells, nested at most 64 deep, and
      returns the value they spell: strict about everything else, lenient about head length and
      member order. */
  lemma DecodesExactly(data: bytes, v: Value)
    ensures Decode(data) == Ok(v) <==> Spells(data, v) && Height(v) <= 64
  {
    hide Spells, DecodeAt, Height;
    if Decode(data) == Ok(v) {
      ReadWasSpelled(data, 0, 0, MAX_DEPTH);
      DecodeSound(data, 0, 0, MAX_DEPTH);
      assert data[0..|data|] == data;
    }
    if Spells(data, v) && Height(v) <= 64 {
      assert data[0..|data|] == data;
      SpelledIsRead(data, v, data, 0, 0, MAX_DEPTH);
    }
  }

  /** What the encoder writes for a document's value spells an equal value, in as few octets as any
      spelling of it has. */
  lemma EncodingIsShortest(data: bytes, v: Value)
    requires Spells(data, v) && Height(v) <= 64
    ensures Supported(v) && Plain(v) && |Enc(v)| <= |data|
    ensures Spells(Enc(v), Normal(v)) && TypedEqual(v, Normal(v))
  {
    hide *;
    SpelledIsSupported(data, v);
    SelfDelimiting(v, []);
    assert Enc(v) + [] == Enc(v);
    ReadWasSpelled(Enc(v), 0, 0, MAX_DEPTH);
    assert Enc(v)[0..|Enc(v)|] == Enc(v);
    NormalIsSame(v);
  }

  lemma SpelledIsSupported(data: bytes, v: Value)
    requires Spells(data, v) && Height(v) <= 64
    ensures Supported(v) && Plain(v) && |Enc(v)| <= |data| && Height(v) <= MAX_DEPTH
  {
    hide Spells, DecodeAt, Supported, Plain, Enc, Height;
    DecodesExactly(data, v);
    DecodeSound(data, 0, 0, MAX_DEPTH);
  }
}

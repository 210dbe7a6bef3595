/**
 The loops of multibase.py and their second copies in did_key.py, each proved
 against module Multibase.
 */
module MultibaseCode {
  import opened Prelude
  import opened Numerals
  import opened Multibase
  import opened Bits

  /** What both base58 loops return once every character has been read as its digit. */
  lemma DecodedBody(s: string, ds: seq<nat>)
    requires |ds| == |s| && InBase(58, ds) && forall j :: 0 <= j < |s| ==> Index(s[j]) == Some(ds[j])
    ensures var num := ValueOf(58, ds);
      DecodeUncapped(s) == Ok(Zeros(LeadingOnes(s)) + if num == 0 then [] else ToBE(num, (BitLength(num) + 7) / 8))
  {
    hide Index, Symbol;
    var num := ValueOf(58, ds);
    assert Digits(s).Some? && Digits(s).value == ds;
    MinimalBytes(num);
    DigitsNoLeadingZero(256, num);
    LeadingOnesAreZeros(s, ds);
  }

  method B58btcDecode(s: string) returns (r: Result<bytes, MultibaseError>)
    ensures r == Decode(s)
  {
    hide Index, Symbol, LeadingOnes;
    if |s| > MAX_B58_LEN {
      return Err(TooLong);
    }
    var num: nat := 0;
    ghost var ds: seq<nat> := [];
    var i := 0;
    while i < |s|
      invariant 0 <= i <= |s| && |ds| == i && InBase(58, ds)
      invariant forall j :: 0 <= j < i ==> Index(s[j]) == Some(ds[j])
      invariant num == ValueOf(58, ds)
    {
      var digit := Index(s[i]);
      if digit.None? {
        return Err(BadCharacter);
      }
      num := num * 58 + digit.value;
      ValueAppend(58, ds, digit.value);
      ds := ds + [digit.value];
      i := i + 1;
    }
    var body := if num == 0 then [] else ToBE(num, (BitLength(num) + 7) / 8);
    DecodedBody(s, ds);
    return Ok(Zeros(LeadingOnes(s)) + body);
  }

  function Reverse(digits: seq<nat>): (r: seq<nat>)
    ensures |r| == |digits| && forall i :: 0 <= i < |r| ==> r[i] == digits[|digits| - 1 - i]
  {
    seq(|digits|, i requires 0 <= i < |digits| => digits[|digits| - 1 - i])
  }

  method B58btcEncode(data: bytes) returns (s: string)
    ensures s == Encode(data)
  {
    hide Index, Symbol;
    var num := FromBE(data);
    FromBEIsValue(data);
    ghost var start := num;
    var chars: seq<nat> := [];
    while num > 0
      invariant InBase(58, chars)
      invariant DigitsOf(58, start) == DigitsOf(58, num) + Reverse(chars)
    {
      var rem := num % 58;
      assert Reverse(chars + [rem]) == [rem] + Reverse(chars);
      DivShrinks(num, 58);
      num, chars := num / 58, chars + [rem];
    }
    var digits := Zeros(LeadingZeros(data)) + Reverse(chars);
    assert digits == EncodedDigits(data);
    return Symbols(digits);
  }

  method ReadVarint(data: bytes) returns (r: Result<(nat, nat), MultibaseError>)
    ensures r == Varint(data, MAX_VARINT_BYTES)
  {
    var result: nat, shift: nat := 0, 0;
    var i := 0;
    while i < |data|
      invariant 0 <= i <= |data| && i <= MAX_VARINT_BYTES && shift == 7 * i
      invariant forall j :: 0 <= j < i ==> 128 <= data[j]
      invariant result == Leb128(data[..i])
    {
      ContinuationsAt(data, i);
      if i >= MAX_VARINT_BYTES {
        return Err(VarintTooLong);
      }
      var octet := data[i];
      Leb128Snoc(data, i);
      result := Or(result, Shl(octet % 128, shift));
      if octet < 128 {
        return Ok((result, i + 1));
      }
      shift := shift + 7;
      i := i + 1;
    }
    ContinuationsAt(data, |data|);
    return Err(TruncatedVarint);
  }

  /** One more byte of the loop: masked, shifted and OR-ed in, it extends the base-128 value. */
  lemma {:induction false} Leb128Snoc(data: bytes, i: nat)
    requires i < |data|
    ensures Leb128(data[..i + 1]) == Leb128(data[..i]) + Shl(data[i] % 128, 7 * i)
    ensures Or(Leb128(data[..i]), Shl(data[i] % 128, 7 * i)) == Leb128(data[..i + 1])
  {
    Leb128Sum(data[..i], data[i]);
    assert data[..i] + [data[i]] == data[..i + 1];
    Leb128Bound(data[..i]);
    OrDisjoint(Leb128(data[..i]), data[i] % 128, 7 * i);
  }

  lemma {:induction false} Leb128Sum(b: bytes, last: byte)
    ensures Leb128(b + [last]) == Leb128(b) + Shl(last % 128, 7 * |b|)
  {
    if b == [] {
      assert (b + [last])[1..] == [];
    } else {
      Leb128Sum(b[1..], last);
      assert (b + [last])[1..] == b[1..] + [last];
      Pow2By7(7 * |b[1..]|);
      assert 7 * |b| == 7 * |b[1..]| + 7;
      ShiftBy7(last % 128, 7 * |b[1..]|);
    }
  }

  lemma ShiftBy7(v: nat, shift: nat)
    ensures Shl(v, shift + 7) == 128 * Shl(v, shift)
  {
    Pow2By7(shift);
  }

  lemma {:induction false} ContinuationsAt(data: bytes, i: nat)
    requires i <= |data| && forall j :: 0 <= j < i ==> 128 <= data[j]
    ensures i <= Continuations(data)
    ensures i < |data| && data[i] < 128 ==> Continuations(data) == i
  {
    if i > 0 {
      ContinuationsAt(data[1..], i - 1);
    }
  }
}

/** The second copies, in did_key.py: the same loops without the two caps. */
module DidKeyCode {
  import opened Prelude
  import opened Numerals
  import opened Multibase
  import opened Bits
  import opened MultibaseCode

  method B58Decode(s: string) returns (r: Result<bytes, MultibaseError>)
    ensures r == DecodeUncapped(s)
    ensures r == Decode(s) <==> |s| <= MAX_B58_LEN
  {
    hide Index, Symbol, LeadingOnes;
    var num: nat := 0;
    ghost var ds: seq<nat> := [];
    var i := 0;
    while i < |s|
      invariant 0 <= i <= |s| && |ds| == i && InBase(58, ds)
      invariant forall j :: 0 <= j < i ==> Index(s[j]) == Some(ds[j])
      invariant num == ValueOf(58, ds)
    {
      var digit := Index(s[i]);
      if digit.None? {
        return Err(BadCharacter);
      }
      num := num * 58 + digit.value;
      ValueAppend(58, ds, digit.value);
      ds := ds + [digit.value];
      i := i + 1;
    }
    var body := if num == 0 then [] else ToBE(num, (BitLength(num) + 7) / 8);
    DecodedBody(s, ds);
    return Ok(Zeros(LeadingOnes(s)) + body);
  }

  method ReadVarintUncapped(data: bytes) returns (r: Result<(nat, nat), MultibaseError>)
    ensures r == Varint(data, |data|)
    ensures r == Varint(data, MAX_VARINT_BYTES) <==>
      Continuations(data) < MAX_VARINT_BYTES || |data| <= MAX_VARINT_BYTES
  {
    VarintCopiesAgree(data);
    var result: nat, shift: nat := 0, 0;
    var i := 0;
    while i < |data|
      invariant 0 <= i <= |data| && shift == 7 * i
      invariant forall j :: 0 <= j < i ==> 128 <= data[j]
      invariant result == Leb128(data[..i])
    {
      ContinuationsAt(data, i);
      var octet := data[i];
      Leb128Snoc(data, i);
      result := Or(result, Shl(octet % 128, shift));
      if octet < 128 {
        return Ok((result, i + 1));
      }
      shift := shift + 7;
      i := i + 1;
    }
    ContinuationsAt(data, |data|);
    return Err(TruncatedVarint);
  }
}

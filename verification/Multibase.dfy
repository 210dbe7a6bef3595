/**
 Base58 (Bitcoin alphabet) and unsigned LEB128 varints: the specification both
 copies of the code answer to, and the theorems about it.
 */
module Multibase {
  import opened Prelude
  import opened Numerals
  import opened Bits

  // The alphabet's runs of consecutive characters.
  const RUN0 := "123456789"
  const RUN1 := "ABCDEFGH"
  const RUN2 := "JKLMN"
  const RUN3 := "PQRSTUVWXYZ"
  const RUN4 := "abcdefghijk"
  const RUN5 := "mnopqrstuvwxyz"
  const ALPHABET: string := RUN0 + RUN1 + RUN2 + RUN3 + RUN4 + RUN5

  const MAX_B58_LEN: nat := 4096
  const MAX_VARINT_BYTES: nat := 9

  datatype MultibaseError = TooLong | BadCharacter | VarintTooLong | TruncatedVarint

  // ----- the alphabet -----------------------------------------------------------------

  /** The position of `c` in the alphabet. */
  function IndexIn(alphabet: string, c: char): (i: Option<nat>)
    ensures i.Some? ==> i.value < |alphabet| && alphabet[i.value] == c
    ensures i.None? <==> c !in alphabet
  {
    if alphabet == [] then None
    else if alphabet[0] == c then Some(0)
    else
      match IndexIn(alphabet[1..], c)
      case None => None
      case Some(i) => Some(i + 1)
  }

  function Symbol(digit: nat): char
    requires digit < 58
  {
    ALPHABET[digit]
  }

  function Index(c: char): (i: Option<nat>)
    ensures i.Some? ==> i.value < 58 && Symbol(i.value) == c
  {
    IndexIn(ALPHABET, c)
  }

  function RunSymbol(d: nat): int
    requires d < 58
  {
    if d < 9 then 49 + d
    else if d < 17 then 65 + (d - 9)
    else if d < 22 then 74 + (d - 17)
    else if d < 33 then 80 + (d - 22)
    else if d < 44 then 97 + (d - 33)
    else 109 + (d - 44)
  }

  lemma AlphabetRuns(d: nat)
    requires d < 58
    ensures Symbol(d) as int == RunSymbol(d)
  {
    assert d < 9 ==> ALPHABET[d] == RUN0[d];
    assert 9 <= d < 17 ==> ALPHABET[d] == RUN1[d - 9];
    assert 17 <= d < 22 ==> ALPHABET[d] == RUN2[d - 17];
    assert 22 <= d < 33 ==> ALPHABET[d] == RUN3[d - 22];
    assert 33 <= d < 44 ==> ALPHABET[d] == RUN4[d - 33];
    assert 44 <= d < 58 ==> ALPHABET[d] == RUN5[d - 44];
  }

  /** No character stands twice in the alphabet. */
  lemma SymbolsDistinct(d: nat, e: nat)
    requires d < 58 && e < 58 && Symbol(d) == Symbol(e)
    ensures d == e
  {
    AlphabetRuns(d);
    AlphabetRuns(e);
  }

  lemma IndexOfSymbol(d: nat)
    requires d < 58
    ensures Index(Symbol(d)) == Some(d)
  {
    assert Symbol(d) in ALPHABET;
    SymbolsDistinct(d, Index(Symbol(d)).value);
  }

  // ----- base58 ----------------------------------------------------------------------------

  function Symbols(digits: seq<nat>): (s: string)
    requires InBase(58, digits)
    ensures |s| == |digits|
    ensures forall i :: 0 <= i < |s| ==> digits[i] < 58 && s[i] == Symbol(digits[i])
  {
    assert forall i :: 0 <= i < |digits| ==> digits[i] in digits;
    seq(|digits|, i requires 0 <= i < |digits| => Symbol(digits[i]))
  }

  /** The digits `s` spells, if every character is in the alphabet. */
  function Digits(s: string): (ds: Option<seq<nat>>)
    ensures ds.Some? ==> |ds.value| == |s| && InBase(58, ds.value)
    ensures ds.Some? ==> forall i :: 0 <= i < |s| ==> Index(s[i]) == Some(ds.value[i])
    ensures ds.None? <==> exists i :: 0 <= i < |s| && Index(s[i]).None?
  {
    if forall i :: 0 <= i < |s| ==> Index(s[i]).Some? then
      Some(seq(|s|, i requires 0 <= i < |s| => Index(s[i]).value))
    else None
  }

  function LeadingOnes(s: string): (k: nat)
    ensures k <= |s|
  {
    if s == [] || s[0] != '1' then 0 else 1 + LeadingOnes(s[1..])
  }

  function AsBytes(ds: seq<nat>): (b: bytes)
    requires InBase(256, ds)
    ensures b == ds
  {
    assert forall i :: 0 <= i < |ds| ==> ds[i] in ds;
    ds
  }

  /** The bytes of the number a digit string spells, behind its leading zeros. */
  function ToBytes(digits: seq<nat>): bytes
    requires InBase(58, digits)
  {
    Zeros(LeadingZeros(digits)) + AsBytes(DigitsOf(256, ValueOf(58, digits)))
  }

  /** Base58 without a length cap: what `did:key` reads. */
  function DecodeUncapped(s: string): Result<bytes, MultibaseError> {
    match Digits(s)
    case None => Err(BadCharacter)
    case Some(ds) => Ok(ToBytes(ds))
  }

  function Decode(s: string): Result<bytes, MultibaseError> {
    if |s| > MAX_B58_LEN then Err(TooLong) else DecodeUncapped(s)
  }

  function EncodedDigits(data: bytes): (ds: seq<nat>)
    ensures InBase(58, ds)
  {
    Zeros(LeadingZeros(data)) + DigitsOf(58, ValueOf(256, data))
  }

  function Encode(data: bytes): string {
    Symbols(EncodedDigits(data))
  }

  lemma DigitsOfSymbols(ds: seq<nat>)
    requires InBase(58, ds)
    ensures Digits(Symbols(ds)) == Some(ds)
  {
    var s := Symbols(ds);
    forall i | 0 <= i < |s|
      ensures Index(s[i]) == Some(ds[i])
    {
      IndexOfSymbol(ds[i]);
    }
    assert Digits(s).Some?;
    assert Digits(s).value == ds;
  }

  lemma SymbolsOfDigits(s: string)
    requires Digits(s).Some?
    ensures Symbols(Digits(s).value) == s
  {
    var ds := Digits(s).value;
    forall i | 0 <= i < |s|
      ensures Symbols(ds)[i] == s[i]
    {
      assert Index(s[i]) == Some(ds[i]);
    }
  }

  lemma ByteStringInBase(data: bytes)
    ensures InBase(256, data)
  {
  }

  /** Encoding and decoding: every byte string comes back, and only the cap can refuse it. */
  lemma DecodeInvertsEncode(data: bytes)
    ensures DecodeUncapped(Encode(data)) == Ok(data)
    ensures Decode(Encode(data)) == if |Encode(data)| <= MAX_B58_LEN then Ok(data) else Err(TooLong)
  {
    hide Index, Symbol, Symbols, Digits;
    var k, n := LeadingZeros(data), ValueOf(256, data);
    DigitsOfSymbols(EncodedDigits(data));
    LeadingZerosOf(58, k, n);
    ByteStringInBase(data);
    SplitLeadingZeros(256, data);
  }

  /** Decoding and encoding: every accepted string comes back character for character. */
  lemma EncodeInvertsDecode(s: string)
    requires DecodeUncapped(s).Ok?
    ensures Encode(DecodeUncapped(s).value) == s
  {
    hide Index, Symbol, Symbols, Digits;
    var ds := Digits(s).value;
    var k, n := LeadingZeros(ds), ValueOf(58, ds);
    LeadingZerosOf(256, k, n);
    SplitLeadingZeros(58, ds);
    SymbolsOfDigits(s);
  }

  /** A string is accepted exactly when it is over the alphabet and within the cap. */
  lemma AcceptedExactly(s: string)
    ensures Decode(s).Ok? <==> |s| <= MAX_B58_LEN && forall c | c in s :: c in ALPHABET
  {
    hide ALPHABET, Symbol;
    if forall c | c in s :: c in ALPHABET {
      assert forall i :: 0 <= i < |s| ==> s[i] in s && Index(s[i]).Some?;
    }
    if Digits(s).Some? {
      forall c | c in s
        ensures c in ALPHABET
      {
        var i :| 0 <= i < |s| && s[i] == c;
        assert Index(s[i]).Some?;
      }
    }
  }

  /** Decoding is one-to-one on the strings it accepts: they are the strings over the alphabet and
      within the cap, and two of them spell the same bytes only if they are the same string. */
  lemma DecodeIsBijective(s: string, t: string)
    ensures Decode(s).Ok? <==> |s| <= MAX_B58_LEN && forall c | c in s :: c in ALPHABET
    ensures Decode(s).Ok? && Decode(t).Ok? ==> (Decode(s) == Decode(t) <==> s == t)
  {
    AcceptedExactly(s);
    if Decode(s).Ok? && Decode(t).Ok? {
      EncodeInvertsDecode(s);
      EncodeInvertsDecode(t);
    }
    hide *;
  }

  lemma {:induction false} LeadingOnesAreZeros(s: string, ds: seq<nat>)
    requires |s| == |ds| && forall i :: 0 <= i < |s| ==> Index(s[i]) == Some(ds[i])
    ensures LeadingOnes(s) == LeadingZeros(ds)
  {
    IndexOfSymbol(0);
    AlphabetRuns(0);
    hide Index, Symbol;
    if s != [] {
      assert Index(s[0]) == Some(ds[0]);
      if s[0] == '1' {
        LeadingOnesAreZeros(s[1..], ds[1..]);
      }
    }
  }

  /** The leading zero bytes of the data are the leading `1` characters of its encoding. */
  lemma LeadingZerosMatch(data: bytes)
    ensures LeadingOnes(Encode(data)) == LeadingZeros(data)
  {
    var ds := EncodedDigits(data);
    DigitsOfSymbols(ds);
    LeadingOnesAreZeros(Encode(data), ds);
    LeadingZerosOf(58, LeadingZeros(data), ValueOf(256, data));
  }

  /** What is decoded: the number the characters write in base 58, read in the alphabet's order, as
      big-endian bytes, with one zero byte in front for each leading 1. */
  lemma DecodedNumber(s: string)
    requires Decode(s).Ok?
    ensures Digits(s).Some? && forall i | 0 <= i < |s| :: s[i] as int == RunSymbol(Digits(s).value[i])
    ensures var data := Decode(s).value;
      && ValueOf(256, data) == ValueOf(58, Digits(s).value)
      && LeadingZeros(data) == LeadingOnes(s)
  {
    var ds := Digits(s).value;
    forall i | 0 <= i < |s|
      ensures s[i] as int == RunSymbol(ds[i])
    {
      assert Index(s[i]) == Some(ds[i]);
      AlphabetRuns(ds[i]);
    }
    hide Index, Symbol, Symbols, Digits, RunSymbol;
    LeadingZerosOf(256, LeadingZeros(ds), ValueOf(58, ds));
    LeadingOnesAreZeros(s, ds);
  }

  // ----- varints ------------------------------------------------------------------------------

  /** The little-endian base-128 value of a byte string. */
  function Leb128(b: bytes): nat {
    if b == [] then 0 else b[0] % 128 + 128 * Leb128(b[1..])
  }

  /** How many bytes continue before the first one without the continuation bit. */
  function Continuations(data: bytes): (k: nat)
    ensures k <= |data|
    ensures forall i :: 0 <= i < k ==> 128 <= data[i]
    ensures k < |data| ==> data[k] < 128
  {
    if data == [] || data[0] < 128 then 0 else 1 + Continuations(data[1..])
  }

  /** The value and the bytes consumed; `cap` bounds the bytes looked at. */
  function Varint(data: bytes, cap: nat): Result<(nat, nat), MultibaseError> {
    var k := Continuations(data);
    if k < |data| && k < cap then Ok((Leb128(data[..k + 1]), k + 1))
    else if |data| > cap then Err(VarintTooLong)
    else Err(TruncatedVarint)
  }

  lemma {:induction false} Leb128Bound(b: bytes)
    ensures Leb128(b) < Pow2(7 * |b|)
  {
    if b != [] {
      Leb128Bound(b[1..]);
      Pow2By7(7 * |b[1..]|);
      assert 7 * |b| == 7 * |b[1..]| + 7;
    }
  }

  /** An accepted capped varint is the base-128 value of exactly the bytes it consumed, which
      end at the first byte without a continuation bit, and it is below 2^63. */
  lemma VarintIsLeb128(data: bytes)
    requires Varint(data, MAX_VARINT_BYTES).Ok?
    ensures var (value, used) := Varint(data, MAX_VARINT_BYTES).value;
      && 1 <= used <= MAX_VARINT_BYTES && used <= |data|
      && data[used - 1] < 128 && (forall i | 0 <= i < used - 1 :: 128 <= data[i])
      && value == Leb128(data[..used]) && value < Pow2(63)
  {
    var (value, used) := Varint(data, MAX_VARINT_BYTES).value;
    Leb128Bound(data[..used]);
    Pow2Monotone(7 * used, 63);
  }

  /** The shortest varint of `n`. */
  function WriteVarint(n: nat): (b: bytes)
    ensures 1 <= |b|
  {
    if n < 128 then [n as byte] else [(128 + n % 128) as byte] + WriteVarint(n / 128)
  }

  lemma {:induction false} WriteVarintValue(n: nat)
    ensures Leb128(WriteVarint(n)) == n
  {
    var b := WriteVarint(n);
    if n < 128 {
      assert b[1..] == [];
    } else {
      WriteVarintValue(n / 128);
      assert b[1..] == WriteVarint(n / 128);
    }
  }

  lemma {:induction false} WriteVarintReads(n: nat, rest: bytes)
    ensures Continuations(WriteVarint(n) + rest) == |WriteVarint(n)| - 1
  {
    var data := WriteVarint(n) + rest;
    if 128 <= n {
      WriteVarintReads(n / 128, rest);
      assert data[1..] == WriteVarint(n / 128) + rest;
    }
  }

  lemma {:induction false} WriteVarintLength(n: nat, k: nat)
    requires 1 <= k && n < Pow2(7 * k)
    ensures |WriteVarint(n)| <= k
    decreases k
  {
    if 128 <= n {
      if k == 1 {
        Pow2By7(0);
      } else {
        Pow2By7(7 * (k - 1));
        WriteVarintLength(n / 128, k - 1);
      }
    }
  }

  /** Every number below 2^63 is read back from its shortest varint, whatever follows it. */
  lemma VarintReadsBack(n: nat, rest: bytes)
    requires n < Pow2(63)
    ensures Varint(WriteVarint(n) + rest, MAX_VARINT_BYTES) == Ok((n, |WriteVarint(n)|))
  {
    var b := WriteVarint(n);
    WriteVarintReads(n, rest);
    WriteVarintValue(n);
    WriteVarintLength(n, 9);
    assert (b + rest)[..|b|] == b;
  }

  /** The two varint readers part exactly where nine bytes all continue and more follow. */
  lemma VarintCopiesAgree(data: bytes)
    ensures Varint(data, MAX_VARINT_BYTES) == Varint(data, |data|) <==>
      Continuations(data) < MAX_VARINT_BYTES || |data| <= MAX_VARINT_BYTES
  {
    hide Leb128, Continuations;
  }
}

/**
 Positional numerals: the big-integer conversions Python spells
 `int.from_bytes`, `int.to_bytes`, `int.bit_length` and repeated `divmod`.
 Most significant digit first.
 */
module Numerals {
  import opened Prelude

  /** The number a digit string denotes. */
  function ValueOf(base: nat, digits: seq<nat>): nat
    requires 2 <= base
  {
    if digits == [] then 0
    else ValueOf(base, digits[..|digits| - 1]) * base + digits[|digits| - 1]
  }

  /** The digits of `n` without leading zeros; none for zero. */
  function DigitsOf(base: nat, n: nat): (digits: seq<nat>)
    requires 2 <= base
    ensures forall d :: d in digits ==> d < base
    decreases n
  {
    if n == 0 then []
    else
      DivShrinks(n, base);
      DigitsOf(base, n / base) + [n % base]
  }

  predicate InBase(base: nat, digits: seq<nat>) {
    forall d :: d in digits ==> d < base
  }

  /** How many zeros lead `digits`. */
  function LeadingZeros(digits: seq<nat>): (k: nat)
    ensures k <= |digits|
    ensures forall i :: 0 <= i < k ==> digits[i] == 0
    ensures k < |digits| ==> digits[k] != 0
  {
    if digits == [] || digits[0] != 0 then 0 else 1 + LeadingZeros(digits[1..])
  }

  function Zeros(k: nat): (z: seq<nat>)
    ensures |z| == k && forall i :: 0 <= i < k ==> z[i] == 0
  {
    seq(k, i => 0)
  }

  lemma DivShrinks(n: nat, base: nat)
    requires 2 <= base && 0 < n
    ensures 0 <= n / base < n
  {
    assert n == (n / base) * base + n % base;
  }

  lemma DivMod(n: nat, base: nat)
    requires 2 <= base
    ensures n == (n / base) * base + n % base
  {
  }

  lemma MulAtLeast(k: nat, base: nat)
    requires 1 <= k
    ensures base <= k * base
  {
    assert k * base == (k - 1) * base + base;
  }

  lemma DivModUnique(q: nat, r: nat, base: nat)
    requires r < base
    ensures (q * base + r) / base == q && (q * base + r) % base == r
  {
    QuotientUnique(q, r, (q * base + r) / base, (q * base + r) % base, base);
  }

  lemma QuotientUnique(q: nat, r: nat, q': nat, r': nat, base: nat)
    requires r < base && r' < base && q * base + r == q' * base + r'
    ensures q == q' && r == r'
  {
    if q < q' {
      assert (q' - q) * base == q' * base - q * base;
      MulAtLeast(q' - q, base);
    } else if q' < q {
      assert (q - q') * base == q * base - q' * base;
      MulAtLeast(q - q', base);
    }
  }

  lemma ValueAppend(base: nat, digits: seq<nat>, d: nat)
    requires 2 <= base
    ensures ValueOf(base, digits + [d]) == ValueOf(base, digits) * base + d
  {
    var s := digits + [d];
    assert s[..|s| - 1] == digits;
  }

  /** Writing a number and reading it back gives the number. */
  lemma {:induction false} ValueOfDigits(base: nat, n: nat)
    requires 2 <= base
    ensures ValueOf(base, DigitsOf(base, n)) == n
    decreases n
  {
    if n != 0 {
      DivShrinks(n, base);
      ValueOfDigits(base, n / base);
      ValueAppend(base, DigitsOf(base, n / base), n % base);
      DivMod(n, base);
    }
  }

  lemma {:induction false} DigitsNoLeadingZero(base: nat, n: nat)
    requires 2 <= base
    ensures n == 0 <==> DigitsOf(base, n) == []
    ensures n != 0 ==> DigitsOf(base, n)[0] != 0
    decreases n
  {
    if n != 0 {
      DivShrinks(n, base);
      DigitsNoLeadingZero(base, n / base);
      assert n == (n / base) * base + n % base;
    }
  }

  lemma {:induction false} ValueNoLeadingZero(base: nat, digits: seq<nat>)
    requires 2 <= base
    requires digits != [] && digits[0] != 0
    ensures ValueOf(base, digits) != 0
  {
    if |digits| > 1 {
      ValueNoLeadingZero(base, digits[..|digits| - 1]);
      var v := ValueOf(base, digits[..|digits| - 1]);
      assert v * base >= 1 * base;
    }
  }

  /** Reading a digit string with no leading zero and writing it back gives the string. */
  lemma {:induction false} DigitsOfValue(base: nat, digits: seq<nat>)
    requires 2 <= base && InBase(base, digits)
    requires digits != [] ==> digits[0] != 0
    ensures DigitsOf(base, ValueOf(base, digits)) == digits
  {
    if digits != [] {
      var front, last := digits[..|digits| - 1], digits[|digits| - 1];
      assert last in digits;
      assert forall d :: d in front ==> d in digits;
      DigitsOfValue(base, front);
      DivModUnique(ValueOf(base, front), last, base);
      ValueNoLeadingZero(base, digits);
      assert digits == front + [last];
    }
  }

  /** Leading zeros do not change the value. */
  lemma {:induction false} LeadingZerosDropped(base: nat, k: nat, digits: seq<nat>)
    requires 2 <= base
    ensures ValueOf(base, Zeros(k) + digits) == ValueOf(base, digits)
    decreases |digits|, k
  {
    var s := Zeros(k) + digits;
    if digits == [] {
      assert s == Zeros(k);
      if k > 0 {
        LeadingZerosDropped(base, k - 1, []);
        assert s[..|s| - 1] == Zeros(k - 1) + [];
        assert s[|s| - 1] == 0;
      }
    } else {
      LeadingZerosDropped(base, k, digits[..|digits| - 1]);
      assert s[..|s| - 1] == Zeros(k) + digits[..|digits| - 1];
    }
  }

  /** Every digit string is its leading zeros followed by the minimal digits of its value. */
  lemma SplitLeadingZeros(base: nat, digits: seq<nat>)
    requires 2 <= base && InBase(base, digits)
    ensures digits == Zeros(LeadingZeros(digits)) + DigitsOf(base, ValueOf(base, digits))
  {
    var k := LeadingZeros(digits);
    var body := digits[k..];
    assert digits == Zeros(k) + body;
    LeadingZerosDropped(base, k, body);
    assert forall d :: d in body ==> d in digits;
    DigitsOfValue(base, body);
  }

  lemma LeadingZerosCount(k: nat, body: seq<nat>)
    requires body != [] ==> body[0] != 0
    ensures LeadingZeros(Zeros(k) + body) == k
  {
    var s := Zeros(k) + body;
    var z := LeadingZeros(s);
    assert k < |s| ==> s[k] == body[0];
  }

  lemma LeadingZerosOf(base: nat, k: nat, n: nat)
    requires 2 <= base
    ensures LeadingZeros(Zeros(k) + DigitsOf(base, n)) == k
    ensures ValueOf(base, Zeros(k) + DigitsOf(base, n)) == n
  {
    DigitsNoLeadingZero(base, n);
    LeadingZerosCount(k, DigitsOf(base, n));
    LeadingZerosDropped(base, k, DigitsOf(base, n));
    ValueOfDigits(base, n);
  }

  // ----- big-endian bytes of a fixed width ------------------------------------

  /** `int.from_bytes(b, "big")`. */
  function FromBE(b: bytes): nat {
    if b == [] then 0 else FromBE(b[..|b| - 1]) * 256 + b[|b| - 1]
  }

  /** `n.to_bytes(width, "big")`. */
  function ToBE(n: nat, width: nat): (b: bytes)
    ensures |b| == width
  {
    if width == 0 then [] else ToBE(n / 256, width - 1) + [n % 256]
  }

  function Pow256(width: nat): (p: nat)
    ensures 1 <= p
  {
    if width == 0 then 1 else 256 * Pow256(width - 1)
  }

  lemma {:induction false} FromToBE(n: nat, width: nat)
    requires n < Pow256(width)
    ensures FromBE(ToBE(n, width)) == n
  {
    if width > 0 {
      FromToBE(n / 256, width - 1);
      var b := ToBE(n, width);
      assert b[..|b| - 1] == ToBE(n / 256, width - 1);
    }
  }

  lemma {:induction false} ToFromBE(b: bytes)
    ensures FromBE(b) < Pow256(|b|)
    ensures ToBE(FromBE(b), |b|) == b
  {
    if b != [] {
      ToFromBE(b[..|b| - 1]);
      assert b == b[..|b| - 1] + [b[|b| - 1]];
    }
  }

  lemma {:induction false} FromBEIsValue(b: bytes)
    ensures FromBE(b) == ValueOf(256, b)
  {
    if b != [] {
      FromBEIsValue(b[..|b| - 1]);
    }
  }

  // ----- bit length ------------------------------------------------------------

  /** `n.bit_length()`. */
  function BitLength(n: nat): nat {
    if n == 0 then 0 else 1 + BitLength(n / 2)
  }

  lemma BitLengthBy4(n: nat)
    requires 4 <= n
    ensures BitLength(n) == 2 + BitLength(n / 4)
  {
    assert BitLength(n) == 1 + BitLength(n / 2);
    assert n / 2 / 2 == n / 4;
  }

  lemma BitLengthBy16(n: nat)
    requires 16 <= n
    ensures BitLength(n) == 4 + BitLength(n / 16)
  {
    BitLengthBy4(n);
    BitLengthBy4(n / 4);
    assert n / 4 / 4 == n / 16;
  }

  lemma BitLengthByByte(n: nat)
    requires 256 <= n
    ensures BitLength(n) == 8 + BitLength(n / 256)
  {
    BitLengthBy16(n);
    BitLengthBy16(n / 16);
  }

  lemma BitLengthOfNibble(n: nat)
    requires n < 16
    ensures BitLength(n) <= 4
    ensures n != 0 ==> 1 <= BitLength(n)
  {
    assert BitLength(n) <= 1 + BitLength(n / 2);
    assert BitLength(n / 2) <= 1 + BitLength(n / 4);
    assert BitLength(n / 4) <= 1 + BitLength(n / 8);
  }

  lemma BitLengthOfByte(n: nat)
    requires n < 256
    ensures BitLength(n) <= 8
    ensures n != 0 ==> 1 <= BitLength(n)
  {
    if n < 16 {
      BitLengthOfNibble(n);
    } else {
      BitLengthBy16(n);
      BitLengthOfNibble(n / 16);
    }
  }

  /** `(n.bit_length() + 7) // 8` is exactly the number of minimal base-256 digits. */
  lemma {:induction false} ByteWidth(n: nat)
    ensures |DigitsOf(256, n)| == (BitLength(n) + 7) / 8
    decreases n
  {
    if n == 0 {
    } else if n < 256 {
      BitLengthOfByte(n);
      assert DigitsOf(256, n / 256) == [];
    } else {
      BitLengthByByte(n);
      ByteWidth(n / 256);
    }
  }

  lemma {:induction false} MinimalBytes(n: nat)
    ensures ToBE(n, (BitLength(n) + 7) / 8) == DigitsOf(256, n)
    decreases n
  {
    ByteWidth(n);
    if n == 0 {
    } else {
      ByteWidth(n / 256);
      MinimalBytes(n / 256);
    }
  }
}

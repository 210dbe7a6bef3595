/**
 The checksum as a remainder: in the polynomials over the two-element field, it is
 what is left of the message, started with the initial register and shifted 24 bits,
 after division by the generator of section 6.1 of RFC 4880.
 */
module CrcRemainder {
  import opened Prelude
  import opened Bits
  import opened Numerals
  import opened Crc24

  /** The product without carries: numbers as polynomials over the two-element field. */
  function Times(q: nat, p: nat): nat {
    if q == 0 then 0 else Xor(if q % 2 == 1 then p else 0, 2 * Times(q / 2, p))
  }

  /** The message polynomial: its bits after the initial register, all 24 places up. */
  function Message(data: bytes): nat {
    Xor(0xB704CE * Pow2(8 * |data|), FromBE(data) * Pow2(24))
  }

  lemma XorScale(a: nat, b: nat, k: nat)
    ensures Xor(a * Pow2(k), b * Pow2(k)) == Xor(a, b) * Pow2(k)
  {
    XorSplit(a, 0, b, 0, k);
    XorZero(0);
  }

  /** XOR-ing the same term into both sides changes nothing. */
  lemma XorBoth(p: nat, a: nat, b: nat)
    ensures Xor(Xor(p, a), Xor(b, p)) == Xor(a, b)
  {
    XorCommutes(b, p);
    XorExchange(p, a, p, b);
    XorSelf(p);
    XorZero(Xor(a, b));
  }

  // ----- the checksum is a remainder -----------------------------------------------------

  /** One division step: the shifted register is the remainder of the doubled number. */
  lemma ShiftDivides(n: nat, q: nat, r: nat) returns (next: nat)
    requires n == Xor(Times(q, POLYNOMIAL), r) && r < TWO24
    ensures 2 * n == Xor(Times(next, POLYNOMIAL), Shift(r))
  {
    hide Xor;
    var t := 2 * Times(q, POLYNOMIAL);
    XorDouble(Times(q, POLYNOMIAL), r);
    if r < TWO24 / 2 {
      next := 2 * q;
      XorZero(t);
    } else {
      next := 2 * q + 1;
      XorBoth(POLYNOMIAL, t, 2 * r);
    }
  }

  lemma {:induction false} ShiftsDivide(n: nat, q: nat, r: nat, k: nat) returns (next: nat)
    requires n == Xor(Times(q, POLYNOMIAL), r) && r < TWO24
    ensures n * Pow2(k) == Xor(Times(next, POLYNOMIAL), Shifts(r, k))
  {
    hide Xor, Times;
    if k == 0 {
      next := q;
    } else {
      next := ShiftsDivide(n, q, r, k - 1);
      ShiftsBelow24(r, k - 1);
      next := ShiftDivides(n * Pow2(k - 1), next, Shifts(r, k - 1));
    }
  }

  /** One more octet shifts the message 8 places and brings the octet in below it. */
  lemma MessageGrows(front: bytes, b: byte)
    ensures Message(front + [b]) == Xor(Message(front), b * TWO16) * Pow2(8)
  {
    hide Xor, FromBE, Pow2;
    var data := front + [b];
    var start, f := 0xB704CE * Pow2(8 * |front|), FromBE(front);
    TwoPowers();
    assert FromBE(data) == f * 256 + b by { LastOctet(front, b); }
    Pow2Add(8 * |front|, 8);
    assert 0xB704CE * Pow2(8 * |data|) == start * Pow2(8);
    Pow2Add(16, 8);
    XorScale(Xor(start, f * Pow2(24)), b * TWO16, 8);
    XorScale(start, f * Pow2(24), 8);
    XorAssociates(start * Pow2(8), f * Pow2(24) * Pow2(8), b * TWO16 * Pow2(8));
    XorScale(f * Pow2(8), b, 24);
    XorSplit(f, 0, 0, b, 8);
    XorZero(f);
    XorZero(b);
    assert f * Pow2(24) * Pow2(8) == f * Pow2(8) * Pow2(24);
    assert b * TWO16 * Pow2(8) == b * Pow2(24);
  }

  lemma LastOctet(front: bytes, b: byte)
    ensures FromBE(front + [b]) == FromBE(front) * 256 + b
  {
    assert (front + [b])[..|front|] == front;
  }

  lemma {:induction false} ChecksumDivides(data: bytes) returns (q: nat)
    ensures Message(data) == Xor(Times(q, POLYNOMIAL), Checksum(data))
  {
    hide Xor;
    if data == [] {
      q := 0;
      assert Pow2(8 * |data|) == 1;
      XorZero(0xB704CE);
    } else {
      var front, b := data[..|data| - 1], data[|data| - 1];
      assert data == front + [b];
      var r := Checksum(front);
      var before := ChecksumDivides(front);
      hide Times, Pow2, FromBE;
      DivideAllBelow24(INITIAL, front);
      XorBelow24(r, b * TWO16);
      XorAssociates(Times(before, POLYNOMIAL), r, b * TWO16);
      q := ShiftsDivide(Xor(Message(front), b * TWO16), before, Xor(r, b * TWO16), 8);
      MessageGrows(front, b);
    }
  }

  // ----- and the only one ------------------------------------------------------------------

  lemma {:induction false} TimesXor(a: nat, b: nat, p: nat)
    ensures Times(Xor(a, b), p) == Xor(Times(a, p), Times(b, p))
    decreases a + b
  {
    hide Xor;
    XorZero(0);
    XorZero(a);
    XorZero(b);
    XorZero(Times(a, p));
    XorZero(Times(b, p));
    if a != 0 && b != 0 {
      TimesXor(a / 2, b / 2, p);
      XorHalf(a, b);
      XorDouble(Times(a / 2, p), Times(b / 2, p));
      XorSelf(p);
      XorZero(p);
      var x, y := if a % 2 == 1 then p else 0, if b % 2 == 1 then p else 0;
      XorExchange(x, 2 * Times(a / 2, p), y, 2 * Times(b / 2, p));
      TimesNext(Xor(a, b), p);
    }
  }

  lemma TimesNext(q: nat, p: nat)
    ensures Times(q, p) == Xor(if q % 2 == 1 then p else 0, 2 * Times(q / 2, p))
  {
    if q == 0 { XorZero(0); }
  }

  /** A multiple of the generator other than zero has degree 24 at least. */
  lemma {:induction false} MultipleIsLarge(q: nat)
    requires q > 0
    ensures Times(q, POLYNOMIAL) >= TWO24
  {
    hide Xor;
    if q == 1 {
      XorZero(POLYNOMIAL);
    } else {
      MultipleIsLarge(q / 2);
      var high := 2 * Times(q / 2, POLYNOMIAL);
      var low := if q % 2 == 1 then POLYNOMIAL else 0;
      Pow2Add(24, 1);
      TwoPowers();
      XorSplit(0, low, high / Pow2(25), high % Pow2(25), 25);
      XorZero(high / Pow2(25));
      assert high / Pow2(25) >= 1;
    }
  }

  lemma RemainderUnique(q: nat, r: nat, q': nat, r': nat)
    requires r < TWO24 && r' < TWO24
    requires Xor(Times(q, POLYNOMIAL), r) == Xor(Times(q', POLYNOMIAL), r')
    ensures r == r'
  {
    hide Xor, Times;
    var t, t' := Times(q, POLYNOMIAL), Times(q', POLYNOMIAL);
    TimesXor(q, q', POLYNOMIAL);
    XorExchange(t, r, t', r');
    XorSelf(Xor(t, r));
    XorSelf(Xor(t, t'));
    XorCancels(Xor(t, t'), Xor(r, r'), Xor(t, t'));
    XorBelow24(r, r');
    if Xor(q, q') > 0 {
      MultipleIsLarge(Xor(q, q'));
    }
    XorSelf(q);
    XorCancels(q, q', q);
    XorCancels(t, r, r');
  }

  /** Section 6.1 of RFC 4880: the checksum is the one number below 2 to the 24 that differs from the
      message by a multiple of the generator 0x1864CFB. */
  lemma ChecksumIsRemainder(data: bytes, r: nat)
    ensures r == Checksum(data) <==>
      r < 0x100_0000 && exists q: nat :: Xor(Times(q, 0x1864CFB), r) == Message(data)
  {
    hide Xor, Times, Message;
    var q := ChecksumDivides(data);
    DivideAllBelow24(INITIAL, data);
    if r < 0x100_0000 && exists q: nat :: Xor(Times(q, 0x1864CFB), r) == Message(data) {
      var q': nat :| Xor(Times(q', 0x1864CFB), r) == Message(data);
      RemainderUnique(q, Checksum(data), q', r);
    }
  }
}

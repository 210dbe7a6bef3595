/**
 The OpenPGP armor checksum: the table-driven loop against the bit-by-bit
 division of section 6.1 of RFC 4880, and the errors it always catches.
 */
module Crc24 {
  import opened Prelude
  import opened Bits
  import opened Numerals

  const INITIAL: nat := 0xB704CE
  const POLYNOMIAL: nat := 0x1864CFB

  const TWO8: nat := 0x100
  const TWO16: nat := 0x1_0000
  const TWO24: nat := 0x100_0000

  /** One bit of the division: shift left, subtract the polynomial when bit 24 is set. */
  function Shift(crc: nat): nat {
    var c := 2 * crc;
    if c / TWO24 % 2 == 1 then Xor(c, POLYNOMIAL) else c
  }

  function Shifts(crc: nat, n: nat): nat {
    if n == 0 then crc else Shift(Shifts(crc, n - 1))
  }

  /** Section 6.1 of RFC 4880, one octet: XOR it into the top of the register, divide 8 bits. */
  function Divide(crc: nat, b: byte): nat {
    Shifts(Xor(crc, b * TWO16), 8)
  }

  function DivideAll(crc: nat, data: bytes): nat {
    if data == [] then crc else Divide(DivideAll(crc, data[..|data| - 1]), data[|data| - 1])
  }

  /** The checksum as section 6.1 of RFC 4880 defines it. */
  function Checksum(data: bytes): nat {
    DivideAll(INITIAL, data)
  }

  // ----- the register is linear ------------------------------------------------------------

  lemma TwoPowers()
    ensures Pow2(8) == TWO8 && Pow2(16) == TWO16 && Pow2(24) == TWO24
  {
    Pow2Small();
    Pow2Add(8, 8);
    Pow2Add(16, 8);
  }

  lemma XorBelow24(a: nat, b: nat)
    requires a < TWO24 && b < TWO24
    ensures Xor(a, b) < TWO24
  {
    TwoPowers();
    XorSplit(0, a, 0, b, 24);
  }

  /** What a shift does to a 24-bit register: the overflow is replaced by the polynomial's tail. */
  lemma ShiftOf(crc: nat)
    requires crc < TWO24
    ensures Shift(crc) < TWO24
    ensures crc < TWO24 / 2 ==> Shift(crc) == 2 * crc
    ensures crc >= TWO24 / 2 ==> Shift(crc) == Xor(2 * crc - TWO24, POLYNOMIAL - TWO24)
  {
    if crc >= TWO24 / 2 {
      TwoPowers();
      XorSelf(1);
      XorSplit(1, 2 * crc - TWO24, 1, POLYNOMIAL - TWO24, 24);
    }
  }

  lemma {:induction false} ShiftsBelow24(crc: nat, n: nat)
    requires crc < TWO24
    ensures Shifts(crc, n) < TWO24
  {
    if n > 0 {
      ShiftsBelow24(crc, n - 1);
      ShiftOf(Shifts(crc, n - 1));
    }
  }

  lemma XorDouble(a: nat, b: nat)
    ensures Xor(2 * a, 2 * b) == 2 * Xor(a, b)
  {
    XorHalf(2 * a, 2 * b);
    HalvesAgree(Xor(2 * a, 2 * b), 2 * Xor(a, b));
  }

  /** (x ^ y) ^ (z ^ w) == (x ^ z) ^ (y ^ w). */
  lemma XorExchange(x: nat, y: nat, z: nat, w: nat)
    ensures Xor(Xor(x, y), Xor(z, w)) == Xor(Xor(x, z), Xor(y, w))
  {
    calc {
      Xor(Xor(x, y), Xor(z, w));
      { XorAssociates(x, y, Xor(z, w)); }
      Xor(x, Xor(y, Xor(z, w)));
      { XorAssociates(y, z, w); XorCommutes(y, z); XorAssociates(z, y, w); }
      Xor(x, Xor(z, Xor(y, w)));
      { XorAssociates(x, z, Xor(y, w)); }
      Xor(Xor(x, z), Xor(y, w));
    }
  }

  /** The top bit of a 24-bit register. */
  function Top(crc: nat): nat
    requires crc < TWO24
  {
    crc / (TWO24 / 2)
  }

  /** A shift as XOR of the doubled low part with a term chosen by the top bit alone. */
  function Feedback(top: nat): nat {
    if top == 0 then 0 else POLYNOMIAL - TWO24
  }

  lemma HalfParts(x: nat, top: nat, low: nat)
    requires x < TWO24 && low < TWO24 / 2 && x == top * (TWO24 / 2) + low
    ensures x / (TWO24 / 2) == top && x % (TWO24 / 2) == low && top <= 1
  {
    DivModUnique(top, low, TWO24 / 2);
  }

  lemma ShiftIsXor(crc: nat)
    requires crc < TWO24
    ensures Shift(crc) == Xor(2 * (crc % (TWO24 / 2)), Feedback(Top(crc)))
  {
    hide Shift, Xor;
    ShiftOf(crc);
    XorZero(2 * crc);
    if crc < TWO24 / 2 {
      HalfParts(crc, 0, crc);
    } else {
      HalfParts(crc, 1, crc - TWO24 / 2);
    }
  }

  lemma Pow23()
    ensures Pow2(23) == TWO24 / 2
  {
    TwoPowers();
    assert Pow2(24) == 2 * Pow2(23);
  }

  lemma TopXor(a: nat, b: nat)
    requires a < TWO24 && b < TWO24
    ensures Xor(a, b) < TWO24
    ensures Top(Xor(a, b)) == Xor(Top(a), Top(b))
    ensures Xor(a, b) % (TWO24 / 2) == Xor(a % (TWO24 / 2), b % (TWO24 / 2))
    ensures Top(a) <= 1 && Top(b) <= 1 && Top(Xor(a, b)) <= 1
  {
    hide Xor, Pow2;
    var half := TWO24 / 2;
    Pow23();
    XorBelow24(a, b);
    HalfParts(a, a / half, a % half);
    HalfParts(b, b / half, b % half);
    XorSplit(a / half, a % half, b / half, b % half, 23);
    HalfParts(Xor(a, b), Xor(a / half, b / half), Xor(a % half, b % half));
  }

  lemma FeedbackXor(s: nat, t: nat)
    requires s <= 1 && t <= 1
    ensures Feedback(Xor(s, t)) == Xor(Feedback(s), Feedback(t))
  {
    XorZero(Feedback(s));
    XorZero(Feedback(t));
    XorSelf(Feedback(s));
    XorZero(s);
    XorZero(t);
    XorSelf(s);
  }

  lemma ShiftLinear(a: nat, b: nat)
    requires a < TWO24 && b < TWO24
    ensures Xor(a, b) < TWO24 && Shift(Xor(a, b)) == Xor(Shift(a), Shift(b))
  {
    hide Shift, Xor, Feedback, Top;
    var half := TWO24 / 2;
    TopXor(a, b);
    ShiftIsXor(a);
    ShiftIsXor(b);
    ShiftIsXor(Xor(a, b));
    XorDouble(a % half, b % half);
    FeedbackXor(Top(a), Top(b));
    XorExchange(2 * (a % half), 2 * (b % half), Feedback(Top(a)), Feedback(Top(b)));
  }

  lemma {:induction false} ShiftsLinear(a: nat, b: nat, n: nat)
    requires a < TWO24 && b < TWO24
    ensures Xor(a, b) < TWO24 && Shifts(Xor(a, b), n) == Xor(Shifts(a, n), Shifts(b, n))
  {
    hide Shift, Xor;
    XorBelow24(a, b);
    if n > 0 {
      ShiftsLinear(a, b, n - 1);
      ShiftsBelow24(a, n - 1);
      ShiftsBelow24(b, n - 1);
      ShiftLinear(Shifts(a, n - 1), Shifts(b, n - 1));
    }
  }

  /** XOR of an even number with the odd polynomial tail is odd. */
  lemma OddWithTail(e: nat)
    ensures Xor(2 * e, POLYNOMIAL - TWO24) % 2 == 1
  {
    hide Xor;
    XorHalf(2 * e, POLYNOMIAL - TWO24);
  }

  /** A shift loses nothing: the polynomial has a constant term, so its low bit tells whether
      the top bit was set. */
  lemma ShiftInjective(a: nat, b: nat)
    requires a < TWO24 && b < TWO24 && Shift(a) == Shift(b)
    ensures a == b
  {
    hide Shift, Xor;
    var half := TWO24 / 2;
    var p := POLYNOMIAL - TWO24;
    ShiftOf(a);
    ShiftOf(b);
    if a >= half {
      OddWithTail(a - half);
      if b >= half {
        XorCommutes(2 * a - TWO24, p);
        XorCommutes(2 * b - TWO24, p);
        XorCancels(p, 2 * a - TWO24, 2 * b - TWO24);
      }
    } else if b >= half {
      OddWithTail(b - half);
    }
  }

  lemma {:induction false} ShiftsInjective(a: nat, b: nat, n: nat)
    requires a < TWO24 && b < TWO24 && Shifts(a, n) == Shifts(b, n)
    ensures a == b
  {
    hide Shift;
    if n > 0 {
      ShiftsBelow24(a, n - 1);
      ShiftsBelow24(b, n - 1);
      ShiftInjective(Shifts(a, n - 1), Shifts(b, n - 1));
      ShiftsInjective(a, b, n - 1);
    }
  }

  lemma {:induction false} ShiftsAdd(crc: nat, m: nat, n: nat)
    ensures Shifts(Shifts(crc, m), n) == Shifts(crc, m + n)
  {
    hide Shift;
    if n > 0 {
      ShiftsAdd(crc, m, n - 1);
    }
  }

  /** Shifts that do not reach bit 24 only multiply. */
  lemma {:induction false} ShiftsLow(crc: nat, n: nat)
    requires crc * Pow2(n) < TWO24
    ensures Shifts(crc, n) == crc * Pow2(n)
  {
    if n > 0 {
      assert crc * Pow2(n) == 2 * (crc * Pow2(n - 1));
      ShiftsLow(crc, n - 1);
    }
  }

  lemma ShiftsLow8(crc: nat)
    requires crc < TWO16
    ensures Shifts(crc, 8) == crc * TWO8
  {
    TwoPowers();
    ShiftsLow(crc, 8);
  }

  // ----- the table ---------------------------------------------------------------------------

  /** Entry `i` of the table: eight divisions of the octet `i` at the top of the register. */
  function TableEntry(i: nat): nat {
    Shifts(i * TWO16, 8) % TWO24
  }

  /** One octet through the table. */
  function TableStep(crc: nat, b: byte): nat {
    Xor((crc * TWO8) % TWO24, TableEntry(Xor(crc / TWO16, b) % TWO8))
  }

  lemma XorOctets(a: nat, b: nat)
    requires a < TWO8 && b < TWO8
    ensures Xor(a, b) < TWO8
  {
    TwoPowers();
    XorSplit(0, a, 0, b, 8);
  }

  /** The table is right: one lookup is eight bit-by-bit divisions. */
  lemma TableStepDivides(crc: nat, b: byte)
    requires crc < TWO24
    ensures TableStep(crc, b) == Divide(crc, b) && Divide(crc, b) < TWO24
  {
    hide Shifts, Xor;
    var h, l := crc / TWO16, crc % TWO16;
    var t := Xor(h, b);
    TwoPowers();
    XorOctets(h, b);
    XorZero(l);
    XorZero(t);
    assert crc == h * TWO16 + l;
    XorSplit(h, l, b, 0, 16);
    assert Xor(crc, b * TWO16) == t * TWO16 + l;
    XorSplit(t, 0, 0, l, 16);
    assert t * TWO16 + l == Xor(t * TWO16, l);
    ShiftsLinear(t * TWO16, l, 8);
    ShiftsLow8(l);
    ShiftsBelow24(t * TWO16, 8);
    ShiftsBelow24(Xor(t * TWO16, l), 8);
    assert (crc * TWO8) % TWO24 == l * TWO8;
    XorCommutes(l * TWO8, TableEntry(t));
  }

  lemma {:induction false} DivideAllBelow24(crc: nat, data: bytes)
    requires crc < TWO24
    ensures DivideAll(crc, data) < TWO24
  {
    if data != [] {
      DivideAllBelow24(crc, data[..|data| - 1]);
      TableStepDivides(DivideAll(crc, data[..|data| - 1]), data[|data| - 1]);
    }
  }

  /** The table, built entry by entry with eight conditional shifts each. */
  method BuildTable() returns (table: seq<nat>)
    ensures |table| == 256 && forall i :: 0 <= i < 256 ==> table[i] == TableEntry(i)
  {
    hide Xor;
    table := [];
    var i := 0;
    while i < 256
      invariant 0 <= i <= 256 && |table| == i
      invariant forall j :: 0 <= j < i ==> table[j] == TableEntry(j)
    {
      var crc := i * TWO16;
      var k := 0;
      while k < 8
        invariant 0 <= k <= 8 && crc == Shifts(i * TWO16, k)
      {
        crc := 2 * crc;
        if crc / TWO24 % 2 == 1 {
          crc := Xor(crc, POLYNOMIAL);
        }
        k := k + 1;
      }
      table := table + [crc % TWO24];
      i := i + 1;
    }
  }

  /** `crc24`: the table-driven loop computes the checksum of section 6.1 of RFC 4880. */
  method Crc(data: bytes) returns (crc: nat)
    ensures crc == Checksum(data) && crc < TWO24
  {
    hide Xor, Shifts;
    var table := BuildTable();
    crc := INITIAL;
    var i := 0;
    while i < |data|
      invariant 0 <= i <= |data|
      invariant crc == DivideAll(INITIAL, data[..i]) && crc < TWO24
    {
      var index := Xor(crc / TWO16, data[i]) % TWO8;
      TableStepDivides(crc, data[i]);
      crc := Xor((crc * TWO8) % TWO24, table[index]);
      assert data[..i + 1][..i] == data[..i];
      i := i + 1;
    }
    assert data[..|data|] == data;
  }

  // ----- errors it always catches ----------------------------------------------------------------

  lemma {:induction false} DivideAllSplit(crc: nat, a: bytes, b: bytes)
    ensures DivideAll(crc, a + b) == DivideAll(DivideAll(crc, a), b)
  {
    hide Divide;
    if b == [] {
      assert a + b == a;
    } else {
      DivideAllSplit(crc, a, b[..|b| - 1]);
      assert (a + b)[..|a + b| - 1] == a + b[..|b| - 1];
    }
  }

  /** With the same octets to come, different registers stay different. */
  lemma {:induction false} TailKeepsApart(x: nat, y: nat, tail: bytes)
    requires x < TWO24 && y < TWO24 && DivideAll(x, tail) == DivideAll(y, tail)
    ensures x == y
  {
    if tail != [] {
      hide Shifts, Xor;
      var front, b := tail[..|tail| - 1], tail[|tail| - 1];
      DivideAllBelow24(x, front);
      DivideAllBelow24(y, front);
      var u, v := DivideAll(x, front), DivideAll(y, front);
      XorBelow24(u, b * TWO16);
      XorBelow24(v, b * TWO16);
      ShiftsInjective(Xor(u, b * TWO16), Xor(v, b * TWO16), 8);
      XorCommutes(u, b * TWO16);
      XorCommutes(v, b * TWO16);
      XorCancels(b * TWO16, u, v);
      TailKeepsApart(x, y, front);
    }
  }

  /** Three octets as one 24-bit word. */
  function Word(b0: byte, b1: byte, b2: byte): nat {
    b0 * TWO16 + b1 * TWO8 + b2
  }

  lemma WordXor(b0: byte, b1: byte, b2: byte)
    ensures Word(b0, b1, b2) == Xor(Xor(b0 * TWO16, b1 * TWO8), b2)
    ensures Word(b0, b1, b2) < TWO24
  {
    hide Xor, Pow2;
    TwoPowers();
    XorZero(b0);
    XorZero(b1 * TWO8);
    XorSplit(b0, 0, 0, b1 * TWO8, 16);
    XorZero(b2);
    XorZero(b0 * TWO8 + b1);
    XorSplit(b0 * TWO8 + b1, 0, 0, b2, 8);
  }

  /** An octet that arrives 8 shifts later is the same octet one place lower. */
  lemma DivideLater(word: nat, b: byte, low: nat)
    requires word < TWO24 && low * TWO8 == b * TWO16
    ensures Divide(Shifts(word, 8), b) == Shifts(Xor(word, low), 16) && Xor(word, low) < TWO24
  {
    hide Shifts, Xor;
    ShiftsLow8(low);
    ShiftsLinear(word, low, 8);
    ShiftsAdd(Xor(word, low), 8, 8);
  }

  /** Three octets divided one by one are one 24-bit word divided at once. */
  lemma DivideThree(crc: nat, b0: byte, b1: byte, b2: byte)
    requires crc < TWO24
    ensures Divide(Divide(Divide(crc, b0), b1), b2) == Shifts(Xor(crc, Word(b0, b1, b2)), 24)
    ensures Xor(crc, Word(b0, b1, b2)) < TWO24
  {
    hide Shifts, Xor, Word;
    WordXor(b0, b1, b2);
    XorBelow24(crc, Word(b0, b1, b2));
    XorBelow24(crc, b0 * TWO16);
    var w0 := Xor(crc, b0 * TWO16);
    DivideLater(w0, b1, b1 * TWO8);
    var w1 := Xor(w0, b1 * TWO8);
    DivideThird(w1, b2);
    XorAssociates(crc, b0 * TWO16, b1 * TWO8);
    XorAssociates(crc, Xor(b0 * TWO16, b1 * TWO8), b2);
  }

  lemma DivideThird(word: nat, b: byte)
    requires word < TWO24
    ensures Divide(Shifts(word, 16), b) == Shifts(Xor(word, b), 24) && Xor(word, b) < TWO24
  {
    hide Shifts, Xor;
    ShiftsLow8(b);
    ShiftsLow8(b * TWO8);
    ShiftsAdd(b, 8, 8);
    ShiftsLinear(word, b, 16);
    ShiftsAdd(Xor(word, b), 16, 8);
  }

  /** Where a window of octets and the ones after it leave the register. */
  lemma ChecksumParts(front: bytes, x: bytes, tail: bytes)
    ensures DivideAll(INITIAL, front) < TWO24
    ensures DivideAll(DivideAll(INITIAL, front), x) < TWO24
    ensures Checksum(front + x + tail) == DivideAll(DivideAll(DivideAll(INITIAL, front), x), tail)
  {
    hide Divide;
    DivideAllBelow24(INITIAL, front);
    DivideAllBelow24(DivideAll(INITIAL, front), x);
    DivideAllSplit(INITIAL, front + x, tail);
    DivideAllSplit(INITIAL, front, x);
  }

  lemma WordDetermines(x: bytes, y: bytes)
    requires |x| == 3 && |y| == 3 && Word(x[0], x[1], x[2]) == Word(y[0], y[1], y[2])
    ensures x == y
  {
    assert x[0] == y[0] && x[1] == y[1] && x[2] == y[2];
    assert x == [x[0], x[1], x[2]] && y == [y[0], y[1], y[2]];
  }

  /** A burst error confined to three consecutive octets always changes the checksum; an error
      in a single octet is the special case where two of the three agree. */
  lemma BurstDetected(front: bytes, x: bytes, y: bytes, tail: bytes)
    requires |x| == 3 && |y| == 3 && x != y
    ensures Checksum(front + x + tail) != Checksum(front + y + tail)
  {
    hide *;
    ChecksumParts(front, x, tail);
    ChecksumParts(front, y, tail);
    if Checksum(front + x + tail) == Checksum(front + y + tail) {
      var crc := DivideAll(INITIAL, front);
      TailKeepsApart(DivideAll(crc, x), DivideAll(crc, y), tail);
      DivideAllThree(crc, x);
      DivideAllThree(crc, y);
      var wx, wy := Word(x[0], x[1], x[2]), Word(y[0], y[1], y[2]);
      ShiftsInjective(Xor(crc, wx), Xor(crc, wy), 24);
      XorCancels(crc, wx, wy);
      WordDetermines(x, y);
    }
  }

  lemma DivideAllThree(crc: nat, x: bytes)
    requires crc < TWO24 && |x| == 3
    ensures DivideAll(crc, x) == Shifts(Xor(crc, Word(x[0], x[1], x[2])), 24)
    ensures Xor(crc, Word(x[0], x[1], x[2])) < TWO24
  {
    hide Shifts, Xor, Divide, Word;
    assert x[..2][..1] == x[..1] && x[..1][..0] == [];
    assert DivideAll(crc, x) == Divide(DivideAll(crc, x[..2]), x[2]);
    assert DivideAll(crc, x[..2]) == Divide(DivideAll(crc, x[..1]), x[1]);
    assert DivideAll(crc, x[..1]) == Divide(crc, x[0]);
    DivideThree(crc, x[0], x[1], x[2]);
  }

  /** Two inputs of the same length that differ in exactly one octet never share a checksum. */
  lemma OneOctetDetected(front: bytes, x: byte, y: byte, tail: bytes)
    requires x != y
    ensures Checksum(front + [x] + tail) != Checksum(front + [y] + tail)
  {
    hide Shifts, Xor, Checksum;
    ChecksumParts(front, [x], tail);
    ChecksumParts(front, [y], tail);
    if Checksum(front + [x] + tail) == Checksum(front + [y] + tail) {
      var crc := DivideAll(INITIAL, front);
      TailKeepsApart(DivideAll(crc, [x]), DivideAll(crc, [y]), tail);
      XorBelow24(crc, x * TWO16);
      XorBelow24(crc, y * TWO16);
      assert [x][..0] == [] && [y][..0] == [];
      ShiftsInjective(Xor(crc, x * TWO16), Xor(crc, y * TWO16), 8);
      XorCancels(crc, x * TWO16, y * TWO16);
    }
  }
}

/**
 Bit operations on non-negative integers, as Python has them: unbounded.
 */
module Bits {

  function Pow2(k: nat): (p: nat)
    ensures 1 <= p
  {
    if k == 0 then 1 else 2 * Pow2(k - 1)
  }

  /** `value << shift`. */
  function Shl(value: nat, shift: nat): nat {
    value * Pow2(shift)
  }

  /** `a | b`. */
  function Or(a: nat, b: nat): nat {
    if a == 0 then b
    else if b == 0 then a
    else 2 * Or(a / 2, b / 2) + (if a % 2 == 1 || b % 2 == 1 then 1 else 0)
  }

  /** `a ^ b`. */
  function Xor(a: nat, b: nat): nat
    decreases a + b
  {
    if a == 0 && b == 0 then 0 else 2 * Xor(a / 2, b / 2) + (a % 2 + b % 2) % 2
  }

  lemma {:induction false} Pow2Add(j: nat, k: nat)
    ensures Pow2(j + k) == Pow2(j) * Pow2(k)
  {
    if j != 0 {
      Pow2Add(j - 1, k);
      assert Pow2(j + k) == 2 * Pow2(j - 1 + k);
    }
  }

  lemma {:induction false} Pow2Monotone(j: nat, k: nat)
    requires j <= k
    ensures Pow2(j) <= Pow2(k)
    decreases k - j
  {
    if j < k {
      Pow2Monotone(j + 1, k);
    }
  }

  lemma Pow2Small()
    ensures Pow2(1) == 2 && Pow2(2) == 4 && Pow2(3) == 8 && Pow2(4) == 16
    ensures Pow2(5) == 32 && Pow2(6) == 64 && Pow2(7) == 128 && Pow2(8) == 256
  {
    assert Pow2(4) == 2 * Pow2(3) && Pow2(3) == 2 * Pow2(2) && Pow2(2) == 2 * Pow2(1);
    assert Pow2(8) == 2 * Pow2(7) && Pow2(7) == 2 * Pow2(6) && Pow2(6) == 2 * Pow2(5);
  }

  lemma Pow2By7(k: nat)
    ensures Pow2(k + 7) == 128 * Pow2(k)
  {
    Pow2Add(7, k);
    Pow2Small();
  }

  /** OR-ing in a value shifted past the other operand adds it. */
  lemma {:induction false} OrDisjoint(a: nat, b: nat, shift: nat)
    requires a < Pow2(shift)
    ensures Or(a, Shl(b, shift)) == a + Shl(b, shift)
    decreases shift
  {
    if a != 0 && b != 0 {
      var half := Shl(b, shift - 1);
      assert Shl(b, shift) == 2 * half by {
        assert Pow2(shift) == 2 * Pow2(shift - 1);
      }
      OrDisjoint(a / 2, b, shift - 1);
    }
  }

  // ----- exclusive or ----------------------------------------------------------------

  lemma {:induction false} XorZero(a: nat)
    ensures Xor(a, 0) == a && Xor(0, a) == a
  {
    if a != 0 {
      XorZero(a / 2);
    }
  }

  lemma {:induction false} XorSelf(a: nat)
    ensures Xor(a, a) == 0
  {
    if a != 0 {
      XorSelf(a / 2);
    }
  }

  lemma {:induction false} XorCommutes(a: nat, b: nat)
    ensures Xor(a, b) == Xor(b, a)
    decreases a + b
  {
    if a != 0 || b != 0 {
      XorCommutes(a / 2, b / 2);
    }
  }

  lemma XorHalf(a: nat, b: nat)
    ensures Xor(a, b) / 2 == Xor(a / 2, b / 2) && Xor(a, b) % 2 == (a % 2 + b % 2) % 2
  {
  }

  lemma HalvesAgree(x: nat, y: nat)
    requires x / 2 == y / 2 && x % 2 == y % 2
    ensures x == y
  {
  }

  lemma ParityAssociates(a: nat, b: nat, c: nat)
    ensures ((a % 2 + b % 2) % 2 + c % 2) % 2 == (a % 2 + (b % 2 + c % 2) % 2) % 2
  {
  }

  lemma {:induction false} XorAssociates(a: nat, b: nat, c: nat)
    ensures Xor(Xor(a, b), c) == Xor(a, Xor(b, c))
    decreases a + b + c
  {
    hide Xor;
    if a == 0 && b == 0 && c == 0 {
      XorZero(0);
    } else {
      XorAssociates(a / 2, b / 2, c / 2);
      XorHalf(a, b);
      XorHalf(b, c);
      XorHalf(Xor(a, b), c);
      XorHalf(a, Xor(b, c));
      ParityAssociates(a, b, c);
      HalvesAgree(Xor(Xor(a, b), c), Xor(a, Xor(b, c)));
    }
  }

  /** XOR with a fixed value loses nothing. */
  lemma XorCancels(a: nat, b: nat, c: nat)
    requires Xor(a, b) == Xor(a, c)
    ensures b == c
  {
    XorAssociates(a, a, b);
    XorAssociates(a, a, c);
    XorSelf(a);
    XorZero(b);
    XorZero(c);
  }

  lemma JoinHalf(h: nat, l: nat, p: nat)
    ensures (h * (2 * p) + l) / 2 == h * p + l / 2 && (h * (2 * p) + l) % 2 == l % 2
  {
    assert h * (2 * p) == 2 * (h * p);
  }

  /** XOR works on the high and the low part separately. */
  lemma {:induction false} XorSplit(h: nat, l: nat, h': nat, l': nat, k: nat)
    requires l < Pow2(k) && l' < Pow2(k)
    ensures Xor(l, l') < Pow2(k)
    ensures Xor(h * Pow2(k) + l, h' * Pow2(k) + l') == Xor(h, h') * Pow2(k) + Xor(l, l')
    decreases k
  {
    hide Xor;
    if k == 0 {
      XorZero(0);
      assert h * Pow2(0) == h && h' * Pow2(0) == h' && Xor(h, h') * Pow2(0) == Xor(h, h');
    } else {
      var p := Pow2(k - 1);
      var a, b := h * (2 * p) + l, h' * (2 * p) + l';
      JoinHalf(h, l, p);
      JoinHalf(h', l', p);
      XorSplit(h, l / 2, h', l' / 2, k - 1);
      XorHalf(a, b);
      XorHalf(l, l');
      JoinHalf(Xor(h, h'), Xor(l, l'), p);
      HalvesAgree(Xor(a, b), Xor(h, h') * (2 * p) + Xor(l, l'));
    }
  }
}

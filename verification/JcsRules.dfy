/**
 The rules of RFC 8785 written out, and the serialiser proved to follow them: what
 each character and number is written as, how values are put together, and in which
 order an object's members stand. Round trips alone would also hold of other rules.
 */
module JcsNumberRules {
  import opened Prelude
  import opened Numerals
  import opened Decimal
  import opened JcsNumber
  import opened JcsText

  // ----- numbers (section 3.2.2.3, section 6.1.6.1.20 of ECMA-262) ---------------------------

  /** A numeral is written from its sign, its k significant digits d, and the n for which its
      magnitude is 0.d times 10 to the n: as a whole number padded with zeros, with the point among
      the digits, with the point before them, or with a signed exponent. */
  lemma NumberRule(r: string) returns (d: string, n: int)
    requires Shape(r)
    ensures d != [] && AllDigits(d) && d[0] != '0' && d[|d| - 1] != '0'
    ensures SameNumber(NumberOf(r), Number(NumberOf(r).neg, Value10(d), n - |d|))
    ensures var k := |d|; var sign := if NumberOf(r).neg then "-" else "";
      && (k <= n <= 21 ==> Reformat(r) == sign + (d + ZeroChars(n - k)))
      && (0 < n < k && n <= 21 ==> Reformat(r) == sign + (d[..n] + "." + d[n..]))
      && (-6 < n <= 0 ==> Reformat(r) == sign + ("0." + (ZeroChars(-n) + d)))
      && (n <= -6 ==> Reformat(r) == sign + (d[..1] + (if k == 1 then "" else "." + d[1..]) + "e-" + Str(1 - n)))
      && (n > 21 ==> Reformat(r) == sign + (d[..1] + (if k == 1 then "" else "." + d[1..]) + "e+" + Str(n - 1)))
  {
    hide *;
    ReadRule(r);
    d, n := Read(r).digits, Read(r).n;
    AssembleRule(d, n);
  }

  lemma ReadRule(r: string)
    requires Shape(r)
    ensures var d, n := Read(r).digits, Read(r).n;
      && d != [] && AllDigits(d) && d[0] != '0' && d[|d| - 1] != '0'
      && SameNumber(NumberOf(r), Number(NumberOf(r).neg, Value10(d), n - |d|))
      && Reformat(r) == (if NumberOf(r).neg then "-" else "") + AssembleUnsigned(d, n)
  {
    hide Value10, AllDigits, SameNumber;
    ReadKeepsNumber(r);
    ReformatIs(r);
  }

  /** The layout without its sign. */
  lemma AssembleRule(d: string, n: int)
    requires d != []
    ensures var k, t := |d|, AssembleUnsigned(d, n);
      && (k <= n <= 21 ==> t == d + ZeroChars(n - k))
      && (0 < n < k && n <= 21 ==> t == d[..n] + "." + d[n..])
      && (-6 < n <= 0 ==> t == "0." + (ZeroChars(-n) + d))
      && (n <= -6 ==> t == d[..1] + (if k == 1 then "" else "." + d[1..]) + "e-" + Str(1 - n))
      && (n > 21 ==> t == d[..1] + (if k == 1 then "" else "." + d[1..]) + "e+" + Str(n - 1))
  {
    hide Str, SignedStr, ZeroChars;
    assert "0" + ['.'] == "0.";
    ExponentText(d, n);
  }

  lemma ExponentText(d: string, n: int)
    requires d != []
    ensures n > 21 ==> AssembleUnsigned(d, n) == d[..1] + (if |d| == 1 then "" else "." + d[1..]) + "e+" + Str(n - 1)
    ensures n <= -6 ==> AssembleUnsigned(d, n) == d[..1] + (if |d| == 1 then "" else "." + d[1..]) + "e-" + Str(1 - n)
  {
    hide *;
    FrontText(d);
    if n > 21 {
      ExponentShape(d, n);
      ExponentMark(Front(d), "+", Str(n - 1));
      assert "e" + "+" == "e+";
    } else if n <= -6 {
      ExponentShape(d, n);
      ExponentMark(Front(d), "-", Str(1 - n));
      assert "e" + "-" == "e-";
    }
  }

  /** The digits of the exponent form, with the point after the first. */
  function Front(d: string): string
    requires d != []
  {
    if |d| == 1 then d else d[..1] + ['.'] + d[1..]
  }

  lemma FrontText(d: string)
    requires d != []
    ensures Front(d) == d[..1] + (if |d| == 1 then "" else "." + d[1..])
  {
    assert ['.'] == ".";
  }

  lemma ExponentShape(d: string, n: int)
    requires d != []
    ensures n > 21 ==> AssembleUnsigned(d, n) == Front(d) + ['e'] + ("+" + Str(n - 1))
    ensures n <= -6 ==> AssembleUnsigned(d, n) == Front(d) + ['e'] + ("-" + Str(1 - n))
  {
    hide Str, ZeroChars;
  }

  lemma ExponentMark(front: string, mark: string, digits: string)
    ensures front + ['e'] + (mark + digits) == front + ("e" + mark) + digits
  {
  }

  /** The magnitude is at least 10 to the p. */
  predicate AtLeast(x: Number, p: int) {
    var low := Min(x.exponent, p);
    Scaled(x.mantissa, x.exponent - low) >= Pow10(p - low)
  }

  /** The exponent form is used exactly for magnitudes below a millionth and from 10 to the 21 up. */
  lemma ExponentRule(r: string)
    requires Shape(r)
    ensures 'e' in Reformat(r) <==> !AtLeast(NumberOf(r), -6) || AtLeast(NumberOf(r), 21)
  {
    var d, n := NumberRule(r);
    var x := Number(NumberOf(r).neg, Value10(d), n - |d|);
    hide *;
    SameMagnitude(NumberOf(r), x, -6);
    SameMagnitude(NumberOf(r), x, 21);
    LayoutMagnitude(x, d, n, -6);
    LayoutMagnitude(x, d, n, 21);
    MarkOnly(d, n);
  }

  /** Digits hold no exponent mark. */
  lemma MarkOnly(d: string, n: int)
    requires d != [] && AllDigits(d)
    ensures 'e' !in d && 'e' !in "-" && 'e' !in d[..1]
    ensures forall k: nat :: 'e' !in ZeroChars(k)
    ensures 'e' in "e+" && 'e' in "e-" && 'e' !in "." && 'e' !in "0."
    ensures 0 <= n <= |d| ==> 'e' !in d[..n] && 'e' !in d[n..]
  {
    NoMarks(d);
    assert "e+"[0] == 'e' && "e-"[0] == 'e';
  }

  lemma SameMagnitude(x: Number, y: Number, p: int)
    requires SameNumber(x, y)
    ensures AtLeast(x, p) <==> AtLeast(y, p)
  {
    var low := Min(x.exponent, Min(y.exponent, p));
    SameAtScale(x, y, low);
    AtScale(x, p, low);
    AtScale(y, p, low);
  }

  /** The comparison at any lower scale. */
  lemma AtScale(x: Number, p: int, low: int)
    requires low <= x.exponent && low <= p
    ensures AtLeast(x, p) <==> Scaled(x.mantissa, x.exponent - low) >= Pow10(p - low)
  {
    var m := Min(x.exponent, p);
    var q := Pow10(m - low);
    Pow10Add(x.exponent - m, m - low);
    Pow10Add(p - m, m - low);
    MulAssoc(x.mantissa, Pow10(x.exponent - m), q);
    MulOrder(x.mantissa * Pow10(x.exponent - m), Pow10(p - m), q);
  }

  lemma MulOrder(a: nat, b: nat, q: nat)
    requires 1 <= q
    ensures a * q >= b * q <==> a >= b
  {
    if a >= b {
      assert (a - b) * q == a * q - b * q && (a - b) * q >= 0;
    } else {
      assert (b - a) * q == b * q - a * q;
      MulPositive(b - a, q);
    }
  }

  lemma MulPositive(a: nat, q: nat)
    requires 1 <= a && 1 <= q
    ensures a * q >= 1
  {
  }

  lemma LayoutMagnitude(x: Number, d: string, n: int, p: int)
    requires d != [] && AllDigits(d) && d[0] != '0' && x.mantissa == Value10(d) && x.exponent == n - |d|
    ensures AtLeast(x, p) <==> n > p
  {
    ValueBounds(d);
    var k, low := |d|, Min(x.exponent, p);
    AtScale(x, p, low);
    var s := x.exponent - low;
    assert Scaled(x.mantissa, s) == x.mantissa * Pow10(s);
    hide Value10, Pow10, Scaled, AtLeast;
    Pow10Add(k - 1, s);
    Pow10Add(k, s);
    MulOrder(x.mantissa, Pow10(k - 1), Pow10(s));
    MulOrder(x.mantissa, Pow10(k), Pow10(s));
    if n > p {
      Pow10Grows(p - low, k - 1 + s);
    } else {
      Pow10Grows(k + s, p - low);
    }
  }

  lemma {:induction false} Pow10Grows(a: nat, b: nat)
    requires a <= b
    ensures Pow10(a) <= Pow10(b)
  {
    if a < b { Pow10Grows(a, b - 1); }
  }

  lemma ValueBounds(d: string)
    requires d != [] && AllDigits(d) && d[0] != '0'
    ensures Pow10(|d| - 1) <= Value10(d) < Pow10(|d|)
  {
    assert Digs(d)[0] != 0;
    DigitBounds(Digs(d));
  }

  lemma {:induction false} DigitBounds(ds: seq<nat>)
    requires ds != [] && ds[0] != 0 && InBase(10, ds)
    ensures Pow10(|ds| - 1) <= ValueOf(10, ds) < Pow10(|ds|)
    decreases |ds|
  {
    var front, last := ds[..|ds| - 1], ds[|ds| - 1];
    assert last in ds && forall d :: d in front ==> d in ds;
    if front != [] {
      DigitBounds(front);
    } else {
      assert Pow10(1) == 10 * Pow10(0);
    }
  }

  /** Zero is written `0`, and an integer Python keeps exact as its decimal digits. */
  lemma SafeNumberRule(x: Numeral)
    requires Finite(x)
    ensures IsZero(x) ==> NumText(x) == "0"
    ensures x.Safe? && x.n > 0 ==> NumText(x) == Str(x.n)
    ensures x.Safe? && x.n < 0 ==> NumText(x) == "-" + Str(-x.n)
    ensures x.Double? && !IsZero(x) ==> NumText(x) == Reformat(x.repr)
  {
    assert Str(0) == "0";
  }
}

module JcsRules {
  import opened Prelude
  import opened Unicode
  import opened JcsText
  import opened Jcs
  import opened JcsProofs

  // ----- strings (section 3.2.2.2) ---------------------------------------------------------

  /** A string is written character by character between quotes: seven characters as a backslash and
      a letter, the other controls as four lower-case hexadecimal digits, the rest as they are. */
  lemma StringRule(cp: Scalar, rest: Text)
    ensures Quoted([]) == [0x22, 0x22]
    ensures var hex := "0123456789abcdef";
      Quoted([cp] + rest) == [0x22]
        + (if cp == 0x08 then [0x5C, 'b' as int]
           else if cp == 0x09 then [0x5C, 't' as int]
           else if cp == 0x0A then [0x5C, 'n' as int]
           else if cp == 0x0C then [0x5C, 'f' as int]
           else if cp == 0x0D then [0x5C, 'r' as int]
           else if cp == 0x22 || cp == 0x5C then [0x5C, cp]
           else if cp < 0x20 then [0x5C, 'u' as int, '0' as int, '0' as int, hex[cp / 16] as int, hex[cp % 16] as int]
           else [cp])
        + Quoted(rest)[1..]
  {
    var s := [cp] + rest;
    assert s[1..] == rest;
    assert Quoted(rest)[1..] == EscapedAll(rest) + [QUOTE];
    ConcatAssoc([QUOTE], Escaped(cp), EscapedAll(rest));
    ConcatAssoc([QUOTE] + Escaped(cp), EscapedAll(rest), [QUOTE]);
  }

  // ----- values --------------------------------------------------------------------------------

  /** Texts with commas between them. */
  function Joined(parts: seq<Text>): Text {
    if parts == [] then []
    else if |parts| == 1 then parts[0]
    else parts[0] + [',' as int] + Joined(parts[1..])
  }

  /** The scalars. */
  lemma LeafRule(v: Json, depth: nat)
    requires depth <= 100
    ensures Serialize(Null, depth) == Ok(Points("null"))
    ensures Serialize(Bool(true), depth) == Ok(Points("true")) && Serialize(Bool(false), depth) == Ok(Points("false"))
    ensures v.Str? ==> Serialize(v, depth) == Ok(Quoted(v.t))
    ensures v.Num? && Finite(v.x) ==> Serialize(v, depth) == Ok(Points(NumText(v.x)))
  {
  }

  lemma {:induction false} ItemsText(items: seq<Json>, depth: nat) returns (parts: seq<Text>)
    requires SerializeItems(items, depth).Ok?
    ensures |parts| == |items| && SerializeItems(items, depth).value == Joined(parts)
    ensures forall i :: 0 <= i < |items| ==> Serialize(items[i], depth) == Ok(parts[i])
    decreases |items|
  {
    hide Serialize;
    if items == [] {
      parts := [];
    } else {
      var first := Serialize(items[0], depth).value;
      if |items| == 1 {
        parts := [first];
      } else {
        var more := ItemsText(items[1..], depth);
        parts := [first] + more;
        assert parts[1..] == more;
        assert forall i :: 0 < i < |items| ==> items[i] == items[1..][i - 1] && parts[i] == more[i - 1];
      }
    }
  }

  /** An array: its items' texts one level down, in order, commas between them. */
  lemma ArrayRule(items: seq<Json>, depth: nat) returns (parts: seq<Text>)
    requires Serialize(Arr(items), depth).Ok?
    ensures |parts| == |items| && forall i :: 0 <= i < |items| ==> Serialize(items[i], depth + 1) == Ok(parts[i])
    ensures Serialize(Arr(items), depth).value == ['[' as int] + Joined(parts) + [']' as int]
  {
    parts := ItemsText(items, depth + 1);
  }

  lemma {:induction false} MembersText(ms: seq<Member>, depth: nat) returns (parts: seq<Text>)
    requires SerializeMembers(ms, depth).Ok?
    ensures |parts| == |ms|
    ensures forall i :: 0 <= i < |ms| ==> Serialize(ms[i].value, depth) == Ok(parts[i])
    ensures SerializeMembers(ms, depth).value ==
      Joined(seq(|ms|, i requires 0 <= i < |ms| => Quoted(ms[i].name) + [':' as int] + parts[i]))
    decreases |ms|
  {
    hide Serialize, Quoted;
    if ms == [] {
      parts := [];
    } else {
      assert SerializeMember(ms[0], depth).Ok?;
      var first := Serialize(ms[0].value, depth).value;
      var whole: seq<Text>;
      if |ms| == 1 {
        parts := [first];
        whole := seq(|ms|, i requires 0 <= i < |ms| => Quoted(ms[i].name) + [':' as int] + parts[i]);
        assert whole == [Quoted(ms[0].name) + [':' as int] + first];
      } else {
        var tail := ms[1..];
        var more := MembersText(tail, depth);
        parts := [first] + more;
        assert forall i :: 0 < i < |ms| ==> ms[i] == tail[i - 1] && parts[i] == more[i - 1];
        whole := seq(|ms|, i requires 0 <= i < |ms| => Quoted(ms[i].name) + [':' as int] + parts[i]);
        assert whole[1..] == seq(|tail|, i requires 0 <= i < |tail| => Quoted(tail[i].name) + [':' as int] + more[i]);
      }
    }
  }

  /** An object: every member once, name and value with a colon between, commas between members, in
      the order of section 3.2.3, which `NameBefore` states of the names' characters. */
  lemma ObjectRule(ms: seq<Member>, depth: nat) returns (r: seq<Member>, parts: seq<Text>)
    requires DistinctNames(ms) && Serialize(Obj(ms), depth).Ok?
    ensures multiset(r) == multiset(ms)
    ensures forall i, j :: 0 <= i < j < |r| ==> NameBefore(r[i].name, r[j].name)
    ensures |parts| == |r| && forall i :: 0 <= i < |r| ==> Serialize(r[i].value, depth + 1) == Ok(parts[i])
    ensures Serialize(Obj(ms), depth).value == ['{' as int]
      + Joined(seq(|r|, i requires 0 <= i < |r| => Quoted(r[i].name) + [':' as int] + parts[i])) + ['}' as int]
  {
    r := Sorted(ms);
    parts := MembersText(r, depth + 1);
    SortedAscending(ms);
    hide Sorted, NameBefore, Before, Serialize, Quoted;
    forall i, j | 0 <= i < j < |r|
      ensures NameBefore(r[i].name, r[j].name)
    {
      BeforeExactly(r[i].name, r[j].name);
      assert Before(r[i].name, r[j].name);
    }
  }
}

/**
 The leaves of canonical JSON (sections 3.2.2.2 and 3.2.2.3 of RFC 8785): string
 escapes and number text, each with the reader that takes it back, and the
 UTF-16 order of member names.
 */
module JcsText {
  import opened Prelude
  import opened Order
  import opened Unicode
  import opened Numerals
  import opened Decimal
  import opened JcsNumber

  const QUOTE: Scalar := 0x22
  const BACKSLASH: Scalar := 0x5C

  // ----- strings ---------------------------------------------------------------------

  /** The letter of a two-character escape. */
  function ShortEscape(cp: Scalar): Option<Scalar> {
    if cp == 0x08 then Some(0x62)
    else if cp == 0x09 then Some(0x74)
    else if cp == 0x0A then Some(0x6E)
    else if cp == 0x0C then Some(0x66)
    else if cp == 0x0D then Some(0x72)
    else if cp == 0x22 then Some(0x22)
    else if cp == 0x5C then Some(0x5C)
    else None
  }

  function HexDigit(d: nat): Scalar
    requires d < 16
  {
    if d < 10 then 0x30 + d else 0x61 + (d - 10)
  }

  function Escaped(cp: Scalar): (t: Text)
    ensures t != []
  {
    var short := ShortEscape(cp);
    if short.Some? then [BACKSLASH, short.value]
    else if cp < 0x20 then [BACKSLASH, 0x75, 0x30, 0x30, HexDigit(cp / 16), HexDigit(cp % 16)]
    else [cp]
  }

  function EscapedAll(s: Text): Text {
    if s == [] then [] else Escaped(s[0]) + EscapedAll(s[1..])
  }

  /** `_escape_string`. */
  function Quoted(s: Text): Text {
    [QUOTE] + EscapedAll(s) + [QUOTE]
  }

  lemma {:induction false} EscapedAllAppend(s: Text, cp: Scalar)
    ensures EscapedAll(s + [cp]) == EscapedAll(s) + Escaped(cp)
  {
    if s == [] {
      assert [cp][1..] == [];
    } else {
      assert (s + [cp])[1..] == s[1..] + [cp];
      EscapedAllAppend(s[1..], cp);
    }
  }

  method EscapeString(s: Text) returns (out: Text)
    ensures out == Quoted(s)
  {
    hide EscapedAll;
    out := [QUOTE];
    assert EscapedAll(s[..0]) == [] by { NothingEscaped(s[..0]); }
    for i := 0 to |s|
      invariant out == [QUOTE] + EscapedAll(s[..i])
    {
      EscapedAllAppend(s[..i], s[i]);
      assert s[..i + 1] == s[..i] + [s[i]];
      ConcatAssoc([QUOTE], EscapedAll(s[..i]), Escaped(s[i]));
      var esc := ShortEscape(s[i]);
      if esc.Some? {
        out := out + [BACKSLASH, esc.value];
      } else if s[i] < 0x20 {
        out := out + [BACKSLASH, 0x75, 0x30, 0x30, HexDigit(s[i] / 16), HexDigit(s[i] % 16)];
      } else {
        out := out + [s[i]];
      }
    }
    assert s[..|s|] == s;
    out := out + [QUOTE];
  }

  lemma NothingEscaped(s: Text)
    requires s == []
    ensures EscapedAll(s) == []
  {
  }

  lemma {:induction false} CodeUnitsAppend(s: Text, cp: Scalar)
    ensures CodeUnits(s + [cp]) == CodeUnits(s) + UnitsOf(cp)
  {
    if s == [] {
      assert [cp][1..] == [];
    } else {
      assert (s + [cp])[1..] == s[1..] + [cp];
      CodeUnitsAppend(s[1..], cp);
    }
  }

  /** `_code_units`. */
  method CodeUnitsOf(s: Text) returns (units: seq<nat>)
    ensures units == CodeUnits(s)
  {
    units := [];
    for i := 0 to |s|
      invariant units == CodeUnits(s[..i])
    {
      CodeUnitsAppend(s[..i], s[i]);
      assert s[..i + 1] == s[..i] + [s[i]];
      var cp: int := s[i];
      if cp > 0xFFFF {
        cp := cp - 0x10000;
        units := units + [0xD800 + cp / 1024];
        units := units + [0xDC00 + cp % 1024];
      } else {
        units := units + [cp];
      }
    }
    assert s[..|s|] == s;
  }

  // ----- reading strings -----------------------------------------------------------------

  function FromShort(letter: Scalar): Option<Scalar> {
    if letter == 0x62 then Some(0x08)
    else if letter == 0x74 then Some(0x09)
    else if letter == 0x6E then Some(0x0A)
    else if letter == 0x66 then Some(0x0C)
    else if letter == 0x72 then Some(0x0D)
    else if letter == 0x22 then Some(0x22)
    else if letter == 0x5C then Some(0x5C)
    else None
  }

  function FromHex(cp: Scalar): Option<nat> {
    if 0x30 <= cp < 0x3A then Some(cp - 0x30)
    else if 0x61 <= cp < 0x67 then Some(cp - 0x61 + 10)
    else None
  }

  /** One character of a string, escaped or not, and how many characters it took. */
  function ReadChar(s: Text): (r: Option<(Scalar, nat)>)
    requires s != []
    ensures r.Some? ==> 1 <= r.value.1 <= |s|
  {
    if s[0] != BACKSLASH then Some((s[0], 1))
    else if |s| < 2 then None
    else if s[1] == 0x75 then
      if |s| < 6 || s[2] != 0x30 || s[3] != 0x30 then None
      else
        var high, low := FromHex(s[4]), FromHex(s[5]);
        if high == None || low == None then None else Some((high.value * 16 + low.value, 6))
    else
      var cp := FromShort(s[1]);
      if cp == None then None else Some((cp.value, 2))
  }

  /** The characters up to the closing quote, and what follows it. */
  function ReadBody(s: Text): (r: Option<(Text, Text)>)
    ensures r.Some? ==> |r.value.1| < |s|
    decreases |s|
  {
    if s == [] then None
    else if s[0] == QUOTE then Some(([], s[1..]))
    else
      var one := ReadChar(s);
      if one == None then None
      else
        var (cp, k) := one.value;
        var more := ReadBody(s[k..]);
        if more == None then None else Some(([cp] + more.value.0, more.value.1))
  }

  lemma ReadCharInverts(cp: Scalar, rest: Text)
    ensures Escaped(cp)[0] != QUOTE
    ensures ReadChar(Escaped(cp) + rest) == Some((cp, |Escaped(cp)|))
  {
    var s := Escaped(cp) + rest;
    if ShortEscape(cp) == None && cp < 0x20 {
      assert FromHex(HexDigit(cp / 16)) == Some(cp / 16);
      assert FromHex(HexDigit(cp % 16)) == Some(cp % 16);
    }
  }

  lemma {:induction false} ReadBodyInverts(s: Text, rest: Text)
    ensures ReadBody(EscapedAll(s) + [QUOTE] + rest) == Some((s, rest))
  {
    var t := EscapedAll(s) + [QUOTE] + rest;
    if s == [] {
      assert t[1..] == rest;
    } else {
      var e := Escaped(s[0]);
      var tail := EscapedAll(s[1..]) + [QUOTE] + rest;
      assert t == e + tail;
      ReadCharInverts(s[0], tail);
      assert t[|e|..] == tail;
      ReadBodyInverts(s[1..], rest);
      assert s == [s[0]] + s[1..];
      hide Escaped, ReadChar;
    }
  }

  // ----- numbers --------------------------------------------------------------------------

  const SAFE := 0x20_0000_0000_0000 // 2^53

  /** A Python number. An int outside the safe range is the double `float` makes of it, or
      `NotFinite` when that overflows. */
  datatype Numeral = Safe(n: int) | Double(repr: string) | NotFinite

  /** `repr` of a zero double. */
  predicate ZeroRepr(r: string) {
    r == "0.0" || r == "-0.0" || r == "0"
  }

  predicate Finite(x: Numeral) {
    match x
    case Safe(n) => -SAFE < n < SAFE
    case Double(r) => ZeroRepr(r) || Shape(r)
    case NotFinite => false
  }

  /** `str(n)`. */
  function IntStr(n: int): string {
    if n < 0 then "-" + Str(-n) else Str(n)
  }

  function NumText(x: Numeral): string
    requires Finite(x)
  {
    match x
    case Safe(n) => IntStr(n)
    case Double(r) => if ZeroRepr(r) then "0" else Reformat(r)
  }

  /** The rational number meant; zero has one representation. */
  function Meant(x: Numeral): Number
    requires Finite(x)
  {
    match x
    case Safe(n) => Number(n < 0, if n < 0 then -n else n, 0)
    case Double(r) => if ZeroRepr(r) then Number(false, 0, 0) else NumberOf(r)
  }

  predicate SameRational(x: Numeral, y: Numeral)
    requires Finite(x) && Finite(y)
  {
    SameNumber(Meant(x), Meant(y))
  }

  predicate IsZero(x: Numeral) {
    match x
    case Safe(n) => n == 0
    case Double(r) => ZeroRepr(r)
    case NotFinite => false
  }

  function Repr(x: Numeral): string
    requires Finite(x)
  {
    match x
    case Safe(n) => IntStr(n)
    case Double(r) => r
  }

  // The number of digits of a safe integer.

  lemma {:induction false} DigitsBelow(n: nat, k: nat)
    requires n < Pow10(k)
    ensures |DigitsOf(10, n)| <= k
    decreases k
  {
    if n != 0 {
      assert k != 0 && Pow10(k) == 10 * Pow10(k - 1);
      DivMod(n, 10);
      DigitsBelow(n / 10, k - 1);
    }
  }

  lemma SafeIsShort(n: nat)
    requires n < SAFE
    ensures |Str(n)| <= 16
  {
    assert Pow10(4) == 10 * (10 * (10 * (10 * 1))) == 10000;
    Pow10Add(4, 4);
    Pow10Add(8, 8);
    assert Pow10(16) == 1_0000_0000 * 1_0000_0000;
    DigitsBelow(n, 16);
  }

  lemma SafeIntegers(n: int)
    requires -SAFE < n < SAFE && n != 0
    ensures Shape(IntStr(n)) && Reformat(IntStr(n)) == IntStr(n)
    ensures NumberOf(IntStr(n)) == Number(n < 0, if n < 0 then -n else n, 0)
  {
    var m := if n < 0 then -n else n;
    SafeIsShort(m);
    IntegersAreLaidOut(m);
    IntegersAreRead(m);
    WithSign(Str(m));
    hide *;
  }

  lemma IntegersAreRead(n: nat)
    requires 0 < n
    ensures Shape(Str(n)) && NumberOf(Str(n)) == Number(false, n, 0)
  {
    var s := Str(n);
    ValueOfStr(n);
    assert NonZero(s) by { assert s[0] != '0'; }
    assert s + [] == s;
    ReadParts(s, [], false, None);
    assert s[0] != '-' by { assert IsDigit(s[0]); }
    hide Partition, UnsignedShape, Exponent, Whole, Frac;
  }

  /** A leading minus sign passes through the re-layout. */
  lemma WithSign(s: string)
    requires Shape(s) && s != [] && s[0] != '-'
    ensures Shape("-" + s) && Reformat("-" + s) == "-" + Reformat(s)
    ensures NumberOf("-" + s) == NumberOf(s).(neg := true)
  {
    var t := "-" + s;
    SignedBody(s);
    WithSignRead(s);
    ReformatIs(s);
    ReformatIs(t);
    AssembleSigned(Read(s));
    hide Shape, Read, Assemble, NumberOf, Reformat, Significant;
  }

  lemma SignedBody(s: string)
    requires s != [] && s[0] != '-'
    ensures Body("-" + s) == s && Body(s) == s
  {
    assert ("-" + s)[1..] == s;
  }

  lemma WithSignRead(s: string)
    requires Shape(s) && s != [] && s[0] != '-'
    ensures Shape("-" + s) && Read("-" + s) == Read(s).(neg := true) && !Read(s).neg
    ensures NumberOf("-" + s) == NumberOf(s).(neg := true)
  {
    SignedBody(s);
    var t := "-" + s;
    assert t[0] == '-' && t != [];
    hide Body, UnsignedShape, ReadUnsigned, Whole, Frac, Exponent;
  }

  lemma AssembleSigned(l: Layout)
    requires l.digits != [] && !l.neg
    ensures Assemble(l.(neg := true)) == "-" + Assemble(l)
  {
    hide AssembleUnsigned;
    var u := AssembleUnsigned(l.digits, l.n);
    assert "" + u == u;
  }

  lemma NumTextIsReformat(x: Numeral)
    requires Finite(x) && !IsZero(x)
    ensures Shape(Repr(x)) && NumText(x) == Reformat(Repr(x)) && Meant(x) == NumberOf(Repr(x))
  {
    hide Shape, Reformat, NumberOf, IntStr;
    match x {
      case Safe(n) => SafeIntegers(n);
      case Double(r) =>
    }
  }

  lemma ZeroText(x: Numeral)
    requires Finite(x) && IsZero(x)
    ensures NumText(x) == "0" && Meant(x) == Number(false, 0, 0)
  {
  }

  lemma ZeroHasNoShape()
    ensures !Shape("0") && !Shape("0.0") && !Shape("-0.0")
  {
    PartitionNone("0", 'e');
    PartitionNone("0", '.');
    PartitionNone("0.0", 'e');
    assert "0" + ['.'] + "0" == "0.0";
    PartitionAt("0", '.', "0");
    assert "-0.0"[1..] == "0.0";
    assert Body("0") == "0" && Body("0.0") == "0.0" && Body("-0.0") == "0.0";
    hide Partition;
  }

  lemma ZeroDiffers(b: Number)
    requires b.mantissa != 0
    ensures !SameNumber(Number(false, 0, 0), b) && !SameNumber(b, Number(false, 0, 0))
  {
    var low := Min(0, b.exponent);
    MulAtLeast(b.mantissa, Pow10(b.exponent - low));
    assert Scaled(b.mantissa, b.exponent - low) >= 1;
    assert Scaled(0, 0 - low) == 0;
    assert Min(b.exponent, 0) == low;
    hide Pow10, Scaled, Min;
  }

  lemma NonZeroMeant(r: string)
    requires Shape(r)
    ensures NumberOf(r).mantissa != 0
  {
    var u := Body(r);
    UnsignedShapeFacts(u);
    var s := Whole(u) + Frac(u);
    hide UnsignedShape, Whole, Frac, Exponent;
    StripValue(s);
    StrOfValue(Strip(s));
    MulAtLeast(Value10(Strip(s)), Pow10(Trailing(s)));
    hide Strip, Trailing, Value10, Pow10;
  }

  lemma ZeroIsNotNonZero(x: Numeral, y: Numeral)
    requires Finite(x) && Finite(y) && IsZero(x) && !IsZero(y)
    ensures NumText(x) != NumText(y) && !SameNumber(Meant(x), Meant(y)) && !SameNumber(Meant(y), Meant(x))
  {
    ZeroText(x);
    NumTextIsReformat(y);
    NonZeroMeant(Repr(y));
    ZeroHasNoShape();
    ReformatKeepsNumber(Repr(y));
    ZeroDiffers(Meant(y));
    hide *;
  }

  /** Two numbers are written alike if and only if they are the same rational number,
      whichever of `int` and `float` holds them. */
  lemma NumTextDecides(x: Numeral, y: Numeral)
    requires Finite(x) && Finite(y)
    ensures NumText(x) == NumText(y) <==> SameRational(x, y)
  {
    if IsZero(x) && IsZero(y) {
      ZeroText(x);
      ZeroText(y);
    } else if IsZero(x) {
      ZeroIsNotNonZero(x, y);
    } else if IsZero(y) {
      ZeroIsNotNonZero(y, x);
    } else {
      NumTextIsReformat(x);
      NumTextIsReformat(y);
      ReformatDecidesNumber(Repr(x), Repr(y));
    }
    hide *;
  }

  /** Number text is itself a numeral, and already in its final form. */
  lemma NumTextStable(x: Numeral)
    requires Finite(x)
    ensures Finite(Double(NumText(x))) && NumText(Double(NumText(x))) == NumText(x)
  {
    hide *;
    if IsZero(x) {
      ZeroText(x);
      ZeroIsZeroRepr();
    } else {
      NumTextIsReformat(x);
      ReformatIdempotent(Repr(x));
      ShapeIsNotZero(NumText(x));
    }
    FiniteDouble(NumText(x));
    NumTextOfDouble(NumText(x));
  }

  lemma ZeroIsZeroRepr()
    ensures ZeroRepr("0")
  {
  }

  lemma ShapeIsNotZero(r: string)
    requires Shape(r)
    ensures !ZeroRepr(r)
  {
    hide Shape;
    ZeroHasNoShape();
  }

  lemma FiniteDouble(r: string)
    ensures Finite(Double(r)) <==> ZeroRepr(r) || Shape(r)
  {
    hide Shape, ZeroRepr;
  }

  lemma NumTextOfDouble(r: string)
    requires Finite(Double(r))
    ensures NumText(Double(r)) == if ZeroRepr(r) then "0" else Reformat(r)
  {
  }

  // ----- number text as characters ------------------------------------------------------------

  /** The characters a canonical number is made of. */
  predicate NumChar(c: char) {
    IsDigit(c) || c == '+' || c == '-' || c == '.' || c == 'e'
  }

  predicate AllNumChars(s: string) {
    forall i :: 0 <= i < |s| ==> NumChar(s[i])
  }

  lemma DigitsAreNumChars(s: string)
    requires AllDigits(s)
    ensures AllNumChars(s)
  {
  }

  lemma AssembledChars(digits: string, n: int)
    requires digits != [] && AllDigits(digits)
    ensures AllNumChars(AssembleUnsigned(digits, n)) && AssembleUnsigned(digits, n) != []
  {
    DigitsAreNumChars(digits);
    SignedStrChars(n - 1);
    hide SignedStr, AllDigits, AllNumChars;
    var k := |digits|;
    if k <= n <= 21 {
      ZeroCharsChars(n - k);
      NumCharsConcat(digits, ZeroChars(n - k));
    } else if 0 < n <= 21 {
      NumCharsParts(digits, n);
      NumCharsMark(digits[..n], '.', digits[n..]);
    } else if -6 < n <= 0 {
      ZeroCharsChars(-n);
      ZeroCharsChars(1);
      assert ZeroChars(1) == "0";
      NumCharsConcat(ZeroChars(-n), digits);
      NumCharsMark("0", '.', ZeroChars(-n) + digits);
    } else if k == 1 {
      NumCharsMark(digits, 'e', SignedStr(n - 1));
    } else {
      NumCharsParts(digits, 1);
      NumCharsMark(digits[..1], '.', digits[1..]);
      NumCharsMark(digits[..1] + ['.'] + digits[1..], 'e', SignedStr(n - 1));
    }
  }

  lemma SignedStrChars(e: int)
    ensures AllNumChars(SignedStr(e))
  {
  }

  lemma ZeroCharsChars(k: nat)
    ensures AllNumChars(ZeroChars(k))
  {
  }

  lemma NumCharsConcat(s: string, t: string)
    requires AllNumChars(s) && AllNumChars(t)
    ensures AllNumChars(s + t)
  {
  }

  lemma NumCharsMark(s: string, mark: char, t: string)
    requires AllNumChars(s) && AllNumChars(t) && NumChar(mark)
    ensures AllNumChars(s + [mark] + t)
  {
  }

  lemma NumCharsParts(s: string, n: nat)
    requires AllNumChars(s) && n <= |s|
    ensures AllNumChars(s[..n]) && AllNumChars(s[n..])
  {
  }

  lemma NumTextChars(x: Numeral)
    requires Finite(x)
    ensures NumText(x) != [] && AllNumChars(NumText(x))
  {
    hide *;
    if IsZero(x) {
      ZeroText(x);
      ZeroCharsChars(1);
      assert ZeroChars(1) == "0";
    } else {
      NumTextIsReformat(x);
      ReformatIs(Repr(x));
      AssembleChars(Read(Repr(x)));
    }
  }

  lemma AssembleChars(l: Layout)
    requires l.digits != [] && AllDigits(l.digits)
    ensures AllNumChars(Assemble(l)) && Assemble(l) != []
  {
    AssembledChars(l.digits, l.n);
    hide AssembleUnsigned, AllDigits;
    var u := AssembleUnsigned(l.digits, l.n);
    NumCharsConcat("-", u);
    assert "" + u == u;
  }

  // ----- order --------------------------------------------------------------------------------

  /** Member order: by UTF-16 code units. */
  predicate Before(a: Text, b: Text) {
    Less(CodeUnits(a), CodeUnits(b))
  }

  /** Distinct names are never tied. */
  lemma BeforeTotal(a: Text, b: Text)
    requires a != b
    ensures Before(a, b) != Before(b, a)
  {
    LessTotal(CodeUnits(a), CodeUnits(b));
    if CodeUnits(a) == CodeUnits(b) { CodeUnitsInjective(a, b); }
    if Before(a, b) && Before(b, a) {
      LessTransitive(CodeUnits(a), CodeUnits(b), CodeUnits(a));
      LessIrreflexive(CodeUnits(a));
    }
  }

  /** UTF-16 order of two scalars, without the units: by value, except that the scalars from 0xE000
      to 0xFFFF come after all of those from 0x10000 up. */
  predicate ScalarBefore(x: Scalar, y: Scalar) {
    if 0xE000 <= x < 0x10000 <= y then false
    else if 0xE000 <= y < 0x10000 <= x then true
    else x < y
  }

  /** The order of section 3.2.3 of RFC 8785: decided at the first scalar where two names differ, a
      name before its extensions. */
  ghost predicate NameBefore(a: Text, b: Text) {
    exists k: nat | k <= |a| && k < |b| && a[..k] == b[..k] :: k == |a| || ScalarBefore(a[k], b[k])
  }

  lemma UnitsOrder(x: Scalar, y: Scalar, s: seq<nat>, t: seq<nat>)
    requires x != y
    ensures Less(UnitsOf(x) + s, UnitsOf(y) + t) <==> ScalarBefore(x, y)
  {
    var u, v := UnitsOf(x) + s, UnitsOf(y) + t;
    var cx: int, cy: int := x, y;
    assert u[0] == UnitsOf(x)[0] && v[0] == UnitsOf(y)[0];
    if u[0] == v[0] {
      assert cx > 0xFFFF && cy > 0xFFFF;
      assert u[1..][0] == UnitsOf(x)[1] && v[1..][0] == UnitsOf(y)[1];
    }
  }

  lemma {:induction false} LessAfterPrefix(p: seq<nat>, s: seq<nat>, t: seq<nat>)
    ensures Less(p + s, p + t) <==> Less(s, t)
  {
    if p == [] {
      assert p + s == s && p + t == t;
    } else {
      assert (p + s)[1..] == p[1..] + s && (p + t)[1..] == p[1..] + t;
      LessAfterPrefix(p[1..], s, t);
    }
  }

  lemma NameBeforeHere(a: Text, b: Text)
    ensures a == [] ==> (NameBefore(a, b) <==> b != [])
    ensures b == [] ==> !NameBefore(a, b)
    ensures a != [] && b != [] && a[0] != b[0] ==> (NameBefore(a, b) <==> ScalarBefore(a[0], b[0]))
  {
    if b != [] { assert a[..0] == b[..0]; }
    if k: nat :| k <= |a| && k < |b| && a[..k] == b[..k] && (k == |a| || ScalarBefore(a[k], b[k])) {
      if k > 0 { assert a[..k][0] == b[..k][0]; }
    }
  }

  lemma NameBeforeTail(a: Text, b: Text)
    requires a != [] && b != [] && a[0] == b[0]
    ensures NameBefore(a, b) <==> NameBefore(a[1..], b[1..])
  {
    ScalarNotBefore(a[0]);
    hide ScalarBefore;
    var c, d := a[1..], b[1..];
    if k: nat :| k <= |a| && k < |b| && a[..k] == b[..k] && (k == |a| || ScalarBefore(a[k], b[k])) {
      if k > 0 {
        assert c[..k - 1] == a[..k][1..] && d[..k - 1] == b[..k][1..];
      }
    }
    if k: nat :| k <= |c| && k < |d| && c[..k] == d[..k] && (k == |c| || ScalarBefore(c[k], d[k])) {
      assert a[..k + 1] == [a[0]] + c[..k] && b[..k + 1] == [b[0]] + d[..k];
    }
  }

  lemma ScalarNotBefore(x: Scalar)
    ensures !ScalarBefore(x, x)
  {
  }

  /** Member order in terms of the names alone. */
  lemma {:induction false} BeforeExactly(a: Text, b: Text)
    ensures Before(a, b) <==> NameBefore(a, b)
  {
    NameBeforeHere(a, b);
    if a != [] && b != [] {
      if a[0] == b[0] {
        NameBeforeTail(a, b);
        BeforeExactly(a[1..], b[1..]);
        LessAfterPrefix(UnitsOf(a[0]), CodeUnits(a[1..]), CodeUnits(b[1..]));
      } else {
        UnitsOrder(a[0], b[0], CodeUnits(a[1..]), CodeUnits(b[1..]));
      }
    }
    hide NameBefore, ScalarBefore;
  }
}

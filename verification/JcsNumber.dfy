/**
 Numbers as JCS writes them: the re-layout of Python's shortest-repr text into
 the presentation of section 6.1.6.1.20 of ECMA-262, and why it is a normal form
 of the rational number the text denotes.
 */
module Decimal {
  import opened Numerals

  predicate IsDigit(c: char) {
    '0' <= c <= '9'
  }

  predicate AllDigits(s: string) {
    forall i :: 0 <= i < |s| ==> IsDigit(s[i])
  }

  function DigitChar(d: nat): char
    requires d < 10
  {
    (d + 48) as char
  }

  function DigitValue(c: char): (d: nat)
    requires IsDigit(c)
    ensures d < 10 && DigitChar(d) == c
  {
    c as int - 48
  }

  /** The digit values of a digit string. */
  function Digs(s: string): (ds: seq<nat>)
    requires AllDigits(s)
    ensures |ds| == |s| && InBase(10, ds)
    ensures forall i :: 0 <= i < |s| ==> ds[i] == DigitValue(s[i])
  {
    seq(|s|, i requires 0 <= i < |s| => DigitValue(s[i]))
  }

  function Chars(ds: seq<nat>): (s: string)
    requires InBase(10, ds)
    ensures |s| == |ds| && AllDigits(s)
    ensures forall i :: 0 <= i < |s| ==> ds[i] < 10 && s[i] == DigitChar(ds[i])
  {
    assert forall i :: 0 <= i < |ds| ==> ds[i] in ds;
    seq(|ds|, i requires 0 <= i < |ds| => DigitChar(ds[i]))
  }

  function ZeroChars(k: nat): (s: string)
    ensures |s| == k && AllDigits(s) && forall i :: 0 <= i < k ==> s[i] == '0'
  {
    seq(k, i => '0')
  }

  /** The number a digit string denotes. */
  function Value10(s: string): nat
    requires AllDigits(s)
  {
    ValueOf(10, Digs(s))
  }

  /** `str(n)`. */
  function Str(n: nat): (s: string)
    ensures s != [] && AllDigits(s)
  {
    if n == 0 then "0"
    else
      DigitsNoLeadingZero(10, n);
      Chars(DigitsOf(10, n))
  }

  lemma DigsOfChars(ds: seq<nat>)
    requires InBase(10, ds)
    ensures Digs(Chars(ds)) == ds
  {
    var s := Chars(ds);
    forall i | 0 <= i < |s|
      ensures Digs(s)[i] == ds[i]
    {
      assert s[i] == DigitChar(ds[i]);
    }
  }

  lemma CharsOfDigs(s: string)
    requires AllDigits(s)
    ensures Chars(Digs(s)) == s
  {
  }

  lemma ValueOfStr(n: nat)
    ensures Value10(Str(n)) == n
    ensures n != 0 ==> Str(n)[0] != '0'
  {
    if n == 0 {
      var ds := Digs("0");
      assert ds == [0] && ds[..0] == [];
    } else {
      DigsOfChars(DigitsOf(10, n));
      ValueOfDigits(10, n);
      DigitsNoLeadingZero(10, n);
    }
  }

  /** A digit string without a leading zero is what its value is written as. */
  lemma StrOfValue(s: string)
    requires AllDigits(s) && s != [] && s[0] != '0'
    ensures Value10(s) != 0 && Str(Value10(s)) == s
  {
    assert Digs(s)[0] != 0;
    DigitsOfValue(10, Digs(s));
    ValueNoLeadingZero(10, Digs(s));
    CharsOfDigs(s);
  }

  function Pow10(k: nat): (p: nat)
    ensures 1 <= p
  {
    if k == 0 then 1 else 10 * Pow10(k - 1)
  }

  lemma {:induction false} Pow10Add(j: nat, k: nat)
    ensures Pow10(j + k) == Pow10(j) * Pow10(k)
  {
    if j != 0 {
      Pow10Add(j - 1, k);
      MulAssoc(10, Pow10(j - 1), Pow10(k));
    }
  }

  lemma MulAssoc(a: int, b: int, c: int)
    ensures a * b * c == a * (b * c)
  {
  }

  /** Trailing zeros multiply by a power of ten; leading zeros do nothing. */
  lemma {:induction false} ValueTrailingZeros(s: string, k: nat)
    requires AllDigits(s)
    ensures AllDigits(s + ZeroChars(k))
    ensures Value10(s + ZeroChars(k)) == Value10(s) * Pow10(k)
  {
    if k == 0 {
      assert s + ZeroChars(0) == s;
    } else {
      ValueTrailingZeros(s, k - 1);
      var t := s + ZeroChars(k - 1);
      var u := s + ZeroChars(k);
      assert Digs(u) == Digs(t) + [0];
      ValueAppend(10, Digs(t), 0);
      MulAssoc(Value10(s), Pow10(k - 1), 10);
    }
  }

  lemma ValueLeadingZeros(k: nat, s: string)
    requires AllDigits(s)
    ensures AllDigits(ZeroChars(k) + s)
    ensures Value10(ZeroChars(k) + s) == Value10(s)
  {
    var t := ZeroChars(k) + s;
    assert Digs(t) == Zeros(k) + Digs(s);
    LeadingZerosDropped(10, k, Digs(s));
  }
}

module JcsNumber {
  import opened Prelude
  import opened Decimal

  // ----- Python's string operations ----------------------------------------------------

  /** `s.partition(c)`, without the separator. */
  function Partition(s: string, c: char): (r: (string, string))
  {
    if s == [] then ([], [])
    else if s[0] == c then ([], s[1..])
    else
      var (head, tail) := Partition(s[1..], c);
      ([s[0]] + head, tail)
  }

  lemma {:induction false} PartitionAt(head: string, c: char, tail: string)
    requires c !in head
    ensures Partition(head + [c] + tail, c) == (head, tail)
  {
    var s := head + [c] + tail;
    if head == [] {
      assert s[1..] == tail;
    } else {
      assert s[0] == head[0] && s[1..] == head[1..] + [c] + tail;
      PartitionAt(head[1..], c, tail);
      assert head == [head[0]] + head[1..];
    }
  }

  lemma {:induction false} PartitionNone(s: string, c: char)
    requires c !in s
    ensures Partition(s, c) == (s, [])
  {
    if s != [] {
      PartitionNone(s[1..], c);
      assert s == [s[0]] + s[1..];
    }
  }

  /** How many characters `s.lstrip("0")` drops. */
  function Leading(s: string): (k: nat)
    ensures k <= |s|
    ensures forall i :: 0 <= i < k ==> s[i] == '0'
    ensures k < |s| ==> s[k] != '0'
  {
    if s == [] || s[0] != '0' then 0 else 1 + Leading(s[1..])
  }

  /** How many characters `s.rstrip("0")` drops. */
  function Trailing(s: string): (k: nat)
    ensures k <= |s|
    ensures forall i :: |s| - k <= i < |s| ==> s[i] == '0'
    ensures k < |s| ==> s[|s| - 1 - k] != '0'
  {
    if s == [] || s[|s| - 1] != '0' then 0 else 1 + Trailing(s[..|s| - 1])
  }

  predicate NonZero(s: string) {
    exists i :: 0 <= i < |s| && s[i] != '0'
  }

  /** `s.strip("0")`. */
  function Strip(s: string): string {
    Between(s, Leading(s), Trailing(s))
  }

  /** Without `lead` characters in front and then `trail` at the end. */
  function Between(s: string, lead: nat, trail: nat): string
    requires lead <= |s|
  {
    s[lead..|s| - Min(trail, |s| - lead)]
  }

  /** `int(s)` for an optional sign and digits. */
  function ParseInt(s: string): int
    requires IsInteger(s)
  {
    if s[0] == '-' then 0 - Value10(s[1..])
    else if s[0] == '+' then Value10(s[1..])
    else Value10(s)
  }

  predicate IsInteger(s: string) {
    && s != []
    && (if s[0] == '-' || s[0] == '+' then |s| > 1 && AllDigits(s[1..]) else AllDigits(s))
  }

  // ----- the text ------------------------------------------------------------------------

  /** The sign, the significant digits and the position of the point: the quantities of
      section 6.1.6.1.20 of ECMA-262. The number is 0.d1 d2 d3 ... times 10 to the n. */
  datatype Layout = Layout(neg: bool, digits: string, n: int)

  /** Digits without a zero at either end. */
  predicate Significant(d: string) {
    d != [] && AllDigits(d) && d[0] != '0' && d[|d| - 1] != '0'
  }

  predicate UnsignedShape(r: string) {
    var (mantissa, exponent) := Partition(r, 'e');
    var (whole, frac) := Partition(mantissa, '.');
    && whole != [] && AllDigits(whole) && AllDigits(frac)
    && (exponent != [] ==> IsInteger(exponent))
    && NonZero(whole + frac)
  }

  function Body(r: string): string {
    if r != [] && r[0] == '-' then r[1..] else r
  }

  /** A non-zero decimal numeral in the shape of Python's `repr`, with or without an exponent. */
  predicate Shape(r: string) {
    UnsignedShape(Body(r))
  }

  function Exponent(r: string): int
    requires UnsignedShape(r)
  {
    var exponent := Partition(r, 'e').1;
    if exponent == [] then 0 else ParseInt(exponent)
  }

  function Whole(r: string): string {
    Partition(Partition(r, 'e').0, '.').0
  }

  function Frac(r: string): string {
    Partition(Partition(r, 'e').0, '.').1
  }

  /** The significant digits and the point position the source recovers from unsigned text. */
  function ReadUnsigned(r: string): (string, int)
    requires UnsignedShape(r)
  {
    var combined := Whole(r) + Frac(r);
    (Strip(combined), |Whole(r)| + Exponent(r) - Leading(combined))
  }

  function Read(r: string): Layout
    requires Shape(r)
  {
    var (digits, n) := ReadUnsigned(Body(r));
    Layout(r != [] && r[0] == '-', digits, n)
  }

  function SignedStr(e: int): string {
    if e >= 0 then "+" + Str(e) else "-" + Str(-e)
  }

  function AssembleUnsigned(digits: string, n: int): string
    requires digits != []
  {
    var k := |digits|;
    if k <= n <= 21 then digits + ZeroChars(n - k)
    else if 0 < n <= 21 then digits[..n] + ['.'] + digits[n..]
    else if -6 < n <= 0 then "0" + ['.'] + (ZeroChars(-n) + digits)
    else if k == 1 then digits + ['e'] + SignedStr(n - 1)
    else (digits[..1] + ['.'] + digits[1..]) + ['e'] + SignedStr(n - 1)
  }

  function Assemble(l: Layout): string
    requires l.digits != []
  {
    (if l.neg then "-" else "") + AssembleUnsigned(l.digits, l.n)
  }

  /** `_reformat_ecmascript`. */
  function Reformat(r: string): string
    requires Shape(r)
  {
    StripKeeps(Whole(Body(r)) + Frac(Body(r)));
    Assemble(Read(r))
  }

  lemma StripKeeps(s: string)
    requires NonZero(s)
    ensures Strip(s) != []
    ensures AllDigits(s) ==> Significant(Strip(s))
    ensures s == ZeroChars(Leading(s)) + Strip(s) + ZeroChars(Trailing(s))
  {
    StripIsSlice(s);
    hide Strip, Leading, Trailing, NonZero;
    var lead, trail := Leading(s), Trailing(s);
    InThree(s, lead, |s| - trail);
    ZeroRun(s[..lead]);
    ZeroRun(s[|s| - trail..]);
    if AllDigits(s) {
      StripSignificant(s);
    }
  }

  lemma StripSignificant(s: string)
    requires NonZero(s) && AllDigits(s)
    ensures Significant(Strip(s))
  {
    StripIsSlice(s);
  }

  lemma InThree(s: string, i: nat, j: nat)
    requires i <= j <= |s|
    ensures s == s[..i] + s[i..j] + s[j..]
  {
  }

  lemma ZeroRun(s: string)
    requires forall i :: 0 <= i < |s| ==> s[i] == '0'
    ensures s == ZeroChars(|s|)
  {
  }

  lemma NothingAdded(d: string)
    ensures ZeroChars(0) + d == d && d + ZeroChars(0) == d && ZeroChars(0) + d + ZeroChars(0) == d && d + [] == d
  {
  }

  lemma StripIsSlice(s: string)
    requires NonZero(s)
    ensures Leading(s) < |s| - Trailing(s)
    ensures Strip(s) == s[Leading(s)..|s| - Trailing(s)]
    ensures s[Leading(s)] != '0' && s[|s| - 1 - Trailing(s)] != '0'
  {
    StripWithin(s);
    StripUnfolds(s);
    hide *;
    BetweenIs(s, Leading(s), Trailing(s));
    assert Leading(s) < |s| && Trailing(s) < |s|;
  }

  lemma BetweenIs(s: string, lead: nat, trail: nat)
    requires lead < |s| - trail
    ensures Between(s, lead, trail) == s[lead..|s| - trail]
  {
    assert Min(trail, |s| - lead) == trail;
  }

  lemma StripUnfolds(s: string)
    ensures Strip(s) == Between(s, Leading(s), Trailing(s))
  {
    hide Between, Leading, Trailing;
  }

  lemma StripWithin(s: string)
    requires NonZero(s)
    ensures Leading(s) < |s| - Trailing(s)
  {
    var i :| 0 <= i < |s| && s[i] != '0';
    hide Leading, Trailing;
    var lead, trail := Leading(s), Trailing(s);
    assert lead <= i < |s| - trail;
  }

  // ----- reading back what was laid out ------------------------------------------------------

  lemma StripPadded(a: nat, d: string, b: nat)
    requires d != [] && d[0] != '0' && d[|d| - 1] != '0'
    ensures var s := ZeroChars(a) + d + ZeroChars(b);
      Leading(s) == a && Strip(s) == d && NonZero(s)
  {
    var s := ZeroChars(a) + d + ZeroChars(b);
    assert s[a] == d[0];
    assert s[a + |d| - 1] == d[|d| - 1];
    assert NonZero(s);
    StripIsSlice(s);
    hide Strip, Leading, Trailing, NonZero;
    var lead, trail := Leading(s), Trailing(s);
    assert forall i :: 0 <= i < a ==> s[i] == '0';
    assert forall i :: a + |d| <= i < |s| ==> s[i] == '0' by {
      forall i | a + |d| <= i < |s| ensures s[i] == '0' {
        assert s[i] == ZeroChars(b)[i - a - |d|];
      }
    }
    assert lead == a;
    assert |s| - 1 - trail == a + |d| - 1;
    assert s[a..a + |d|] == d;
  }

  lemma NoMarks(s: string)
    requires AllDigits(s)
    ensures 'e' !in s && '.' !in s && '-' !in s
  {
  }

  lemma SignedStrReads(e: int)
    ensures IsInteger(SignedStr(e)) && ParseInt(SignedStr(e)) == e
  {
    var s := SignedStr(e);
    var n := if e >= 0 then e else -e;
    ValueOfStr(n);
    assert s[1..] == Str(n);
  }

  /** The shape of a text built from its parts, and what is read from it. */
  lemma ReadParts(whole: string, frac: string, dotted: bool, exponent: Option<int>)
    requires whole != [] && AllDigits(whole) && AllDigits(frac) && NonZero(whole + frac)
    requires !dotted ==> frac == []
    ensures var mantissa := if dotted then whole + ['.'] + frac else whole;
      var r := if exponent.Some? then mantissa + ['e'] + SignedStr(exponent.value) else mantissa;
      && UnsignedShape(r) && Whole(r) == whole && Frac(r) == frac
      && Exponent(r) == if exponent.Some? then exponent.value else 0
  {
    var mantissa := if dotted then whole + ['.'] + frac else whole;
    NoMarks(whole);
    NoMarks(frac);
    if dotted {
      PartitionAt(whole, '.', frac);
    } else {
      PartitionNone(whole, '.');
    }
    match exponent {
      case Some(e) =>
        PartitionAt(mantissa, 'e', SignedStr(e));
        SignedStrReads(e);
      case None =>
        PartitionNone(mantissa, 'e');
    }
  }

  /** Every layout is read back from its text: the layout rules lose nothing. */
  lemma ReadInvertsAssemble(d: string, n: int)
    requires Significant(d)
    ensures UnsignedShape(AssembleUnsigned(d, n))
    ensures ReadUnsigned(AssembleUnsigned(d, n)) == (d, n)
  {
    hide UnsignedShape, ReadUnsigned, SignedStr, Significant;
    var k := |d|;
    if k <= n <= 21 {
      ReadsAsWhole(d, n);
    } else if 0 < n <= 21 {
      ReadsAsPlain(d, n);
    } else if -6 < n <= 0 {
      ReadsAsFraction(d, n);
    } else {
      ReadsAsExponent(d, n);
    }
  }

  /** What `ReadUnsigned` makes of a text whose parts are known. */
  lemma ReadUnsignedFrom(r: string, a: nat, d: string, b: nat, whole: string, frac: string, e: int)
    requires Significant(d) && whole + frac == ZeroChars(a) + d + ZeroChars(b)
    requires UnsignedShape(r) && Whole(r) == whole && Frac(r) == frac && Exponent(r) == e
    ensures ReadUnsigned(r) == (d, |whole| + e - a)
  {
    hide UnsignedShape, Whole, Frac, Exponent, Strip, Leading;
    StripPadded(a, d, b);
  }

  lemma ReadsAsWhole(d: string, n: int)
    requires Significant(d) && |d| <= n
    ensures var r := d + ZeroChars(n - |d|); UnsignedShape(r) && ReadUnsigned(r) == (d, n)
  {
    hide *;
    var k := |d|;
    var r := d + ZeroChars(n - k);
    SignificantFacts(d, n - k);
    StripPadded(0, d, n - k);
    NothingAdded(d);
    NothingAdded(r);
    ReadParts(r, [], false, None);
    ReadUnsignedFrom(r, 0, d, n - k, r, [], 0);
  }

  /** What significant digits are, and what they stay with zeros around them. */
  lemma SignificantFacts(d: string, k: nat)
    requires Significant(d)
    ensures d != [] && AllDigits(d) && d[0] != '0' && d[|d| - 1] != '0'
    ensures AllDigits(d + ZeroChars(k)) && AllDigits(ZeroChars(k) + d) && AllDigits([]) && AllDigits("0")
  {
  }

  lemma DigitsInTwo(d: string, n: nat)
    requires AllDigits(d) && n <= |d|
    ensures AllDigits(d[..n]) && AllDigits(d[n..]) && d[..n] + d[n..] == d
  {
  }

  lemma ReadPlain(whole: string, frac: string, a: nat, d: string)
    requires Significant(d) && whole + frac == ZeroChars(a) + d + ZeroChars(0) && NonZero(whole + frac)
    requires whole != [] && AllDigits(whole) && AllDigits(frac)
    ensures var r := whole + ['.'] + frac; UnsignedShape(r) && ReadUnsigned(r) == (d, |whole| - a)
  {
    hide *;
    ReadParts(whole, frac, true, None);
    ReadUnsignedFrom(whole + ['.'] + frac, a, d, 0, whole, frac, 0);
  }

  lemma ReadsAsPlain(d: string, n: int)
    requires Significant(d) && 0 < n < |d|
    ensures var r := d[..n] + ['.'] + d[n..]; UnsignedShape(r) && ReadUnsigned(r) == (d, n)
  {
    hide *;
    SignificantFacts(d, 0);
    StripPadded(0, d, 0);
    DigitsInTwo(d, n);
    NothingAdded(d);
    ReadPlain(d[..n], d[n..], 0, d);
  }

  lemma ReadsAsFraction(d: string, n: int)
    requires Significant(d) && n <= 0
    ensures var r := "0" + ['.'] + (ZeroChars(-n) + d); UnsignedShape(r) && ReadUnsigned(r) == (d, n)
  {
    hide *;
    SignificantFacts(d, -n);
    StripPadded(1 - n, d, 0);
    FractionDigits(d, -n);
    ReadPlain("0", ZeroChars(-n) + d, 1 - n, d);
  }

  lemma FractionDigits(d: string, k: nat)
    ensures "0" + (ZeroChars(k) + d) == ZeroChars(k + 1) + d + ZeroChars(0)
  {
    ZeroInFront(k);
    ConcatAssoc("0", ZeroChars(k), d);
    NothingAdded(ZeroChars(k + 1) + d);
  }

  lemma ZeroInFront(k: nat)
    ensures ZeroChars(k + 1) == "0" + ZeroChars(k)
  {
  }

  lemma ReadsAsExponent(d: string, n: int)
    requires Significant(d)
    ensures var r := (if |d| == 1 then d else d[..1] + ['.'] + d[1..]) + ['e'] + SignedStr(n - 1);
      UnsignedShape(r) && ReadUnsigned(r) == (d, n)
  {
    hide UnsignedShape, ReadUnsigned, NonZero, Exponent, Whole, Frac, SignedStr;
    StripPadded(0, d, 0);
    NothingAdded(d);
    DigitsInTwo(d, 1);
    if |d| == 1 {
      assert d[..1] == d && d[1..] == [];
    }
    ReadParts(d[..1], d[1..], |d| != 1, Some(n - 1));
    var r := (if |d| == 1 then d else d[..1] + ['.'] + d[1..]) + ['e'] + SignedStr(n - 1);
    ReadUnsignedFrom(r, 0, d, 0, d[..1], d[1..], n - 1);
  }

  lemma StartsWithDigit(d: string, n: int)
    requires Significant(d)
    ensures AssembleUnsigned(d, n) != [] && AssembleUnsigned(d, n)[0] != '-'
  {
    hide SignedStr;
    var s := AssembleUnsigned(d, n);
    assert s[0] == d[0] || s[0] == '0';
    assert IsDigit(d[0]);
  }

  lemma ReadInvertsAssembleSigned(l: Layout)
    requires Significant(l.digits)
    ensures Shape(Assemble(l)) && Read(Assemble(l)) == l
  {
    hide AssembleUnsigned, UnsignedShape, ReadUnsigned;
    var u := AssembleUnsigned(l.digits, l.n);
    StartsWithDigit(l.digits, l.n);
    ReadInvertsAssemble(l.digits, l.n);
    if l.neg {
      assert Assemble(l)[1..] == u;
    } else {
      assert Assemble(l) == u;
    }
  }

  lemma ReadIsSignificant(r: string)
    requires Shape(r)
    ensures Significant(Read(r).digits)
  {
    hide Partition, Strip, ParseInt;
    StripKeeps(Whole(Body(r)) + Frac(Body(r)));
  }

  // ----- the number ----------------------------------------------------------------------------

  /** A sign, an integer mantissa and a power of ten: mantissa * 10^exponent, negated if `neg`. */
  datatype Number = Number(neg: bool, mantissa: nat, exponent: int)

  /** The rational number a numeral denotes, straight from its characters. */
  function NumberOf(r: string): Number
    requires Shape(r)
  {
    var u := Body(r);
    Number(r != [] && r[0] == '-', Value10(Whole(u) + Frac(u)), Exponent(u) - |Frac(u)|)
  }

  function Scaled(m: nat, k: nat): nat {
    m * Pow10(k)
  }

  /** Equality of non-zero rationals, cross-multiplied to a common power of ten. */
  predicate SameNumber(a: Number, b: Number) {
    var low := Min(a.exponent, b.exponent);
    && a.neg == b.neg
    && Scaled(a.mantissa, a.exponent - low) == Scaled(b.mantissa, b.exponent - low)
  }

  function NumberOfLayout(l: Layout): Number
    requires AllDigits(l.digits)
  {
    Number(l.neg, Value10(l.digits), l.n - |l.digits|)
  }

  /** Moving trailing zeros between mantissa and exponent does not change the number. */
  lemma ScaleSame(neg: bool, m: nat, t: nat, e: int)
    ensures SameNumber(Number(neg, Scaled(m, t), e), Number(neg, m, e + t))
  {
    ScaledByNothing(Scaled(m, t));
    assert e + t - e == t && e - e == 0;
  }

  lemma ScaledByNothing(m: nat)
    ensures Scaled(m, 0) == m
  {
  }

  lemma {:induction false} Pow10Divides(m: nat, t: nat)
    requires 0 < t
    ensures m * Pow10(t) % 10 == 0
  {
    MulAssoc(10, Pow10(t - 1), m);
    assert m * Pow10(t) == 10 * (Pow10(t - 1) * m);
  }

  lemma MulCancel(a: nat, b: nat, p: nat)
    requires 1 <= p && a * p == b * p
    ensures a == b
  {
  }

  lemma SameNumberSymmetric(a: Number, b: Number)
    ensures SameNumber(a, b) <==> SameNumber(b, a)
  {
  }

  /** A common scale proves equality, and equality holds at every lower scale. */
  lemma SameAtScale(a: Number, b: Number, low: int)
    requires low <= a.exponent && low <= b.exponent
    ensures SameNumber(a, b) <==>
      a.neg == b.neg && Scaled(a.mantissa, a.exponent - low) == Scaled(b.mantissa, b.exponent - low)
  {
    var m := Min(a.exponent, b.exponent);
    var p := Pow10(m - low);
    Pow10Add(a.exponent - m, m - low);
    Pow10Add(b.exponent - m, m - low);
    MulAssoc(a.mantissa, Pow10(a.exponent - m), p);
    MulAssoc(b.mantissa, Pow10(b.exponent - m), p);
    var x, y := a.mantissa * Pow10(a.exponent - m), b.mantissa * Pow10(b.exponent - m);
    if x * p == y * p { MulCancel(x, y, p); }
  }

  lemma SameNumberTransitive(a: Number, b: Number, c: Number)
    requires SameNumber(a, b) && SameNumber(b, c)
    ensures SameNumber(a, c)
  {
    var low := Min(a.exponent, Min(b.exponent, c.exponent));
    SameAtScale(a, b, low);
    SameAtScale(b, c, low);
    SameAtScale(a, c, low);
  }

  /** The recovered digits and point position denote the number the text denotes. */
  lemma ReadKeepsNumber(r: string)
    requires Shape(r)
    ensures Significant(Read(r).digits)
    ensures SameNumber(NumberOf(r), NumberOfLayout(Read(r)))
  {
    hide Strip, SameNumber, Leading, Trailing, Whole, Frac, Exponent, Scaled, UnsignedShape;
    var u := Body(r);
    var combined := Whole(u) + Frac(u);
    UnsignedShapeFacts(u);
    StripValue(combined);
    var d, trail := Strip(combined), Trailing(combined);
    hide Value10, Significant;
    ScaleSame(NumberOf(r).neg, Value10(d), trail, NumberOf(r).exponent);
  }

  lemma UnsignedShapeFacts(u: string)
    requires UnsignedShape(u)
    ensures AllDigits(Whole(u) + Frac(u)) && NonZero(Whole(u) + Frac(u))
  {
  }

  lemma StripValue(s: string)
    requires AllDigits(s) && NonZero(s)
    ensures Significant(Strip(s)) && |s| == Leading(s) + |Strip(s)| + Trailing(s)
    ensures Value10(s) == Scaled(Value10(Strip(s)), Trailing(s))
  {
    hide Strip, Leading, Trailing, NonZero, Value10;
    StripKeeps(s);
    var d, lead, trail := Strip(s), Leading(s), Trailing(s);
    ValueTrailingZeros(d, trail);
    ValueLeadingZeros(lead, d + ZeroChars(trail));
    ConcatAssoc(ZeroChars(lead), d, ZeroChars(trail));
  }

  /** Significant digits are not divisible by ten. */
  lemma SignificantNotDivisible(d: string)
    requires Significant(d)
    ensures Value10(d) % 10 != 0
  {
    var ds := Digs(d);
    var last := ds[|ds| - 1];
    assert DigitValue(d[|d| - 1]) != 0;
    assert last in ds;
  }

  /** Two layouts of the same number are the same layout. */
  lemma LayoutUnique(a: Layout, b: Layout)
    requires Significant(a.digits) && Significant(b.digits)
    requires SameNumber(NumberOfLayout(a), NumberOfLayout(b))
    ensures a == b
  {
    var x, y := NumberOfLayout(a), NumberOfLayout(b);
    SignificantNotDivisible(a.digits);
    SignificantNotDivisible(b.digits);
    hide Value10;
    ScaledByNothing(x.mantissa);
    ScaledByNothing(y.mantissa);
    if x.exponent < y.exponent {
      Pow10Divides(y.mantissa, y.exponent - x.exponent);
      assert false;
    } else if y.exponent < x.exponent {
      Pow10Divides(x.mantissa, x.exponent - y.exponent);
      assert false;
    } else {
      StrOfValue(a.digits);
      StrOfValue(b.digits);
    }
  }

  // ----- the theorems -----------------------------------------------------------------------------

  /** Re-layout keeps the exact rational value. */
  lemma ReformatKeepsNumber(r: string)
    requires Shape(r)
    ensures Shape(Reformat(r)) && SameNumber(NumberOf(r), NumberOf(Reformat(r)))
  {
    hide *;
    ReadKeepsNumber(r);
    ReformatIs(r);
    ReadInvertsAssembleSigned(Read(r));
    ReadKeepsNumber(Reformat(r));
    SameNumberSymmetric(NumberOf(Reformat(r)), NumberOfLayout(Read(r)));
    SameNumberTransitive(NumberOf(r), NumberOfLayout(Read(r)), NumberOf(Reformat(r)));
  }

  lemma ReformatIs(r: string)
    requires Shape(r)
    ensures Significant(Read(r).digits) && Read(r).digits != [] && AllDigits(Read(r).digits)
    ensures Reformat(r) == Assemble(Read(r))
  {
    ReadIsSignificant(r);
  }

  /** Re-layout is idempotent. */
  lemma ReformatIdempotent(r: string)
    requires Shape(r)
    ensures Shape(Reformat(r)) && Reformat(Reformat(r)) == Reformat(r)
  {
    ReformatIs(r);
    ReadInvertsAssembleSigned(Read(r));
    hide Shape, Read, Assemble, Reformat;
    ReformatIs(Reformat(r));
  }

  /** Two numerals get the same text if and only if they denote the same number. */
  lemma ReformatDecidesNumber(r: string, s: string)
    requires Shape(r) && Shape(s)
    ensures Reformat(r) == Reformat(s) <==> SameNumber(NumberOf(r), NumberOf(s))
  {
    hide *;
    ReformatKeepsNumber(r);
    ReformatKeepsNumber(s);
    var x, y := NumberOf(r), NumberOf(s);
    if Reformat(r) == Reformat(s) {
      SameNumberSymmetric(y, NumberOf(Reformat(s)));
      SameNumberTransitive(x, NumberOf(Reformat(r)), y);
    }
    if SameNumber(x, y) {
      ReadKeepsNumber(r);
      ReadKeepsNumber(s);
      ReformatIs(r);
      ReformatIs(s);
      var a, b := NumberOfLayout(Read(r)), NumberOfLayout(Read(s));
      SameNumberSymmetric(x, a);
      SameNumberTransitive(a, x, y);
      SameNumberTransitive(a, y, b);
      LayoutUnique(Read(r), Read(s));
    }
  }

  /** An integer of at most 21 digits is already laid out: what `_number` writes for a safe
      integer is what the double route would write. */
  lemma IntegersAreLaidOut(n: nat)
    requires 0 < n && |Str(n)| <= 21
    ensures Shape(Str(n)) && Reformat(Str(n)) == Str(n)
  {
    hide Partition, Strip, Leading, Trailing, Significant;
    var s := Str(n);
    ValueOfStr(n);
    assert NonZero(s) by { assert s[0] != '0'; }
    assert s + [] == s;
    ReadParts(s, [], false, None);
    StripKeeps(s);
    assert Leading(s) == 0;
    var d := Strip(s);
    assert ZeroChars(0) + d + ZeroChars(Trailing(s)) == d + ZeroChars(Trailing(s));
    assert IsDigit(s[0]);
    assert Assemble(Read(s)) == "" + AssembleUnsigned(d, |s|);
  }
}

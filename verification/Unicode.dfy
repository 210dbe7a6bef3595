/**
 Text without lone surrogates: Unicode scalar values, the strict UTF-8 codec
 behind Python's `str.encode("utf-8")` and `bytes.decode("utf-8")`, and the
 UTF-16 code units that JCS orders object members by.
 */
module Unicode {
  import opened Prelude

  predicate IsScalar(cp: int) {
    0 <= cp < 0xD800 || 0xE000 <= cp < 0x110000
  }

  type Scalar = cp: int | 0 <= cp < 0xD800 || 0xE000 <= cp < 0x110000

  type Text = seq<Scalar>

  // ----- UTF-8 -------------------------------------------------------------------

  /** A continuation octet: the bits `10` and six payload bits. */
  function Tail(payload: nat): (b: byte)
    requires payload < 64
  {
    0x80 + payload
  }

  /** The payload of a continuation octet, if it is one. */
  function Payload(b: byte): (p: Option<nat>)
    ensures p.Some? ==> p.value < 64 && b == Tail(p.value)
  {
    if 0x80 <= b < 0xC0 then Some(b as int - 0x80) else None
  }

  function Utf8One(s: Scalar): (b: bytes)
    ensures 1 <= |b| <= 4
  {
    var cp: int := s;
    if cp < 0x80 then [cp as byte]
    else if cp < 0x800 then [(0xC0 + cp / 64) as byte, Tail(cp % 64)]
    else if cp < 0x10000 then [(0xE0 + cp / 64 / 64) as byte, Tail(cp / 64 % 64), Tail(cp % 64)]
    else
      [(0xF0 + cp / 64 / 64 / 64) as byte, Tail(cp / 64 / 64 % 64), Tail(cp / 64 % 64), Tail(cp % 64)]
  }

  /** The scalar value at the front of `b` and the octets it takes; `None` when `b` does not
      start with a shortest-form encoding of a scalar value. */
  function ReadUtf8(b: bytes): (r: Option<(Scalar, nat)>)
    requires b != []
    ensures r.Some? ==> 1 <= r.value.1 <= |b|
  {
    var b0: int := b[0];
    if b0 < 0x80 then Some((b0, 1))
    else if 0xC2 <= b0 < 0xE0 then ReadTwo(b0 - 0xC0, b)
    else if 0xE0 <= b0 < 0xF0 then ReadThree(b0 - 0xE0, b)
    else if 0xF0 <= b0 < 0xF5 then ReadFour(b0 - 0xF0, b)
    else None
  }

  function ReadTwo(top: nat, b: bytes): (r: Option<(Scalar, nat)>)
    requires 2 <= top < 32
    ensures r.Some? ==> r.value.1 == 2 <= |b|
  {
    if |b| < 2 then None
    else
      match Payload(b[1])
      case None => None
      case Some(p1) => Some((top * 64 + p1, 2))
  }

  function ReadThree(top: nat, b: bytes): (r: Option<(Scalar, nat)>)
    ensures r.Some? ==> r.value.1 == 3 <= |b|
  {
    if |b| < 3 then None
    else
      match (Payload(b[1]), Payload(b[2]))
      case (Some(p1), Some(p2)) =>
        var cp := (top * 64 + p1) * 64 + p2;
        if cp < 0x800 || !IsScalar(cp) then None else Some((cp, 3))
      case _ => None
  }

  function ReadFour(top: nat, b: bytes): (r: Option<(Scalar, nat)>)
    ensures r.Some? ==> r.value.1 == 4 <= |b|
  {
    if |b| < 4 then None
    else
      match (Payload(b[1]), Payload(b[2]), Payload(b[3]))
      case (Some(p1), Some(p2), Some(p3)) =>
        var cp := ((top * 64 + p1) * 64 + p2) * 64 + p3;
        if cp < 0x10000 || !IsScalar(cp) then None else Some((cp, 4))
      case _ => None
  }

  /** `text.encode("utf-8")`. */
  function Utf8(text: Text): bytes {
    if text == [] then [] else Utf8One(text[0]) + Utf8(text[1..])
  }

  /** `b.decode("utf-8")`; `None` is UnicodeDecodeError. */
  function FromUtf8(b: bytes): Option<Text>
    decreases |b|
  {
    if b == [] then Some([])
    else
      match ReadUtf8(b)
      case None => None
      case Some((s, k)) =>
        match FromUtf8(b[k..])
        case None => None
        case Some(rest) => Some([s] + rest)
  }

  lemma ReadUtf8Inverts(s: Scalar, rest: bytes)
    ensures ReadUtf8(Utf8One(s) + rest) == Some((s, |Utf8One(s)|))
  {
    var cp: int := s;
    var one := Utf8One(s);
    var b := one + rest;
    assert b[0] == one[0];
    assert |one| > 1 ==> b[1] == one[1];
    assert |one| > 2 ==> b[2] == one[2];
    assert |one| > 3 ==> b[3] == one[3];
    assert cp == cp / 64 * 64 + cp % 64;
    assert cp / 64 == cp / 64 / 64 * 64 + cp / 64 % 64;
    assert cp / 64 / 64 == cp / 64 / 64 / 64 * 64 + cp / 64 / 64 % 64;
  }

  lemma ReadThreeSound(top: nat, b: bytes)
    requires top < 16 && b != [] && b[0] == 0xE0 + top && ReadThree(top, b).Some?
    ensures Utf8One(ReadThree(top, b).value.0) == b[..3]
  {
    var cp: int := ReadThree(top, b).value.0;
    assert cp / 64 == top * 64 + Payload(b[1]).value;
    assert b[..3] == [b[0], b[1], b[2]];
  }

  lemma ReadFourSound(top: nat, b: bytes)
    requires top < 5 && b != [] && b[0] == 0xF0 + top && ReadFour(top, b).Some?
    ensures Utf8One(ReadFour(top, b).value.0) == b[..4]
  {
    var cp: int := ReadFour(top, b).value.0;
    assert cp / 64 == (top * 64 + Payload(b[1]).value) * 64 + Payload(b[2]).value;
    assert cp / 64 / 64 == top * 64 + Payload(b[1]).value;
    assert b[..4] == [b[0], b[1], b[2], b[3]];
  }

  lemma ReadUtf8Sound(b: bytes)
    requires b != [] && ReadUtf8(b).Some?
    ensures var (s, k) := ReadUtf8(b).value; k <= |b| && Utf8One(s) == b[..k]
  {
    var b0: int := b[0];
    if b0 < 0x80 {
      assert b[..1] == [b[0]];
    } else if b0 < 0xE0 {
      assert b[..2] == [b[0], b[1]];
    } else if b0 < 0xF0 {
      ReadThreeSound(b0 - 0xE0, b);
    } else {
      ReadFourSound(b0 - 0xF0, b);
    }
  }

  lemma Utf8Cons(s: Scalar, rest: Text)
    ensures Utf8([s] + rest) == Utf8One(s) + Utf8(rest)
  {
    var text := [s] + rest;
    assert text[0] == s && text[1..] == rest;
  }

  lemma FromUtf8Cons(b: bytes, s: Scalar, k: nat)
    requires b != [] && ReadUtf8(b) == Some((s, k)) && k <= |b|
    ensures FromUtf8(b).Some? <==> FromUtf8(b[k..]).Some?
    ensures FromUtf8(b).Some? ==> FromUtf8(b).value == [s] + FromUtf8(b[k..]).value
  {
  }

  /** Decoding undoes encoding. */
  lemma {:induction false} FromUtf8Inverts(text: Text)
    ensures FromUtf8(Utf8(text)) == Some(text)
  {
    if text != [] {
      var head, rest := Utf8One(text[0]), Utf8(text[1..]);
      var b := head + rest;
      ReadUtf8Inverts(text[0], rest);
      FromUtf8Inverts(text[1..]);
      assert b[|head|..] == rest;
      FromUtf8Cons(b, text[0], |head|);
      assert text == [text[0]] + text[1..];
    }
  }

  /** Only the encoding of a text decodes to it: the strict decoder admits no second spelling. */
  lemma {:induction false} FromUtf8Sound(b: bytes)
    requires FromUtf8(b).Some?
    ensures Utf8(FromUtf8(b).value) == b
    decreases |b|
  {
    hide ReadUtf8, Utf8One;
    if b != [] {
      var one := ReadUtf8(b).value;
      ReadUtf8Sound(b);
      var tail := b[one.1..];
      FromUtf8Cons(b, one.0, one.1);
      FromUtf8Sound(tail);
      Utf8Cons(one.0, FromUtf8(tail).value);
      assert b == b[..one.1] + tail;
    }
  }

  // ----- UTF-16 --------------------------------------------------------------------

  function UnitsOf(s: Scalar): (u: seq<nat>)
    ensures 1 <= |u| <= 2
  {
    var cp: int := s;
    if cp > 0xFFFF then
      [0xD800 + (cp - 0x10000) / 1024, 0xDC00 + (cp - 0x10000) % 1024]
    else [cp]
  }

  /** The UTF-16 code units of a text. */
  function CodeUnits(text: Text): seq<nat> {
    if text == [] then [] else UnitsOf(text[0]) + CodeUnits(text[1..])
  }

  /** Two texts with the same code units are the same text: the member order never ties. */
  lemma {:induction false} CodeUnitsInjective(s: Text, t: Text)
    requires CodeUnits(s) == CodeUnits(t)
    ensures s == t
  {
    if s == [] || t == [] {
      assert |CodeUnits(s)| == |CodeUnits(t)|;
    } else {
      var us, ut := UnitsOf(s[0]), UnitsOf(t[0]);
      var whole := CodeUnits(s);
      assert whole[0] == us[0] == ut[0];
      assert |us| == 2 ==> whole[1] == us[1];
      assert |ut| == 2 ==> whole[1] == ut[1];
      assert us == ut;
      assert s[0] == t[0];
      assert whole[|us|..] == CodeUnits(s[1..]);
      assert whole[|ut|..] == CodeUnits(t[1..]);
      CodeUnitsInjective(s[1..], t[1..]);
      assert s == [s[0]] + s[1..] && t == [t[0]] + t[1..];
    }
  }

  /** What the code units are (section 3.9 of the Unicode Standard): a scalar below 0x10000 is its
      own unit, any other a high and a low surrogate that carry it between them; and a text's units
      are its scalars' in order. */
  lemma CodeUnitsExactly(s: Scalar, rest: Text)
    ensures s < 0x10000 ==> CodeUnits([s] + rest) == [s as nat] + CodeUnits(rest)
    ensures s >= 0x10000 ==> exists high: nat, low: nat ::
      && CodeUnits([s] + rest) == [high, low] + CodeUnits(rest)
      && 0xD800 <= high < 0xDC00 <= low < 0xE000
      && 0x10000 + (high - 0xD800) * 1024 + (low - 0xDC00) == s as int
    ensures CodeUnits([]) == []
  {
    assert ([s] + rest)[1..] == rest;
    var cp: int := s;
    if cp >= 0x10000 {
      var high, low := 0xD800 + (cp - 0x10000) / 1024, 0xDC00 + (cp - 0x10000) % 1024;
      assert CodeUnits([s] + rest) == [high, low] + CodeUnits(rest);
    }
  }
}

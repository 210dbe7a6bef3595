/**
 The vocabulary shared by every component: optional values, results that carry
 the source's typed errors, bytes, and a predicate for "these bytes stand here".
 */
module Prelude {

  datatype Option<+T> = None | Some(value: T)

  /** `Err` carries the kind of the typed exception the source raises. */
  datatype Result<+T, +E> = Ok(value: T) | Err(error: E)

  /** One octet of a Python `bytes` object. */
  type byte = i: int | 0 <= i < 256

  type bytes = seq<byte>

  /** `piece` stands in `data` at offset `i`. */
  ghost predicate At<T>(data: seq<T>, i: nat, piece: seq<T>)
  {
    && i + |piece| <= |data|
    && data[i..i + |piece|] == piece
  }

  /** A concatenation stands somewhere exactly when its parts stand one after the other. */
  lemma AtConcat<T>(data: seq<T>, i: nat, a: seq<T>, b: seq<T>)
    ensures At(data, i, a + b) <==> At(data, i, a) && At(data, i + |a|, b)
  {
    var ab := a + b;
    if i + |ab| <= |data| {
      var whole := data[i..i + |ab|];
      assert whole[..|a|] == data[i..i + |a|];
      assert whole[|a|..] == data[i + |a|..i + |ab|];
      assert ab[..|a|] == a && ab[|a|..] == b;
      if At(data, i, a) && At(data, i + |a|, b) {
        assert whole == whole[..|a|] + whole[|a|..];
      }
    }
  }

  lemma ConcatAssoc<T>(a: seq<T>, b: seq<T>, c: seq<T>)
    ensures (a + b) + c == a + (b + c)
  {
  }

  lemma SliceOfSlice<T>(s: seq<T>, a: nat, b: nat, c: nat, d: nat)
    requires a <= b <= |s| && c <= d <= b - a
    ensures s[a..b][c..d] == s[a + c..a + d]
  {
    var t := s[a..b];
    assert |t[c..d]| == |s[a + c..a + d]|;
    forall k | 0 <= k < d - c
      ensures t[c..d][k] == s[a + c..a + d][k]
    {
      assert t[c..d][k] == t[c + k] == s[a + c + k];
    }
  }

  /** A leading piece stands at offset 0. */
  lemma AtFront<T>(piece: seq<T>, rest: seq<T>)
    ensures At(piece + rest, 0, piece)
  {
  }

  function Min(a: int, b: int): int {
    if a <= b then a else b
  }

  function Max(a: int, b: int): int {
    if a <= b then b else a
  }
}

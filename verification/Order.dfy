/**
 Python's lexicographic order on byte strings and integer tuples, and sequences in
 strictly increasing order.
 */
module Order {

  /** `a < b` for `bytes` and for tuples of integers. */
  predicate Less(a: seq<nat>, b: seq<nat>) {
    if b == [] then false
    else if a == [] then true
    else if a[0] != b[0] then a[0] < b[0]
    else Less(a[1..], b[1..])
  }

  /** The order stated outright: at the first place where the two differ, the smaller element or the
      end of the sequence comes first. */
  lemma {:induction false} LessExactly(a: seq<nat>, b: seq<nat>)
    ensures Less(a, b) <==> exists k :: PartsAt(a, b, k) && k < |b| && (k == |a| || a[k] < b[k])
  {
    if a != [] && b != [] && a[0] == b[0] {
      LessExactly(a[1..], b[1..]);
      if k :| PartsAt(a[1..], b[1..], k) && k < |b[1..]| && (k == |a[1..]| || a[1..][k] < b[1..][k]) {
        assert a[..k + 1] == [a[0]] + a[1..][..k] && b[..k + 1] == [b[0]] + b[1..][..k];
        assert PartsAt(a, b, k + 1);
      }
      if k :| PartsAt(a, b, k) && k < |b| && (k == |a| || a[k] < b[k]) {
        assert k > 0 && a[1..][..k - 1] == a[..k][1..] && b[1..][..k - 1] == b[..k][1..];
        assert PartsAt(a[1..], b[1..], k - 1);
      }
    } else if a == [] {
      assert b != [] ==> PartsAt(a, b, 0);
    } else if b != [] {
      DifferAtOnce(a, b);
    }
  }

  /** The first k elements are the same. */
  ghost predicate PartsAt(a: seq<nat>, b: seq<nat>, k: int) {
    0 <= k <= |a| && k <= |b| && a[..k] == b[..k]
  }

  lemma DifferAtOnce(a: seq<nat>, b: seq<nat>)
    requires a != [] && b != [] && a[0] != b[0]
    ensures forall k :: PartsAt(a, b, k) <==> k == 0
  {
    forall k | 0 < k <= |a| && k <= |b|
      ensures a[..k] != b[..k]
    {
      assert a[..k][0] == a[0] && b[..k][0] == b[0];
    }
  }

  lemma {:induction false} LessTotal(a: seq<nat>, b: seq<nat>)
    ensures Less(a, b) || Less(b, a) || a == b
  {
    if a != [] && b != [] && a[0] == b[0] {
      LessTotal(a[1..], b[1..]);
      assert a == [a[0]] + a[1..] && b == [b[0]] + b[1..];
    }
  }

  lemma {:induction false} LessTransitive(a: seq<nat>, b: seq<nat>, c: seq<nat>)
    requires Less(a, b) && Less(b, c)
    ensures Less(a, c)
  {
    if a != [] && a[0] == b[0] && b[0] == c[0] {
      LessTransitive(a[1..], b[1..], c[1..]);
    }
  }

  lemma {:induction false} LessIrreflexive(a: seq<nat>)
    ensures !Less(a, a)
  {
    if a != [] {
      LessIrreflexive(a[1..]);
    }
  }

  /** In strictly increasing order. */
  predicate Increasing(ks: seq<seq<nat>>) {
    forall i, j :: 0 <= i < j < |ks| ==> Less(ks[i], ks[j])
  }

  /** In an increasing sequence the order of two elements is the order of their places. */
  lemma PlacesFollow(ks: seq<seq<nat>>, i: nat, j: nat)
    requires Increasing(ks) && i < |ks| && j < |ks| && Less(ks[i], ks[j])
    ensures i < j
  {
    if i == j { LessIrreflexive(ks[i]); }
    if j < i {
      LessTransitive(ks[i], ks[j], ks[i]);
      LessIrreflexive(ks[i]);
    }
  }

  lemma {:induction false} PlaceAtLeast(ks: seq<seq<nat>>, ls: seq<seq<nat>>, i: nat, j: nat)
    requires Increasing(ks) && Increasing(ls) && forall m | 0 <= m < |ks| :: ks[m] in ls
    requires i < |ks| && j < |ls| && ks[i] == ls[j]
    ensures i <= j
  {
    if i > 0 {
      var before :| 0 <= before < |ls| && ls[before] == ks[i - 1];
      PlaceAtLeast(ks, ls, i - 1, before);
      PlacesFollow(ls, before, j);
    }
  }

  lemma {:induction false} PlaceAtMost(ks: seq<seq<nat>>, ls: seq<seq<nat>>, i: nat, j: nat)
    requires Increasing(ks) && Increasing(ls) && |ks| == |ls| && forall m | 0 <= m < |ks| :: ks[m] in ls
    requires i < |ks| && j < |ls| && ks[i] == ls[j]
    ensures j <= i
    decreases |ks| - i
  {
    if i + 1 < |ks| {
      var after :| 0 <= after < |ls| && ls[after] == ks[i + 1];
      PlaceAtMost(ks, ls, i + 1, after);
      PlacesFollow(ls, j, after);
    }
  }

  /** Increasing sequences of one length, the first inside the second, are the same. */
  lemma IncreasingEqual(ks: seq<seq<nat>>, ls: seq<seq<nat>>)
    requires Increasing(ks) && Increasing(ls) && |ks| == |ls| && forall m | 0 <= m < |ks| :: ks[m] in ls
    ensures ks == ls
  {
    forall i | 0 <= i < |ks|
      ensures ks[i] == ls[i]
    {
      var j :| 0 <= j < |ls| && ls[j] == ks[i];
      PlaceAtLeast(ks, ls, i, j);
      PlaceAtMost(ks, ls, i, j);
    }
  }
}

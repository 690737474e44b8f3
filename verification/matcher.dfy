/** The matcher: the positional distance between a query and a corpus entry.
 */
module Matcher {
  import opened Utf8
  import opened Float64

  function Min(x: nat, y: nat): nat { if x <= y then x else y }

  function Max(x: nat, y: nat): nat { if x <= y then y else x }

  /** `usize::abs_diff`. */
  function AbsDiff(x: nat, y: nat): nat { if x <= y then y - x else x - y }

  /** Number of positions `i < k` at which `a` and `b` hold different
      characters. */
  function DiffsBelow(a: string, b: string, k: nat): nat
    requires k <= |a| && k <= |b|
  {
    if k == 0 then 0
    else DiffsBelow(a, b, k - 1) + (if a[k - 1] != b[k - 1] then 1 else 0)
  }

  /** The characters `a.chars().zip(b.chars())` pairs up that differ. */
  function Mismatches(a: string, b: string): nat
  {
    DiffsBelow(a, b, Min(|a|, |b|))
  }

  /** The distance before normalisation: the difference of the byte lengths
      plus the positional character mismatches. */
  function RawDistance(a: string, b: string): nat
  {
    AbsDiff(ByteLen(a), ByteLen(b)) + Mismatches(a, b)
  }

  /** The `distance` closure: counts mismatches over the zipped characters
      and divides the raw distance by the byte length of `a`. */
  method Distance(a: string, b: string) returns (d: Float)
    ensures d == Divide(RawDistance(a, b), ByteLen(a))
  {
    var aLen := ByteLen(a);
    var bLen := ByteLen(b);
    var distance := AbsDiff(aLen, bLen);
    var zipped := Min(|a|, |b|);
    var i := 0;
    while i < zipped
      invariant i <= zipped
      invariant distance == AbsDiff(aLen, bLen) + DiffsBelow(a, b, i)
    {
      if a[i] != b[i] {
        distance := distance + 1;
      }
      i := i + 1;
    }
    d := Divide(distance, aLen);
  }

  lemma {:induction false} DiffsBelowSymmetric(a: string, b: string, k: nat)
    requires k <= |a| && k <= |b|
    ensures DiffsBelow(a, b, k) == DiffsBelow(b, a, k)
  {
    if k > 0 {
      DiffsBelowSymmetric(a, b, k - 1);
    }
  }

  lemma {:induction false} DiffsBelowBounds(a: string, b: string, k: nat)
    requires k <= |a| && k <= |b|
    ensures DiffsBelow(a, b, k) <= k
    ensures DiffsBelow(a, b, k) == 0 <==> a[..k] == b[..k]
  {
    if k > 0 {
      DiffsBelowBounds(a, b, k - 1);
      assert a[..k] == a[..k - 1] + [a[k - 1]];
      assert b[..k] == b[..k - 1] + [b[k - 1]];
      if a[..k] == b[..k] {
        assert a[..k - 1] == a[..k][..k - 1];
        assert b[..k - 1] == b[..k][..k - 1];
        assert a[k - 1] == a[..k][k - 1];
      }
    }
  }

  /** The raw distance does not depend on the order of its arguments. */
  lemma RawDistanceSymmetric(a: string, b: string)
    ensures RawDistance(a, b) == RawDistance(b, a)
  {
    DiffsBelowSymmetric(a, b, Min(|a|, |b|));
  }

  /** The raw distance is zero exactly for identical strings. */
  lemma RawDistanceZero(a: string, b: string)
    ensures RawDistance(a, b) == 0 <==> a == b
  {
    var m := Min(|a|, |b|);
    DiffsBelowBounds(a, b, m);
    if RawDistance(a, b) == 0 {
      assert a[..m] == b[..m];
      if |a| < |b| {
        PrefixShorterBytes(a, b);
      } else if |b| < |a| {
        PrefixShorterBytes(b, a);
      } else {
        assert a == a[..m] && b == b[..m];
      }
    }
  }

  /** A proper extension has strictly more bytes. */
  lemma PrefixShorterBytes(s: string, t: string)
    requires |s| < |t| && s == t[..|s|]
    ensures ByteLen(s) < ByteLen(t)
  {
    assert t == s + t[|s|..];
    ByteLenAppend(s, t[|s|..]);
  }

  /** The raw distance never exceeds the byte length of the longer string. */
  lemma RawDistanceAtMostLonger(a: string, b: string)
    ensures RawDistance(a, b) <= Max(ByteLen(a), ByteLen(b))
    ensures RawDistance(a, b) >= AbsDiff(ByteLen(a), ByteLen(b))
  {
    DiffsBelowBounds(a, b, Min(|a|, |b|));
  }

  /** The normalised distance stays within 0..1 when the entry has no more
      bytes than the query, and exceeds 1 once the entry has more than twice
      as many. */
  lemma NormalisedRange(a: string, b: string)
    requires ByteLen(a) > 0
    ensures ByteLen(b) <= ByteLen(a) ==> !Less(FromNat(1), Divide(RawDistance(a, b), ByteLen(a)))
    ensures ByteLen(b) > 2 * ByteLen(a) ==> Less(FromNat(1), Divide(RawDistance(a, b), ByteLen(a)))
  {
    RawDistanceAtMostLonger(a, b);
    DivideAboveOne(RawDistance(a, b), ByteLen(a));
  }

  /** The "normalized value between 0 and 1" is not always below 1: a
      one-letter query against a three-letter entry gives 3. */
  lemma NormalisedCanExceedOne()
    ensures RawDistance("a", "xyz") == 3
    ensures Divide(RawDistance("a", "xyz"), ByteLen("a")) == FromNat(3)
    ensures Less(FromNat(1), Divide(RawDistance("a", "xyz"), ByteLen("a")))
  {
  }

  /** The empty query has no normalised distance in 0..1: `0.0 / 0.0` is NaN
      and a positive raw distance over zero is `+inf`. */
  lemma EmptyQueryNotNormalised(b: string)
    ensures b == "" ==> Divide(RawDistance("", b), ByteLen("")).NaN?
    ensures b != "" ==> Divide(RawDistance("", b), ByteLen("")).PosInfinity?
  {
  }

  /** The worked example of a near match: one mismatch in the shared prefix
      plus one byte of length difference. */
  lemma HelloHelpDistance()
    ensures RawDistance("hello", "help") == 2
    ensures RawDistance("hello", "hello") == 0
  {
  }
}

/** `find_closest_str`: the linear scan that keeps the first entry whose
normalised distance beats everything seen before it, starting from the bound
`len(query)`.
 */
module Scan {
  import opened Utf8
  import opened Float64
  import opened CorpusLoader
  import opened Matcher

  /** The raw distance from the query to every corpus entry, in corpus
      order. */
  function RawDistances(arg: string, corpus: seq<string>): (ds: seq<nat>)
    ensures |ds| == |corpus|
    ensures forall j :: 0 <= j < |corpus| ==> ds[j] == RawDistance(arg, corpus[j])
  {
    seq(|corpus|, j requires 0 <= j < |corpus| => RawDistance(arg, corpus[j]))
  }

  /** `k` holds a minimum of `ds` and no earlier index holds one. */
  ghost predicate IsFirstMin(ds: seq<nat>, k: nat)
  {
    && k < |ds|
    && (forall j :: 0 <= j < |ds| ==> ds[k] <= ds[j])
    && (forall j :: 0 <= j < k ==> ds[k] < ds[j])
  }

  /** The earliest index of a minimal element. */
  function FirstMinIndex(ds: seq<nat>): (k: nat)
    requires |ds| > 0
    ensures IsFirstMin(ds, k)
  {
    if |ds| == 1 then 0
    else
      var k := FirstMinIndex(ds[..|ds| - 1]);
      assert forall j :: 0 <= j < |ds| - 1 ==> ds[..|ds| - 1][j] == ds[j];
      if ds[|ds| - 1] < ds[k] then |ds| - 1 else k
  }

  /** There is at most one earliest minimum. */
  lemma FirstMinUnique(ds: seq<nat>, k: nat, k': nat)
    requires IsFirstMin(ds, k) && IsFirstMin(ds, k')
    ensures k == k'
  {
    assert ds[k] <= ds[k'] && ds[k'] <= ds[k];
  }

  /** Some entry's raw distance beats the initial bound `len(query)`,
      which on integers reads `raw < n * n`. */
  ghost predicate SomeBelowBound(arg: string, corpus: seq<string>)
  {
    exists j :: 0 <= j < |corpus| && RawDistance(arg, corpus[j]) < ByteLen(arg) * ByteLen(arg)
  }

  /** The index the scan settles on, stated over integers: the earliest
      minimal raw distance if it beats the initial bound, otherwise the seed
      `0`. */
  ghost predicate IsClosest(arg: string, corpus: seq<string>, k: nat)
  {
    if SomeBelowBound(arg, corpus) then IsFirstMin(RawDistances(arg, corpus), k)
    else k == 0
  }

  /** The index the scan returns. */
  function ClosestIndex(arg: string, corpus: Corpus): (k: nat)
    ensures k < |corpus|
    ensures IsClosest(arg, corpus, k)
  {
    var ds := RawDistances(arg, corpus);
    var n := ByteLen(arg);
    var k := FirstMinIndex(ds);
    if ds[k] < n * n then k
    else
      assert !SomeBelowBound(arg, corpus) by {
        forall j | 0 <= j < |corpus| ensures RawDistance(arg, corpus[j]) >= n * n {
          assert ds[k] <= ds[j];
        }
      }
      0
  }

  /** `IsClosest` pins the index down completely. */
  lemma ClosestIndexUnique(arg: string, corpus: Corpus, k: nat)
    requires k < |corpus|
    ensures IsClosest(arg, corpus, k) <==> k == ClosestIndex(arg, corpus)
  {
  }

  /** The string `find_closest_str` returns. */
  function ClosestMatch(arg: string, corpus: Corpus): (r: string)
    ensures r in corpus
  {
    corpus[ClosestIndex(arg, corpus)]
  }

  /** `find_closest_str`: seeds the answer with `corpus[0]` and the bound with
      `len(arg) as f64`, then replaces both whenever an entry's normalised
      distance is strictly below the bound. */
  method FindClosestStr(arg: string, corpus: Corpus) returns (closest: string)
    ensures closest == ClosestMatch(arg, corpus)
    ensures closest in corpus
  {
    ghost var ds := RawDistances(arg, corpus);
    ghost var n := ByteLen(arg);
    ghost var k := 0;
    ghost var found := false;
    closest := corpus[0];
    var closestDistance := FromNat(ByteLen(arg));
    var i := 0;
    while i < |corpus|
      invariant i <= |corpus|
      invariant k < |corpus| && closest == corpus[k]
      invariant found <==> exists j :: 0 <= j < i && ds[j] < n * n
      invariant !found ==> k == 0 && closestDistance == FromNat(n)
      invariant found ==> k < i && ds[k] < n * n && closestDistance == Divide(ds[k], n)
      invariant found ==> forall j :: 0 <= j < i ==> ds[k] <= ds[j]
      invariant found ==> forall j :: 0 <= j < k ==> ds[k] < ds[j]
    {
      var distance := Distance(arg, corpus[i]);
      if found {
        DivideMonotone(ds[i], ds[k], n);
      } else {
        DivideBelowBound(ds[i], n);
      }
      if Less(distance, closestDistance) {
        closest := corpus[i];
        closestDistance := distance;
        k := i;
        found := true;
      }
      i := i + 1;
    }
    assert found <==> SomeBelowBound(arg, corpus);
    ClosestIndexUnique(arg, corpus, k);
  }

  /** Among entries at the same raw distance the later one is never chosen. */
  lemma TiesKeepEarliest(arg: string, corpus: Corpus, i: nat, j: nat)
    requires i < j < |corpus|
    requires RawDistance(arg, corpus[i]) == RawDistance(arg, corpus[j])
    ensures ClosestIndex(arg, corpus) != j
  {
  }

  /** A non-empty query that is itself in the corpus is found. */
  lemma ExactMatchFound(arg: string, corpus: Corpus)
    requires arg != "" && arg in corpus
    ensures ClosestMatch(arg, corpus) == arg
  {
    var j :| 0 <= j < |corpus| && corpus[j] == arg;
    RawDistanceZero(arg, arg);
    var n := ByteLen(arg);
    assert RawDistance(arg, corpus[j]) == 0 < n * n;
    var k := ClosestIndex(arg, corpus);
    assert RawDistances(arg, corpus)[k] <= RawDistances(arg, corpus)[j];
    RawDistanceZero(arg, corpus[k]);
  }

  /** No entry beats the bound of an empty query, so the seed stays. */
  lemma EmptyQueryKeepsFirst(corpus: Corpus)
    ensures ClosestMatch("", corpus) == corpus[0]
  {
  }

  /** When no entry's raw distance is below `n * n` the seed entry is
      returned, even if it is farther than some other entry. */
  lemma NothingBelowBoundKeepsFirst(arg: string, corpus: Corpus)
    requires forall j :: 0 <= j < |corpus| ==> RawDistance(arg, corpus[j]) >= ByteLen(arg) * ByteLen(arg)
    ensures ClosestIndex(arg, corpus) == 0
  {
  }

  /** Worked example: among exact duplicates the first wins. */
  lemma DuplicateEntriesExample()
    ensures ClosestIndex("ab", ["ab", "ab"]) == 0
  {
  }
}

/**
 * The original logic of `matchDescriptors`: the norm chosen for the
 * brute-force matcher, and the descriptor distance ratio test of the
 * k-nearest-neighbour selector (k = 2). Of each query's two best matches,
 * the best one is kept when its distance is below 0.8 times the second
 * best's. Distances are modelled as `real`.
 */
module MatchDescriptors {
  import opened CvTypes

  /** The distance norm of a brute-force matcher. */
  datatype NormType = NormHamming | NormL2

  /** Binary descriptors are compared by Hamming distance, all others by L2. */
  function NormFor(descriptorType: string): (norm: NormType)
    ensures norm == NormHamming <==> descriptorType == "DES_BINARY"
    ensures norm == NormL2 <==> descriptorType != "DES_BINARY"
  {
    if descriptorType == "DES_BINARY" then NormHamming else NormL2
  }

  const MinDescDistRatio: real := 0.8

  /** Every k-NN entry holds at least the two matches the test reads. */
  predicate WellFormedKnn(knn: seq<seq<DMatch>>)
  {
    forall q :: 0 <= q < |knn| ==> |knn[q]| >= 2
  }

  /** The best match is clearly better than the second best. */
  predicate PassesRatio(pair: seq<DMatch>)
    requires |pair| >= 2
  {
    pair[0].distance < MinDescDistRatio * pair[1].distance
  }

  /** The best matches kept by the test, in the order of `knn`. */
  function Kept(knn: seq<seq<DMatch>>): seq<DMatch>
    requires WellFormedKnn(knn)
    decreases |knn|
  {
    if knn == [] then []
    else
      var last := knn[|knn| - 1];
      Kept(knn[..|knn| - 1]) + (if PassesRatio(last) then [last[0]] else [])
  }

  /** The indices of the entries that pass the test, characterised as the
      increasing sequence of exactly the passing indices. */
  function PassingIndices(knn: seq<seq<DMatch>>): (r: seq<nat>)
    requires WellFormedKnn(knn)
    ensures forall t :: 0 <= t < |r| ==> r[t] < |knn| && PassesRatio(knn[r[t]])
    ensures forall s, t :: 0 <= s < t < |r| ==> r[s] < r[t]
    ensures forall q :: 0 <= q < |knn| && PassesRatio(knn[q]) ==> q in r
    decreases |knn|
  {
    if knn == [] then []
    else
      var n := |knn| - 1;
      var prefix := knn[..n];
      assert forall q :: 0 <= q < n ==> knn[q] == prefix[q];
      PassingIndices(prefix) + (if PassesRatio(knn[n]) then [n] else [])
  }

  /** The kept matches are exactly the best matches of the passing entries,
      in order. */
  lemma {:induction false} KeptSelectsPassing(knn: seq<seq<DMatch>>)
    requires WellFormedKnn(knn)
    ensures |Kept(knn)| == |PassingIndices(knn)|
    ensures forall t :: 0 <= t < |Kept(knn)| ==> Kept(knn)[t] == knn[PassingIndices(knn)[t]][0]
    decreases |knn|
  {
    if knn != [] {
      var n := |knn| - 1;
      var prefix := knn[..n];
      KeptSelectsPassing(prefix);
      var kept, idx := Kept(prefix), PassingIndices(prefix);
      var extraKept := if PassesRatio(knn[n]) then [knn[n][0]] else [];
      var extraIdx := if PassesRatio(knn[n]) then [n] else [];
      assert Kept(knn) == kept + extraKept;
      assert PassingIndices(knn) == idx + extraIdx;
      forall t | 0 <= t < |Kept(knn)|
        ensures Kept(knn)[t] == knn[PassingIndices(knn)[t]][0]
      {
        if t < |kept| {
          assert Kept(knn)[t] == kept[t];
          assert PassingIndices(knn)[t] == idx[t];
          assert knn[idx[t]] == prefix[idx[t]];
        }
      }
    }
  }

  /** The test keeps at most one match per entry, and keeps none exactly
      when no entry passes. */
  lemma {:induction false} KeptBounds(knn: seq<seq<DMatch>>)
    requires WellFormedKnn(knn)
    ensures |Kept(knn)| <= |knn|
    ensures Kept(knn) == [] <==> forall q :: 0 <= q < |knn| ==> !PassesRatio(knn[q])
    decreases |knn|
  {
    if knn != [] {
      var n := |knn| - 1;
      var prefix := knn[..n];
      KeptBounds(prefix);
      assert forall q :: 0 <= q < n ==> knn[q] == prefix[q];
    }
  }

  /** The filtering loop: appends to `matches` the best match of each entry
      of `knn` that passes the test, in order, leaving `matches` itself as it was. */
  method FilterByRatio(knn: seq<seq<DMatch>>, matches: seq<DMatch>) returns (result: seq<DMatch>)
    requires WellFormedKnn(knn)
    ensures result == matches + Kept(knn)
    ensures |result| <= |matches| + |knn|
  {
    result := matches;
    for q := 0 to |knn|
      invariant result == matches + Kept(knn[..q])
    {
      assert knn[..q + 1][..q] == knn[..q];
      if knn[q][0].distance < MinDescDistRatio * knn[q][1].distance {
        result := result + [knn[q][0]];
      }
    }
    assert knn[..|knn|] == knn;
    KeptBounds(knn);
  }
}

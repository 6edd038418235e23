// The edge weight: one minus the Jaccard similarity of the two endpoints'
// publication-id sets.

module Jaccard {

  /** 1 - |p1 * p2| / |p1 + p2|. The union is non-empty for the endpoints of
      any edge, which both hold the publication that created it. */
  function JaccardDistance(p1: set<int>, p2: set<int>): (w: real)
    requires p1 + p2 != {}
    ensures 0.0 <= w <= 1.0
  {
    IntersectionWithinUnion(p1, p2);
    1.0 - (|p1 * p2| as real) / (|p1 + p2| as real)
  }

  lemma IntersectionWithinUnion(p1: set<int>, p2: set<int>)
    ensures |p1 * p2| <= |p1 + p2|
    ensures |p1 * p2| == |p1 + p2| ==> p1 == p2
  {
    assert |p1 + p2| == |p1 - p2| + |p2 - p1| + |p1 * p2|;
    if |p1 * p2| == |p1 + p2| {
      assert p1 - p2 == {} && p2 - p1 == {};
    }
  }

  lemma JaccardSymmetric(p1: set<int>, p2: set<int>)
    requires p1 + p2 != {}
    ensures JaccardDistance(p1, p2) == JaccardDistance(p2, p1)
  {
    assert p1 * p2 == p2 * p1 && p1 + p2 == p2 + p1;
  }

  /** The weight is below 1 exactly when the two sets share an element. */
  lemma JaccardBelowOne(p1: set<int>, p2: set<int>)
    requires p1 + p2 != {}
    ensures JaccardDistance(p1, p2) < 1.0 <==> p1 * p2 != {}
  {
    var i, u := |p1 * p2| as real, |p1 + p2| as real;
    assert u > 0.0;
    if p1 * p2 != {} {
      assert i > 0.0;
      PositiveQuotient(i, u);
    } else {
      assert i == 0.0;
    }
  }

  lemma PositiveQuotient(i: real, u: real)
    requires i > 0.0 && u > 0.0
    ensures i / u > 0.0
  {
  }

  /** The weight is 0 exactly when the two sets are equal. */
  lemma JaccardZero(p1: set<int>, p2: set<int>)
    requires p1 + p2 != {}
    ensures JaccardDistance(p1, p2) == 0.0 <==> p1 == p2
  {
    IntersectionWithinUnion(p1, p2);
    var i, u := |p1 * p2| as real, |p1 + p2| as real;
    if p1 == p2 {
      assert p1 * p2 == p1 + p2;
    } else {
      assert i < u;
      assert i / u < 1.0;
    }
  }
}

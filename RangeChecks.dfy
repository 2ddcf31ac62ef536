/** The acceptance test checkRange applies once the service has converged on
    the expected verdict for a range: what listBlobbifiedRanges and
    getBlobGranuleRanges must return for an active range and for an inactive
    one, what that acceptance guarantees, and that the reference service's
    replies are always accepted. */
module RangeChecks {
  import opened Keys
  import opened Ranges
  import opened ReferenceService

  /** Granules follow each other without gaps: each ends where the next begins. */
  predicate Contiguous(granules: seq<KeyRange>) {
    forall i :: 0 <= i < |granules| - 1 ==> granules[i].end == granules[i + 1].begin
  }

  /** Expected active: one listed range containing the query; at least one
      granule, the first starting at or before the query, the last ending at
      or after it, and no gaps between them. */
  predicate ActiveAccepted(q: KeyRange, listed: seq<KeyRange>, granules: seq<KeyRange>) {
    && |listed| == 1
    && LessEq(listed[0].begin, q.begin)
    && LessEq(q.end, listed[0].end)
    && |granules| >= 1
    && LessEq(granules[0].begin, q.begin)
    && LessEq(q.end, granules[|granules| - 1].end)
    && Contiguous(granules)
  }

  /** Expected inactive: nothing listed and no granules. */
  predicate InactiveAccepted(listed: seq<KeyRange>, granules: seq<KeyRange>) {
    listed == [] && granules == []
  }

  predicate Accepted(q: KeyRange, isActive: bool, listed: seq<KeyRange>, granules: seq<KeyRange>) {
    if isActive then ActiveAccepted(q, listed, granules) else InactiveAccepted(listed, granules)
  }

  /** An accepted active answer covers the query: every key of it lies in
      some granule. */
  lemma ActiveCovers(q: KeyRange, listed: seq<KeyRange>, granules: seq<KeyRange>, k: Key)
    requires ActiveAccepted(q, listed, granules) && Contains(q, k)
    ensures exists i :: 0 <= i < |granules| && Contains(granules[i], k)
  {
    LessEqTransitive(granules[0].begin, q.begin, k);
    LessEqTransitive(k, q.end, granules[|granules| - 1].end);
    var i := GranuleOf(granules, k);
  }

  /** The granule holding k, for k from the first begin to the last end. */
  lemma {:induction false} GranuleOf(granules: seq<KeyRange>, k: Key) returns (i: nat)
    requires |granules| >= 1 && Contiguous(granules)
    requires LessEq(granules[0].begin, k) && Less(k, granules[|granules| - 1].end)
    ensures i < |granules| && Contains(granules[i], k)
  {
    LessTotal(k, granules[0].end);
    if Less(k, granules[0].end) || |granules| == 1 {
      i := 0;
    } else {
      var j := GranuleOf(granules[1..], k);
      i := j + 1;
    }
  }

  /** checkRange(range, isActive) gets through against the service in state
      s: its first poll already returns the expected verdict, and every
      listing and granule reply the service can give is accepted. */
  ghost predicate CheckRangePasses(s: set<KeyRange>, q: KeyRange, isActive: bool) {
    && Verify(s, q) == isActive
    && forall listed, granules ::
         RangesReply(s, q, listed) && RangesReply(s, q, granules) ==> Accepted(q, isActive, listed, granules)
  }

  lemma EnumeratesSingleton(xs: seq<KeyRange>, a: KeyRange)
    requires Enumerates(xs, {a})
    ensures xs == [a]
  {
    assert |xs| == |multiset(xs)| == 1;
    assert xs[0] in multiset(xs);
  }

  /** Once the service has converged (the range lies inside a registered
      range, or for an expected-inactive range overlaps nothing registered),
      checkRange accepts its replies. */
  lemma CheckRangeConverged(s: set<KeyRange>, q: KeyRange, isActive: bool)
    requires Partitioned(s) && WellFormed(q)
    requires if isActive then Verify(s, q) else !Overlapped(s, q)
    ensures CheckRangePasses(s, q, isActive)
  {
    if isActive {
      var a :| a in s && Within(q, a);
      ListedWithin(s, q, a);
      forall xs | RangesReply(s, q, xs)
        ensures xs == [a]
      {
        EnumeratesSingleton(xs, a);
      }
    } else {
      forall a | a in s && Within(q, a)
        ensures false
      {
        WithinOverlaps(q, a);
      }
      assert Listed(s, q) == {};
      forall xs | RangesReply(s, q, xs)
        ensures xs == []
      {
        assert |xs| == |multiset(xs)| == 0;
      }
    }
  }
}

/** Half-open key ranges [begin, end) (KeyRangeRef) and the relations between
    them that the blob-range API is specified with. */
module Ranges {
  import opened Keys

  datatype KeyRange = KeyRange(begin: Key, end: Key)

  /** A range holds at least one key: begin < end. */
  predicate WellFormed(r: KeyRange) {
    Less(r.begin, r.end)
  }

  predicate Contains(r: KeyRange, k: Key) {
    LessEq(r.begin, k) && Less(k, r.end)
  }

  predicate Within(inner: KeyRange, outer: KeyRange) {
    LessEq(outer.begin, inner.begin) && LessEq(inner.end, outer.end)
  }

  /** Two half-open ranges share a key; touching ranges do not overlap. */
  predicate Overlaps(a: KeyRange, b: KeyRange) {
    Less(a.begin, b.end) && Less(b.begin, a.end)
  }

  /** [k, strinc(k)): every key that has k as a prefix. */
  function PrefixRange(k: Key): (r: KeyRange)
    requires Incrementable(k)
    ensures WellFormed(r) && r.begin == k
    ensures forall s :: Contains(r, k + s)
  {
    forall s ensures Contains(KeyRange(k, Strinc(k)), k + s) {
      StrincAbove(k, s);
      if s != [] {
        LessPrefix(k, s);
      } else {
        assert k + s == k;
      }
    }
    StrincAbove(k, []);
    assert k + [] == k;
    KeyRange(k, Strinc(k))
  }

  /** [k, strinc(k)) holds exactly the keys that start with k. */
  lemma PrefixRangeHolds(k: Key, x: Key)
    requires Incrementable(k)
    ensures Contains(PrefixRange(k), x) <==> |k| <= |x| && x[..|k|] == k
  {
    if Contains(PrefixRange(k), x) {
      StrincBelow(k, x);
    }
    if |k| <= |x| && x[..|k|] == k {
      assert x == k + x[|k|..];
    }
  }

  /** A non-empty range overlaps every range it lies within. */
  lemma WithinOverlaps(inner: KeyRange, outer: KeyRange)
    requires WellFormed(inner) && Within(inner, outer)
    ensures Overlaps(inner, outer)
  {
    LessEqTransitive(outer.begin, inner.begin, inner.end);
    LessEqTransitive(inner.begin, inner.end, outer.end);
  }

  /** Two ranges that both contain one non-empty range overlap. */
  lemma CommonPartOverlaps(q: KeyRange, a: KeyRange, b: KeyRange)
    requires WellFormed(q) && Within(q, a) && Within(q, b)
    ensures Overlaps(a, b)
  {
    LessEqTransitive(a.begin, q.begin, q.end);
    LessEqTransitive(a.begin, q.end, b.end);
    LessEqTransitive(b.begin, q.begin, q.end);
    LessEqTransitive(b.begin, q.end, a.end);
  }

  lemma WithinTransitive(a: KeyRange, b: KeyRange, c: KeyRange)
    requires Within(a, b) && Within(b, c)
    ensures Within(a, c)
  {
    LessEqTransitive(c.begin, b.begin, a.begin);
    LessEqTransitive(a.end, b.end, c.end);
  }

  /** Ranges inside two non-overlapping ranges do not overlap. */
  lemma DisjointInside(a: KeyRange, outerA: KeyRange, b: KeyRange, outerB: KeyRange)
    requires WellFormed(a) && WellFormed(b)
    requires Within(a, outerA) && Within(b, outerB) && !Overlaps(outerA, outerB)
    ensures !Overlaps(a, b)
  {
    LessTotal(outerA.begin, outerB.end);
    LessTotal(outerB.begin, outerA.end);
    if Overlaps(a, b) {
      if !Less(outerA.begin, outerB.end) {
        // b.end <= outerB.end <= outerA.begin <= a.begin, against a.begin < b.end
        LessEqTransitive(b.end, outerB.end, outerA.begin);
        LessEqTransitive(b.end, outerA.begin, a.begin);
        LessAsymmetric(a.begin, b.end);
      } else {
        LessEqTransitive(a.end, outerA.end, outerB.begin);
        LessEqTransitive(a.end, outerB.begin, b.begin);
        LessAsymmetric(b.begin, a.end);
      }
    }
  }

  /** The prefix ranges of two different keys of one length are disjoint. */
  lemma PrefixRangesDisjoint(k1: Key, k2: Key)
    requires Incrementable(k1) && Incrementable(k2) && |k1| == |k2| && k1 != k2
    ensures !Overlaps(PrefixRange(k1), PrefixRange(k2))
  {
    LessTotal(k1, k2);
    if Less(k1, k2) {
      StrincNext(k1, k2);
      if Less(Strinc(k1), k2) {
        LessAsymmetric(Strinc(k1), k2);
      } else {
        LessIrreflexive(k2);
      }
    } else {
      StrincNext(k2, k1);
      if Less(Strinc(k2), k1) {
        LessAsymmetric(Strinc(k2), k1);
      } else {
        LessIrreflexive(k1);
      }
    }
  }

  /** Consecutive boundaries of a strictly increasing sequence give
      well-formed, pairwise non-overlapping ranges that all lie within the
      range from the first boundary to the last. */
  lemma Partition(bs: seq<Key>, i: int, j: int)
    requires Increasing(bs) && 0 <= i < |bs| - 1 && 0 <= j < |bs| - 1
    ensures WellFormed(KeyRange(bs[i], bs[i + 1]))
    ensures Within(KeyRange(bs[i], bs[i + 1]), KeyRange(bs[0], bs[|bs| - 1]))
    ensures i != j ==> !Overlaps(KeyRange(bs[i], bs[i + 1]), KeyRange(bs[j], bs[j + 1]))
  {
    if i < j {
      if i + 1 < j {
        LessAsymmetric(bs[i + 1], bs[j]);
      }
      LessIrreflexive(bs[j]);
    } else if j < i {
      if j + 1 < i {
        LessAsymmetric(bs[j + 1], bs[i]);
      }
      LessIrreflexive(bs[i]);
    }
  }
}

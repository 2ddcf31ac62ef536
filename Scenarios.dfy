/** The unit scenarios' key and range construction (withSuffix, "%04x",
    strinc) and what the reference service answers to every call they make.
    A scenario works inside a range no registered range reaches into; the
    lemmas here state each scenario's outcome against any such service state. */
module Scenarios {
  import opened Keys
  import opened Ranges
  import opened ReferenceService
  import opened RangeChecks

  const SuffixA: Key := [0x41]          // "A"
  const SuffixB: Key := [0x42]          // "B"
  const SuffixAF: Key := [0x41, 0x46]   // "AF"
  const SuffixAG: Key := [0x41, 0x47]   // "AG"

  /** A unit scenario's range: every key under one prefix. */
  predicate IsUnitRange(range: KeyRange) {
    Incrementable(range.begin) && range.end == Strinc(range.begin)
  }

  /** [begin+"A", begin+"B"): the range the verify and idempotence
      scenarios register. */
  function ActiveSubRange(range: KeyRange): KeyRange {
    KeyRange(range.begin + SuffixA, range.begin + SuffixB)
  }

  /** The keys the verify and idempotence scenarios cut their range at:
      begin < begin+"A" < begin+"AF" < begin+"AG" < begin+"B" < end. */
  function UnitKeys(range: KeyRange): (ks: seq<Key>)
    requires IsUnitRange(range)
    ensures |ks| == 6 && ks[0] == range.begin && ks[5] == range.end
    ensures Increasing(ks)
  {
    var b := range.begin;
    LessPrefix(b, SuffixA);
    LessCommonPrefix(b, SuffixA, SuffixAF);
    LessCommonPrefix(b, SuffixAF, SuffixAG);
    LessCommonPrefix(b, SuffixAG, SuffixB);
    StrincAbove(b, SuffixB);
    var ks := [b, b + SuffixA, b + SuffixAF, b + SuffixAG, b + SuffixB, range.end];
    ChainIncreasing(ks);
    ks
  }

  // ---------------------------------------------------------------------
  // One registered range inside a clear scenario range
  // ---------------------------------------------------------------------

  /** A range inside a scenario range that nothing registered reaches into
      is itself untouched by every registered range. */
  lemma ClearInside(s: set<KeyRange>, range: KeyRange, q: KeyRange)
    requires Partitioned(s) && !Overlapped(s, range)
    requires WellFormed(q) && Within(q, range)
    ensures !Overlapped(s, q) && q !in s
    ensures Blobbify(s, q) == Reply(true, s + {q})
    ensures Unblobbify(s, q) == Reply(true, s)
  {
    forall a | a in s
      ensures !Overlaps(a, q) && !Within(a, q)
    {
      DisjointInside(a, a, q, range);
      if Within(a, q) {
        WithinOverlaps(a, q);
      }
    }
    WithinOverlaps(q, range);
    assert (set a | a in s && !Within(a, q)) == s;
  }

  /** Inside a clear scenario range where the service has registered the
      one range r, for every non-empty q in the scenario range: q is
      active iff it lies in r; listing q reports r iff q meets r; and both
      activating and deactivating q succeed iff q is r or misses r. */
  lemma SingleRegistration(s: set<KeyRange>, range: KeyRange, r: KeyRange, q: KeyRange)
    requires Partitioned(s) && !Overlapped(s, range)
    requires WellFormed(r) && Within(r, range) && WellFormed(q) && Within(q, range)
    ensures Partitioned(s + {r}) && r !in s
    ensures Verify(s + {r}, q) <==> Within(q, r)
    ensures Listed(s + {r}, q) == if Overlaps(r, q) then {r} else {}
    ensures Blobbify(s + {r}, q).ok <==> q == r || !Overlaps(q, r)
    ensures Unblobbify(s + {r}, q).ok <==> q == r || !Overlaps(q, r)
  {
    var t := s + {r};
    ClearInside(s, range, r);
    ClearInside(s, range, q);
    assert Partitioned(t);
    if Verify(t, q) {
      var a :| a in t && Within(q, a);
      if a != r {
        CommonPartOverlaps(q, a, range);
      }
    }
    if q == r {
      UnblobbifyExact(t, r);
    }
    // a registered range that begins or ends where q does would reach into
    // the scenario range, so it can only be r
    forall a | a in t && a.begin == q.begin
      ensures a == r
    {
    }
    forall a | a in t && a.end == q.end
      ensures a == r
    {
    }
  }

  // ---------------------------------------------------------------------
  // verifyRangeUnit
  // ---------------------------------------------------------------------

  /** The seven probes verifyRangeUnit expects to be inactive, in the order
      it polls them: the whole range, the parts left and right of the
      active range, and four ranges that straddle one of its ends. */
  function InactiveProbes(range: KeyRange): seq<KeyRange> {
    var r := ActiveSubRange(range);
    var m := range.begin + SuffixAF;
    [ range,
      KeyRange(range.begin, r.begin), KeyRange(r.end, range.end),
      KeyRange(range.begin, m), KeyRange(m, range.end),
      KeyRange(range.begin, r.end), KeyRange(r.begin, range.end) ]
  }

  /** Every probe of InactiveProbes is non-empty, lies in the scenario
      range and reaches outside [A, B). */
  lemma InactiveProbesOutside(range: KeyRange)
    requires IsUnitRange(range)
    ensures forall q :: q in InactiveProbes(range) ==>
              WellFormed(q) && Within(q, range) && !Within(q, ActiveSubRange(range))
  {
    var ks := UnitKeys(range);
    var b, a, m, bb, e := ks[0], ks[1], ks[2], ks[4], ks[5];
    assert Less(b, a) && Less(b, m) && Less(b, bb) && Less(a, m) && Less(a, bb) && Less(a, e);
    assert Less(m, bb) && Less(m, e) && Less(bb, e) && Less(b, e);
    LessAsymmetric(b, a);
    LessAsymmetric(bb, e);
  }

  /** verifyRangeUnit against the reference service: activating [A, B)
      succeeds, checkRange accepts it, its two halves at "AF" are active,
      every probe of InactiveProbes is inactive, and the teardown restores
      the service state. */
  lemma VerifyRangeScenario(s: set<KeyRange>, range: KeyRange)
    requires Partitioned(s) && IsUnitRange(range) && !Overlapped(s, range)
    ensures var r := ActiveSubRange(range);
            var m := range.begin + SuffixAF;
            && WellFormed(r) && Within(r, range)
            && Blobbify(s, r) == Reply(true, s + {r})
            && CheckRangePasses(s + {r}, r, true)
            && WellFormed(KeyRange(r.begin, m)) && Verify(s + {r}, KeyRange(r.begin, m))
            && WellFormed(KeyRange(m, r.end)) && Verify(s + {r}, KeyRange(m, r.end))
            && (forall q :: q in InactiveProbes(range) ==> WellFormed(q) && !Verify(s + {r}, q))
            && Unblobbify(s + {r}, r) == Reply(true, s)
  {
    var ks := UnitKeys(range);
    var a, m, bb := ks[1], ks[2], ks[4];
    var r := ActiveSubRange(range);
    assert Less(a, m) && Less(m, bb) && Less(ks[0], a) && Less(bb, ks[5]);
    ClearInside(s, range, r);
    SingleRegistration(s, range, r, r);
    CheckRangeConverged(s + {r}, r, true);
    SingleRegistration(s, range, r, KeyRange(a, m));
    SingleRegistration(s, range, r, KeyRange(m, bb));
    InactiveProbesOutside(range);
    forall q | q in InactiveProbes(range)
      ensures WellFormed(q) && !Verify(s + {r}, q)
    {
      SingleRegistration(s, range, r, q);
    }
    UnblobbifyExact(s + {r}, r);
    assert (s + {r}) - {r} == s;
  }

  // ---------------------------------------------------------------------
  // blobbifyIdempotentUnit
  // ---------------------------------------------------------------------

  /** The ranges blobbifyIdempotentUnit expects activation or deactivation
      to refuse: each overlaps [A, B) without being it. */
  function MisalignedProbes(range: KeyRange): seq<KeyRange> {
    var r := ActiveSubRange(range);
    var m := range.begin + SuffixAF;
    var m2 := range.begin + SuffixAG;
    [ range,
      KeyRange(range.begin, r.end), KeyRange(r.begin, range.end),
      KeyRange(range.begin, m), KeyRange(m, range.end),
      KeyRange(r.begin, m), KeyRange(m, r.end), KeyRange(m, m2) ]
  }

  /** Every probe of MisalignedProbes is non-empty, lies in the scenario
      range, overlaps [A, B) and differs from it. */
  lemma MisalignedProbesOverlap(range: KeyRange)
    requires IsUnitRange(range)
    ensures forall q :: q in MisalignedProbes(range) ==>
              && WellFormed(q) && Within(q, range)
              && Overlaps(q, ActiveSubRange(range)) && q != ActiveSubRange(range)
  {
    var ks := UnitKeys(range);
    var b, a, m, m2, bb, e := ks[0], ks[1], ks[2], ks[3], ks[4], ks[5];
    assert Less(b, a) && Less(b, m) && Less(b, bb) && Less(a, m) && Less(a, bb) && Less(a, e);
    assert Less(m, m2) && Less(m, bb) && Less(m, e) && Less(m2, bb) && Less(bb, e) && Less(b, e);
    LessAsymmetric(b, a);
    LessAsymmetric(bb, e);
    LessAsymmetric(a, m);
    LessAsymmetric(m, bb);
  }

  /** blobbifyIdempotentUnit against the reference service, up to the
      misaligned calls: deactivating the not yet registered [A, B)
      succeeds and changes nothing; activating it succeeds, and so does
      every repeat; checkRange accepts it; and listing the scenario range
      reports exactly [A, B). */
  lemma IdempotentScenario(s: set<KeyRange>, range: KeyRange)
    requires Partitioned(s) && IsUnitRange(range) && !Overlapped(s, range)
    ensures var r := ActiveSubRange(range);
            && WellFormed(r) && Within(r, range)
            && Unblobbify(s, r) == Reply(true, s)
            && Blobbify(s, r) == Reply(true, s + {r})
            && Blobbify(s + {r}, r) == Reply(true, s + {r})
            && CheckRangePasses(s + {r}, r, true)
            && (forall xs :: RangesReply(s + {r}, range, xs) ==> xs == [r])
  {
    var r := ActiveSubRange(range);
    UnitRangeInside(range);
    ClearInside(s, range, r);
    SingleRegistration(s, range, r, r);
    BlobbifyIdempotent(s, r);
    CheckRangeConverged(s + {r}, r, true);
    SingleRegistration(s, range, r, range);
    forall xs | RangesReply(s + {r}, range, xs)
      ensures xs == [r]
    {
      EnumeratesSingleton(xs, r);
    }
  }

  /** With [A, B) registered, a probe of MisalignedProbes is refused by
      activation and by deactivation, and nothing changes. */
  lemma MisalignedRefused(s: set<KeyRange>, range: KeyRange, q: KeyRange)
    requires Partitioned(s) && IsUnitRange(range) && !Overlapped(s, range)
    requires q in MisalignedProbes(range)
    ensures Partitioned(s + {ActiveSubRange(range)}) && WellFormed(q)
    ensures Blobbify(s + {ActiveSubRange(range)}, q) == Reply(false, s + {ActiveSubRange(range)})
    ensures Unblobbify(s + {ActiveSubRange(range)}, q) == Reply(false, s + {ActiveSubRange(range)})
  {
    var r := ActiveSubRange(range);
    var t := s + {r};
    UnitRangeInside(range);
    MisalignedProbesOverlap(range);
    ClearInside(s, range, r);
    ClearInside(s, range, q);
    assert Partitioned(t);
    BlobbifyMisaligned(t, r, q);
    if !Within(r, q) {
      UnblobbifyCutting(t, r, q);
    } else {
      // q strictly encloses r: the end where they differ is no registered
      // boundary, since a range of s ending there would overlap q
      if q.begin != r.begin {
        forall b | b in t
          ensures b.begin != q.begin
        {
          assert b in s && b.begin == q.begin ==> Overlaps(b, q);
        }
      } else {
        forall b | b in t
          ensures b.end != q.end
        {
          assert b in s && b.end == q.end ==> Overlaps(b, q);
        }
      }
      UnblobbifyUnaligned(t, r, q);
    }
  }

  /** The scenario range of a unit test holds at least one key, and so
      does [A, B), which lies inside it. */
  lemma UnitRangeInside(range: KeyRange)
    requires IsUnitRange(range)
    ensures WellFormed(range) && WellFormed(ActiveSubRange(range)) && Within(ActiveSubRange(range), range)
  {
    var ks := UnitKeys(range);
    assert Less(ks[0], ks[1]) && Less(ks[1], ks[4]) && Less(ks[4], ks[5]) && Less(ks[0], ks[5]);
  }

  // ---------------------------------------------------------------------
  // verifyRangeGapUnit
  // ---------------------------------------------------------------------

  /** Boundary i of the gap scenario: begin, then begin+"%04x"(i-1) for
      0 < i < rangeCount, then end. */
  function GapBoundary(range: KeyRange, rangeCount: nat, i: nat): Key
    requires 1 <= rangeCount <= Pow16(4) + 1 && i <= rangeCount
  {
    if i == 0 then range.begin
    else if i == rangeCount then range.end
    else range.begin + Hex(i - 1, 4)
  }

  /** The boundaries list the gap scenario builds: rangeCount + 1 keys,
      boundary i at position i, strictly increasing, so consecutive
      boundaries cut the scenario range into rangeCount non-empty,
      disjoint sub-ranges. */
  method GapBoundaries(range: KeyRange, rangeCount: nat) returns (boundaries: seq<Key>)
    requires IsUnitRange(range) && 1 <= rangeCount <= Pow16(4) + 1
    ensures |boundaries| == rangeCount + 1
    ensures forall i :: 0 <= i <= rangeCount ==> boundaries[i] == GapBoundary(range, rangeCount, i)
    ensures Increasing(boundaries)
  {
    boundaries := [range.begin];
    var i := 0;
    while i < rangeCount - 1
      invariant 0 <= i <= rangeCount - 1
      invariant |boundaries| == i + 1
      invariant forall j :: 0 <= j <= i ==> boundaries[j] == GapBoundary(range, rangeCount, j)
      invariant Increasing(boundaries)
    {
      var suffix := Hex(i, 4);
      GapBoundaryStep(range, rangeCount, i);
      IncreasingSnoc(boundaries, range.begin + suffix);
      boundaries := boundaries + [range.begin + suffix];
      i := i + 1;
    }
    GapBoundaryStep(range, rangeCount, i);
    IncreasingSnoc(boundaries, range.end);
    boundaries := boundaries + [range.end];
  }

  /** Consecutive boundaries are strictly increasing; the last one below
      the range end is "ffff" at most, which strinc of the begin exceeds. */
  lemma GapBoundaryStep(range: KeyRange, rangeCount: nat, i: nat)
    requires IsUnitRange(range) && 1 <= rangeCount <= Pow16(4) + 1 && i < rangeCount
    ensures Less(GapBoundary(range, rangeCount, i), GapBoundary(range, rangeCount, i + 1))
    ensures i + 1 < rangeCount ==> GapBoundary(range, rangeCount, i + 1) == range.begin + Hex(i, 4)
  {
    if i + 1 == rangeCount {
      if i == 0 {
        StrincAbove(range.begin, []);
        assert range.begin + [] == range.begin;
      } else {
        StrincAbove(range.begin, Hex(i - 1, 4));
      }
    } else if i == 0 {
      LessPrefix(range.begin, Hex(i, 4));
    } else {
      HexMonotone(i - 1, i, 4);
      LessCommonPrefix(range.begin, Hex(i - 1, 4), Hex(i, 4));
    }
  }

  lemma IncreasingSnoc(ks: seq<Key>, k: Key)
    requires Increasing(ks) && |ks| > 0 && Less(ks[|ks| - 1], k)
    ensures Increasing(ks + [k])
  {
    forall i | 0 <= i < |ks| - 1
      ensures Less(ks[i], k)
    {
      LessTransitive(ks[i], ks[|ks| - 1], k);
    }
  }

  /** The sub-range [bs[j], bs[j+1]). */
  function Piece(bs: seq<Key>, j: int): KeyRange
    requires 0 <= j < |bs| - 1
  {
    KeyRange(bs[j], bs[j + 1])
  }

  /** The sub-ranges lo <= j < hi other than the gap. */
  ghost function Pieces(bs: seq<Key>, gap: int, lo: int, hi: int): set<KeyRange>
    requires 0 <= lo && hi <= |bs| - 1
  {
    set j | lo <= j < hi && j != gap :: Piece(bs, j)
  }

  /** The situation of the gap scenario: s is the service state before it,
      nothing registered reaches into the scenario range, and the
      boundaries increase from its begin to its end. */
  ghost predicate GapSetting(s: set<KeyRange>, range: KeyRange, bs: seq<Key>, gap: int) {
    && Partitioned(s) && WellFormed(range) && !Overlapped(s, range)
    && |bs| >= 2 && Increasing(bs) && bs[0] == range.begin && bs[|bs| - 1] == range.end
    && 0 <= gap < |bs| - 1
  }

  /** The registered sub-ranges lie in the scenario range, apart from each
      other and from everything registered before. */
  lemma PiecesPartitioned(s: set<KeyRange>, range: KeyRange, bs: seq<Key>, gap: int, lo: int, hi: int)
    requires GapSetting(s, range, bs, gap) && 0 <= lo && hi <= |bs| - 1
    ensures Partitioned(s + Pieces(bs, gap, lo, hi))
    ensures forall p :: p in Pieces(bs, gap, lo, hi) ==> WellFormed(p) && Within(p, range) && p !in s
  {
    forall p | p in Pieces(bs, gap, lo, hi)
      ensures WellFormed(p) && Within(p, range) && p !in s
      ensures forall a :: a in s ==> !Overlaps(a, p)
    {
      var j :| lo <= j < hi && j != gap && p == Piece(bs, j);
      Partition(bs, j, j);
      ClearInside(s, range, p);
    }
    forall p, p' | p in Pieces(bs, gap, lo, hi) && p' in Pieces(bs, gap, lo, hi) && p != p'
      ensures !Overlaps(p, p')
    {
      var j :| lo <= j < hi && j != gap && p == Piece(bs, j);
      var k :| lo <= k < hi && k != gap && p' == Piece(bs, k);
      Partition(bs, j, k);
    }
  }

  /** Step i of the gap scenario's loop, with the sub-ranges before i
      registered: a sub-range other than the gap activates and checkRange
      accepts it as active; the gap's checkRange accepts it as inactive. */
  lemma GapStep(s: set<KeyRange>, range: KeyRange, bs: seq<Key>, gap: int, i: int)
    requires GapSetting(s, range, bs, gap) && 0 <= i < |bs| - 1
    ensures Partitioned(s + Pieces(bs, gap, 0, i)) && WellFormed(Piece(bs, i))
    ensures i != gap ==>
              && Blobbify(s + Pieces(bs, gap, 0, i), Piece(bs, i)) == Reply(true, s + Pieces(bs, gap, 0, i + 1))
              && CheckRangePasses(s + Pieces(bs, gap, 0, i + 1), Piece(bs, i), true)
    ensures i == gap ==>
              && Pieces(bs, gap, 0, i + 1) == Pieces(bs, gap, 0, i)
              && CheckRangePasses(s + Pieces(bs, gap, 0, i), Piece(bs, i), false)
  {
    var t := s + Pieces(bs, gap, 0, i);
    var p := Piece(bs, i);
    PiecesPartitioned(s, range, bs, gap, 0, i);
    PiecesPartitioned(s, range, bs, gap, 0, i + 1);
    Partition(bs, i, i);
    ClearInside(s, range, p);
    forall a | a in t
      ensures !Overlaps(a, p)
    {
      if a !in s {
        var j :| 0 <= j < i && j != gap && a == Piece(bs, j);
        Partition(bs, j, i);
      }
    }
    if i != gap {
      assert Pieces(bs, gap, 0, i + 1) == Pieces(bs, gap, 0, i) + {p};
      assert t + {p} == s + Pieces(bs, gap, 0, i + 1);
      CheckRangeConverged(s + Pieces(bs, gap, 0, i + 1), p, true);
    } else {
      CheckRangeConverged(t, p, false);
    }
  }

  /** With every sub-range but the gap registered, the whole scenario
      range is not active. */
  lemma GapWholeInactive(s: set<KeyRange>, range: KeyRange, bs: seq<Key>, gap: int)
    requires GapSetting(s, range, bs, gap)
    ensures !Verify(s + Pieces(bs, gap, 0, |bs| - 1), range)
  {
    var n := |bs| - 1;
    if Verify(s + Pieces(bs, gap, 0, n), range) {
      var a :| a in s + Pieces(bs, gap, 0, n) && Within(range, a);
      Partition(bs, gap, gap);
      if a in s {
        WithinOverlaps(range, a);
      } else {
        var j :| 0 <= j < n && j != gap && a == Piece(bs, j);
        // the gap lies in the range, hence in piece j
        WithinTransitive(Piece(bs, gap), range, a);
        WithinOverlaps(Piece(bs, gap), a);
        Partition(bs, gap, j);
      }
    }
  }

  /** Against the teardown range [bs[lo], bs[hi]), sub-ranges before hi
      lie inside it and the others neither lie in it nor meet it. */
  lemma PieceAgainstTeardown(bs: seq<Key>, lo: int, hi: int, j: int)
    requires Increasing(bs) && 0 <= lo < hi <= |bs| - 1 && lo <= j < |bs| - 1
    ensures j < hi ==> Within(Piece(bs, j), KeyRange(bs[lo], bs[hi]))
    ensures j >= hi ==> !Overlaps(Piece(bs, j), KeyRange(bs[lo], bs[hi]))
                        && !Within(Piece(bs, j), KeyRange(bs[lo], bs[hi]))
  {
    if j >= hi {
      LessAsymmetric(bs[hi], bs[j + 1]);
      LessIrreflexive(bs[hi]);
      if j > hi {
        LessAsymmetric(bs[hi], bs[j]);
      }
    }
  }

  /** A teardown range [bs[lo], bs[hi]) that does not contain the gap, with
      every sub-range from lo on registered: deactivating it succeeds and
      unregisters exactly the sub-ranges before hi. */
  lemma GapTeardown(s: set<KeyRange>, range: KeyRange, bs: seq<Key>, gap: int, lo: int, hi: int)
    requires GapSetting(s, range, bs, gap)
    requires 0 <= lo < hi <= |bs| - 1 && !(lo <= gap < hi)
    ensures Partitioned(s + Pieces(bs, gap, lo, |bs| - 1)) && WellFormed(KeyRange(bs[lo], bs[hi]))
    ensures Unblobbify(s + Pieces(bs, gap, lo, |bs| - 1), KeyRange(bs[lo], bs[hi]))
            == Reply(true, s + Pieces(bs, gap, hi, |bs| - 1))
  {
    var n := |bs| - 1;
    var t := s + Pieces(bs, gap, lo, n);
    var q := KeyRange(bs[lo], bs[hi]);
    PiecesPartitioned(s, range, bs, gap, lo, n);
    assert LessEq(bs[0], bs[lo]) && LessEq(bs[hi], bs[n]);
    ClearInside(s, range, q);
    // the registered ranges inside q are exactly the pieces before hi
    forall a | a in t
      ensures Overlaps(a, q) ==> Within(a, q)
      ensures Within(a, q) <==> a !in s + Pieces(bs, gap, hi, n)
    {
      if a in s {
      } else {
        var j :| lo <= j < n && j != gap && a == Piece(bs, j);
        PieceAgainstTeardown(bs, lo, hi, j);
        if j < hi && a in Pieces(bs, gap, hi, n) {
          var k :| hi <= k < n && k != gap && a == Piece(bs, k);
          PieceAgainstTeardown(bs, lo, hi, k);
        }
      }
    }
    assert Piece(bs, lo) in t && Piece(bs, hi - 1) in t;
    assert Aligned(t, q);
    assert Pieces(bs, gap, hi, n) <= Pieces(bs, gap, lo, n);
    assert (set a | a in t && !Within(a, q)) == s + Pieces(bs, gap, hi, n);
  }

  /** The empty ends of the teardown: with the gap first, the left
      teardown is skipped and nothing is lost; with the gap last, nothing
      is left after the right teardown. */
  lemma GapTeardownEnds(bs: seq<Key>, gap: int)
    requires 0 <= gap < |bs| - 1
    ensures gap == 0 ==> Pieces(bs, gap, 0, |bs| - 1) == Pieces(bs, gap, gap + 1, |bs| - 1)
    ensures Pieces(bs, gap, |bs| - 1, |bs| - 1) == {}
    ensures gap == |bs| - 2 ==> Pieces(bs, gap, gap + 1, |bs| - 1) == {}
  {
  }
}

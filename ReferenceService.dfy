/** A reference model of the blob-range registration service the workload
    drives (blobbifyRange, unblobbifyRange, verifyBlobRange,
    listBlobbifiedRanges, getBlobGranuleRanges). The service is external to
    the workload; its state is a ghost set of registered ranges that stay
    pairwise disjoint, and each call is a ghost function of that state.
    The rules are the ones the enabled test scenarios assert. */
module ReferenceService {
  import opened Keys
  import opened Ranges

  /** The service's registered ranges are non-empty and pairwise disjoint. */
  ghost predicate Partitioned(s: set<KeyRange>) {
    && (forall a :: a in s ==> WellFormed(a))
    && (forall a, b :: a in s && b in s && a != b ==> !Overlaps(a, b))
  }

  ghost predicate Overlapped(s: set<KeyRange>, q: KeyRange) {
    exists a :: a in s && Overlaps(a, q)
  }

  /** q cuts no registered range, and its two ends are the begin and the end
      of registered ranges: q is one registered range or a union of them. */
  ghost predicate Aligned(s: set<KeyRange>, q: KeyRange) {
    && (forall a :: a in s && Overlaps(a, q) ==> Within(a, q))
    && (exists a :: a in s && a.begin == q.begin)
    && (exists a :: a in s && a.end == q.end)
  }

  /** The boolean a call returns and the registration state after it. */
  datatype Reply = Reply(ok: bool, after: set<KeyRange>)

  /** blobbifyRange: succeeds on a range that is already registered with
      exactly these bounds (no change) or that overlaps nothing (registered);
      fails, changing nothing, on any other overlap. */
  ghost function Blobbify(s: set<KeyRange>, r: KeyRange): (rep: Reply)
    requires Partitioned(s) && WellFormed(r)
    ensures Partitioned(rep.after)
    ensures rep.ok <==> r in s || !Overlapped(s, r)
    ensures rep.after == if rep.ok then s + {r} else s
  {
    if r in s then Reply(true, s)
    else if !Overlapped(s, r) then Reply(true, s + {r})
    else Reply(false, s)
  }

  /** unblobbifyRange: succeeds on a range that overlaps nothing (no change)
      or that is aligned with registered ranges (those inside it are
      unregistered); fails, changing nothing, when it cuts a registered
      range or its ends are not registered boundaries. */
  ghost function Unblobbify(s: set<KeyRange>, r: KeyRange): (rep: Reply)
    requires Partitioned(s) && WellFormed(r)
    ensures Partitioned(rep.after) && rep.after <= s
    ensures rep.ok <==> !Overlapped(s, r) || Aligned(s, r)
    ensures rep.ok ==> !Overlapped(rep.after, r)
    ensures !rep.ok ==> rep.after == s
    ensures forall a :: a in s && !Overlaps(a, r) ==> a in rep.after
  {
    if !Overlapped(s, r) || Aligned(s, r) then
      InsideOverlaps(s, r);
      Reply(true, set a | a in s && !Within(a, r))
    else Reply(false, s)
  }

  lemma InsideOverlaps(s: set<KeyRange>, r: KeyRange)
    requires Partitioned(s)
    ensures forall a :: a in s && Within(a, r) ==> Overlaps(a, r)
  {
    forall a | a in s && Within(a, r) {
      WithinOverlaps(a, r);
    }
  }

  /** verifyBlobRange returns a version (not invalidVersion): the whole
      query lies inside one registered range. */
  ghost predicate Verify(s: set<KeyRange>, q: KeyRange) {
    exists a :: a in s && Within(q, a)
  }

  /** The registered ranges that share a key with the query, each reported
      with its full registered bounds, never clipped to the query. */
  ghost function Listed(s: set<KeyRange>, q: KeyRange): set<KeyRange> {
    set a | a in s && Overlaps(a, q)
  }

  /** A reply of listBlobbifiedRanges or getBlobGranuleRanges: every listed
      range exactly once, in increasing order of begin. */
  ghost predicate Enumerates(xs: seq<KeyRange>, s: set<KeyRange>) {
    && multiset(xs) == multiset(s)
    && (forall i, j :: 0 <= i < j < |xs| ==> Less(xs[i].begin, xs[j].begin))
  }

  ghost predicate RangesReply(s: set<KeyRange>, q: KeyRange, xs: seq<KeyRange>) {
    Enumerates(xs, Listed(s, q))
  }

  // ---------------------------------------------------------------------
  // The alignment contract
  // ---------------------------------------------------------------------

  /** Re-activating an activated range succeeds and changes nothing. */
  lemma BlobbifyIdempotent(s: set<KeyRange>, r: KeyRange)
    requires Partitioned(s) && WellFormed(r) && Blobbify(s, r).ok
    ensures Blobbify(Blobbify(s, r).after, r) == Reply(true, Blobbify(s, r).after)
  {
  }

  /** Activating a range that overlaps a registered range without matching
      its bounds fails and changes nothing. */
  lemma BlobbifyMisaligned(s: set<KeyRange>, a: KeyRange, r: KeyRange)
    requires Partitioned(s) && WellFormed(r)
    requires a in s && Overlaps(a, r) && a != r
    ensures Blobbify(s, r) == Reply(false, s)
  {
  }

  /** Deactivating exactly a registered range succeeds and removes it alone. */
  lemma UnblobbifyExact(s: set<KeyRange>, r: KeyRange)
    requires Partitioned(s) && r in s
    ensures Unblobbify(s, r) == Reply(true, s - {r})
  {
    forall a | a in s && Overlaps(a, r)
      ensures a == r
    {
    }
    forall a | a in s && a != r
      ensures !Within(a, r)
    {
      if Within(a, r) {
        WithinOverlaps(a, r);
      }
    }
    LessEqTransitive(r.begin, r.begin, r.begin);
    assert Aligned(s, r);
    assert (set a | a in s && !Within(a, r)) == s - {r};
  }

  /** Deactivating a range whose begin is no registered begin fails as soon
      as anything registered overlaps it (likewise for the end). */
  lemma UnblobbifyUnaligned(s: set<KeyRange>, a: KeyRange, r: KeyRange)
    requires Partitioned(s) && WellFormed(r) && a in s && Overlaps(a, r)
    requires (forall b :: b in s ==> b.begin != r.begin) || (forall b :: b in s ==> b.end != r.end)
    ensures Unblobbify(s, r) == Reply(false, s)
  {
  }

  /** Deactivating a range that cuts a registered range fails. */
  lemma UnblobbifyCutting(s: set<KeyRange>, a: KeyRange, r: KeyRange)
    requires Partitioned(s) && WellFormed(r) && a in s && Overlaps(a, r) && !Within(a, r)
    ensures Unblobbify(s, r) == Reply(false, s)
  {
  }

  /** A registered range is listed by itself: queries inside one registered
      range list exactly that range. */
  lemma ListedWithin(s: set<KeyRange>, q: KeyRange, a: KeyRange)
    requires Partitioned(s) && WellFormed(q) && a in s && Within(q, a)
    ensures Listed(s, q) == {a}
  {
    WithinOverlaps(q, a);
    forall b | b in s && Overlaps(b, q)
      ensures b == a
    {
      if b != a {
        assert !Overlaps(a, b);
        DisjointInside(q, a, b, b);
      }
    }
  }
}

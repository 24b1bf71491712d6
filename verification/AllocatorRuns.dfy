// Whole runs of the page allocator: what the lists are, and that outstanding reservations never overlap.
module AllocatorRuns {
  import opened FreeRuns
  import opened SpaceMap
  import opened SegmentSpace
  import opened PageAllocator

  /** Run i of an agreeing list is a maximal run of free pages of its segment. */
  lemma ListedRunIsMaximal(l: seq<Run>, start: nat, size: nat, free: seq<bool>, i: nat)
    requires Coalesced(l, 0, size) && Matches(l, start, size, free) && i < |l|
    ensures 0 <= l[i].start && l[i].size >= 1 && l[i].End() <= size
    ensures forall q :: start + l[i].start <= q < start + l[i].End() ==> free[q]
    ensures l[i].start > 0 ==> !free[start + l[i].start - 1]
    ensures l[i].End() < size ==> !free[start + l[i].End()]
  {
    hide Covers, Coalesced;
    TakeKeeps(l, 0, size, i, 0);
    RunsAreMaximal(l, 0, size, i, l[i].start - 1);
    RunsAreMaximal(l, 0, size, i, l[i].End());
    assert l[i].start > 0 ==> !free[start + (l[i].start - 1)];
    forall q | start + l[i].start <= q < start + l[i].End() ensures free[q] {
      RunsAreMaximal(l, 0, size, i, q - start);
      assert free[start + (q - start)];
    }
  }

  /** The page map determines the list: there is one merged list for each map. */
  lemma MapDeterminesList(a: seq<Run>, b: seq<Run>, start: nat, size: nat, free: seq<bool>)
    requires Coalesced(a, 0, size) && Matches(a, start, size, free)
    requires Coalesced(b, 0, size) && Matches(b, start, size, free)
    ensures a == b
  {
    hide Covers, Coalesced;
    forall p ensures Covers(a, p) <==> Covers(b, p) {
      if Covers(a, p) {
        CoversBound(a, 0, size, p);
        assert free[start + p];
      }
      if Covers(b, p) {
        CoversBound(b, 0, size, p);
        assert free[start + p];
      }
    }
    CoalescedUnique(a, b, 0, size);
  }

  lemma {:induction false} CountShifted(free: seq<bool>, start: nat, size: nat, lo: nat)
    requires start + size <= |free| && lo <= size
    ensures CountFree(free[start..start + size], lo, size) == CountFree(free, start + lo, start + size)
    decreases size - lo
  {
    if lo < size {
      CountShifted(free, start, size, lo + 1);
    }
  }

  /** A segment's total is the number of its free bits. */
  lemma SegmentTotal(s: Segment, free: seq<bool>)
    requires s.Valid() && s.Agrees(free)
    ensures s.totalFree == CountFree(free, s.startExtent, s.startExtent + s.totalSize)
  {
    hide Coalesced, CountFree, Covers, MaxSize, TotalSize;
    var part := free[s.startExtent..s.startExtent + s.totalSize];
    forall p | 0 <= p < s.totalSize ensures part[p] <==> Covers(s.freeSpaceList, p) {
      assert part[p] == free[s.startExtent + p];
    }
    TotalIsCount(s.freeSpaceList, part, 0, s.totalSize);
    CountShifted(free, s.startExtent, s.totalSize, 0);
  }

  /** An allocator and the reservations handed out and not yet given back. */
  datatype State = State(free: seq<bool>, count: nat, held: set<Run>)

  datatype Event = Reserve(n: nat, found: int) | Release(run: Run) | Deposit

  /** One call, as the contracts of the manager describe it; clients give back what they hold. */
  ghost predicate Step(pages: nat, s: State, e: Event, t: State) {
    match e
    case Reserve(n, found) =>
      && n >= 1 && t.count == s.count && Reserves(s.free, t.free, pages, s.count, n, found)
      && t.held == if found == -1 then s.held else s.held + {Run(found, n)}
    case Release(r) =>
      && r in s.held && t == State(Marked(s.free, r.start, r.size, true), s.count, s.held - {r})
    case Deposit =>
      t == s.(count := s.count + 1)
  }

  ghost predicate IsRun(pages: nat, states: seq<State>, events: seq<Event>) {
    && |states| == |events| + 1 && states[0].held == {}
    && forall i :: 0 <= i < |events| ==> Step(pages, states[i], events[i], states[i + 1])
  }

  /** Held runs are disjoint, allocated in the map, and inside one segment each. */
  ghost predicate Separate(pages: nat, s: State) {
    && (forall a, b :: a in s.held && b in s.held && a != b ==> a.End() <= b.start || b.End() <= a.start)
    && (forall a :: a in s.held ==> a.size >= 1 && InOneSegment(pages, s, a) && Taken(s.free, a))
  }

  ghost predicate Taken(free: seq<bool>, r: Run) {
    0 <= r.start && r.End() <= |free| && forall p :: r.start <= p < r.End() ==> !free[p]
  }

  ghost predicate InOneSegment(pages: nat, s: State, r: Run) {
    exists j :: 0 <= j < s.count && StartOf(j, pages) <= r.start && r.End() <= StartOf(j, pages) + pages
  }

  lemma StepKeepsSeparate(pages: nat, s: State, e: Event, t: State)
    requires Separate(pages, s) && Step(pages, s, e, t)
    ensures Separate(pages, t)
  {
    match e
    case Reserve(n, found) =>
      if found != -1 {
        ReserveKeepsSeparate(pages, s, n, found, t);
      }
    case Release(r) =>
      forall a | a in t.held ensures InOneSegment(pages, t, a) && Taken(t.free, a) {
        assert a.End() <= r.start || r.End() <= a.start;
        assert InOneSegment(pages, s, a);
      }
    case Deposit =>
      forall a | a in t.held ensures InOneSegment(pages, t, a) && Taken(t.free, a) {
        assert InOneSegment(pages, s, a);
      }
  }

  lemma ReserveKeepsSeparate(pages: nat, s: State, n: nat, found: int, t: State)
    requires Separate(pages, s) && Step(pages, s, Reserve(n, found), t) && found != -1
    ensures Separate(pages, t)
  {
    hide StartOf;
    var j :| 0 <= j < s.count && RunIn(s.free, pages, j, found, n);
    var r := Run(found, n);
    assert InOneSegment(pages, t, r) && Taken(t.free, r);
    forall a | a in s.held ensures a.End() <= r.start || r.End() <= a.start {
      NoSharedPage(s.free, a, r);
    }
    forall a | a in s.held ensures InOneSegment(pages, t, a) && Taken(t.free, a) {
      assert InOneSegment(pages, s, a);
    }
  }

  /** Allocated pages and free pages lie apart. */
  lemma NoSharedPage(free: seq<bool>, a: Run, r: Run)
    requires Taken(free, a) && a.size >= 1 && r.size >= 1 && r.End() <= |free| && 0 <= r.start &&
               forall p :: r.start <= p < r.End() ==> free[p]
    ensures a.End() <= r.start || r.End() <= a.start
  {
    var p := if a.start < r.start then r.start else a.start;
    if p < |free| {
      var b := free[p];
    }
  }

  /** In every state of every run, outstanding reservations are pairwise disjoint. */
  lemma {:induction false} ReservationsNeverOverlap(pages: nat, states: seq<State>, events: seq<Event>, i: nat)
    requires IsRun(pages, states, events) && i < |states|
    ensures Separate(pages, states[i])
  {
    if i > 0 {
      ReservationsNeverOverlap(pages, states, events, i - 1);
      StepKeepsSeparate(pages, states[i - 1], events[i - 1], states[i]);
    }
  }

  /** The manager accepts every release of an outstanding reservation. */
  lemma HeldIsReleasable(pages: nat, s: State, r: Run)
    requires Separate(pages, s) && r in s.held && pages >= 1
    ensures Releasable(s.free, pages, s.count, r.start, r.size)
  {
    hide StartOf;
    var j :| 0 <= j < s.count && StartOf(j, pages) <= r.start && r.End() <= StartOf(j, pages) + pages;
    SegmentOf(r.start, j, pages);
  }

  /** A page of segment j: the segment number and the place in it, by division. */
  lemma SegmentOf(p: nat, j: nat, pages: nat)
    requires pages >= 1 && StartOf(j, pages) <= p < StartOf(j, pages) + pages
    ensures p / pages == j && p % pages == p - StartOf(j, pages)
  {
    var q := p / pages;
    assert p == StartOf(q, pages) + p % pages;
    if q < j { StartsOrdered(q, j, pages); }
    if j < q { StartsOrdered(j, q, pages); }
  }
}

// The page allocator of a storage file: a vector of segments over one page map, with a shared first-free hint.
module PageAllocator {
  import opened FreeRuns
  import opened SpaceMap
  import opened SegmentSpace

  function StartOf(j: int, pages: int): int {
    j * pages
  }

  /** Page i is the first of a segment. */
  predicate Aligned(i: nat, pages: nat)
    requires pages >= 1
  {
    i % pages == 0
  }

  lemma StartsOrdered(i: int, j: int, pages: int)
    requires pages >= 1
    ensures i < j ==> StartOf(i, pages) + pages <= StartOf(j, pages)
    ensures StartOf(i + 1, pages) == StartOf(i, pages) + pages
    ensures i >= 0 ==> StartOf(i, pages) >= 0
  {
    hide StartOf;
    NextStart(i, pages);
    if i < j {
      LaterStart(i, j, pages);
    }
  }

  lemma NextStart(i: int, pages: int)
    requires pages >= 1
    ensures StartOf(i + 1, pages) == StartOf(i, pages) + pages && (i >= 0 ==> StartOf(i, pages) >= 0)
  {
  }

  lemma {:induction false} LaterStart(i: int, j: int, pages: int)
    requires pages >= 1 && i < j
    ensures StartOf(i, pages) + pages <= StartOf(j, pages)
    decreases j - i
  {
    hide StartOf;
    NextStart(i, pages);
    NextStart(j - 1, pages);
    if i + 1 < j {
      LaterStart(i, j - 1, pages);
    }
  }

  /** Pages [p, p + n) are free and lie inside segment j. */
  ghost predicate RunIn(free: seq<bool>, pages: nat, j: int, p: int, n: nat) {
    && 0 <= StartOf(j, pages) <= p && p + n <= StartOf(j, pages) + pages
    && StartOf(j, pages) + pages <= |free|
    && forall q :: p <= q < p + n ==> free[q]
  }

  lemma RunIsFree(free: seq<bool>, pages: nat, j: int, p: int, n: nat)
    requires RunIn(free, pages, j, p, n)
    ensures 0 <= StartOf(j, pages) <= p && p + n <= StartOf(j, pages) + pages <= |free|
    ensures forall q :: p <= q < p + n ==> free[q]
  {
  }

  /** Reserving n >= 1 pages out of count segments: found is the lowest place, or -1 when there is none. */
  ghost predicate Reserves(free: seq<bool>, free': seq<bool>, pages: nat, count: nat, n: nat, found: int) {
    if found == -1 then
      free' == free && forall j, p :: 0 <= j < count ==> !RunIn(free, pages, j, p, n)
    else
      && (exists j :: 0 <= j < count && RunIn(free, pages, j, found, n))
      && (forall j, p :: 0 <= j < count && RunIn(free, pages, j, p, n) ==> found <= p)
      && free' == Marked(free, found, n, false)
  }

  /** A list that agrees with the map offers n pages at p exactly when the map does. */
  lemma FitsIsRun(l: seq<Run>, free: seq<bool>, pages: nat, j: int, p: int, n: nat)
    requires n >= 1 && StartOf(j, pages) >= 0 && Coalesced(l, 0, pages) && Matches(l, StartOf(j, pages), pages, free)
    ensures Fits(l, p, n) <==> RunIn(free, pages, j, StartOf(j, pages) + p, n)
  {
    hide Coalesced, Covers, StartOf;
    var start := StartOf(j, pages);
    if Fits(l, p, n) {
      CoversBound(l, 0, pages, p);
      CoversBound(l, 0, pages, p + n - 1);
      forall q | start + p <= q < start + p + n ensures free[q] {
        assert Covers(l, q - start);
        assert free[start + (q - start)];
      }
    }
    if RunIn(free, pages, j, start + p, n) {
      forall q | p <= q < p + n ensures Covers(l, q) {
        assert free[start + q];
      }
    }
  }

  /** Pages [start, start + n) lie in one of the first count segments, none of them free. */
  ghost predicate Releasable(free: seq<bool>, pages: nat, count: nat, start: int, n: nat)
    requires pages >= 1
  {
    && start >= 0 && start / pages < count && start % pages + n <= pages
    && forall p :: start <= p < start + n && p < |free| ==> !free[p]
  }

  /** In an agreeing list, a range overlaps a run exactly when one of its pages is free. */
  lemma OverlapsIsFree(l: seq<Run>, free: seq<bool>, pages: nat, id: nat, start: nat, n: nat)
    requires pages >= 1 && id == start / pages && StartOf(id, pages) >= 0
    requires Matches(l, StartOf(id, pages), pages, free)
    ensures StartOf(id, pages) <= start
    ensures start + n <= StartOf(id, pages) + pages <==> start % pages + n <= pages
    ensures start + n <= StartOf(id, pages) + pages ==>
              (Overlaps(l, start - StartOf(id, pages), n) <==> exists p :: start <= p < start + n && free[p])
  {
    hide Covers;
    var base := StartOf(id, pages);
    assert start == base + start % pages;
    if start + n <= base + pages {
      if Overlaps(l, start - base, n) {
        var p :| start - base <= p < start - base + n && Covers(l, p);
        assert free[base + p];
      }
      if p :| start <= p < start + n && free[p] {
        assert free[base + (p - base)];
        assert Covers(l, p - base);
      }
    }
  }

  ghost predicate AllFree(free: seq<bool>, lo: int, n: nat) {
    0 <= lo && lo + n <= |free| && forall p :: lo <= p < lo + n ==> free[p]
  }

  lemma NothingListed(start: nat, pages: nat, k: nat)
    requires pages >= 1 && start / pages == k
    ensures start % pages == 0 ==> start == StartOf(k, pages)
    ensures StartOf(k + 1, pages) == StartOf(k, pages) + pages
    ensures !Overlaps([], 0, pages) && !Covers([], 0) && forall p :: !Covers([], p)
  {
    StartsOrdered(k, k, pages);
  }

  lemma CountGrows(free: seq<bool>, k: nat, pages: nat)
    requires pages >= 1 && AllFree(free, StartOf(k, pages), pages)
    ensures StartOf(k + 1, pages) == StartOf(k, pages) + pages
    ensures CountFree(free, 0, StartOf(k + 1, pages)) == CountFree(free, 0, StartOf(k, pages)) + pages
  {
    hide CountFree;
    StartsOrdered(k, k, pages);
    CountSplit(free, 0, StartOf(k, pages), StartOf(k, pages) + pages);
    CountConstant(free, StartOf(k, pages), StartOf(k, pages) + pages, true);
  }

  lemma FullSegment(l: seq<Run>, start: nat, pages: nat, free: seq<bool>)
    requires AllFree(free, start, pages) && forall p :: Covers(l, p) <==> start <= start + p < start + pages
    ensures Matches(l, start, pages, free)
  {
  }

  /** Changing pages outside a segment leaves its list in agreement. */
  lemma MatchesElsewhere(l: seq<Run>, start: nat, size: nat, free: seq<bool>, lo: nat, n: nat, b: bool)
    requires Matches(l, start, size, free) && lo + n <= |free| && (lo + n <= start || start + size <= lo)
    ensures Matches(l, start, size, Marked(free, lo, n, b))
  {
  }

  lemma {:induction false} CountSame(f: seq<bool>, g: seq<bool>, lo: nat, hi: nat)
    requires lo <= hi <= |f| && hi <= |g| && forall p :: lo <= p < hi ==> f[p] == g[p]
    ensures CountFree(f, lo, hi) == CountFree(g, lo, hi)
    decreases hi - lo
  {
    if lo < hi {
      CountSame(f, g, lo + 1, hi);
    }
  }

  /** Marking n pages that all were the other way moves the free count by n. */
  lemma CountMarked(free: seq<bool>, hi: nat, lo: nat, n: nat, b: bool)
    requires lo + n <= hi <= |free| && forall p :: lo <= p < lo + n ==> free[p] == !b
    ensures CountFree(Marked(free, lo, n, b), 0, hi) == CountFree(free, 0, hi) + if b then n else 0 - n
  {
    hide CountFree;
    var g := Marked(free, lo, n, b);
    CountSplit(free, 0, lo, hi);
    CountSplit(g, 0, lo, hi);
    CountSplit(free, lo, lo + n, hi);
    CountSplit(g, lo, lo + n, hi);
    CountSame(free, g, 0, lo);
    CountSame(free, g, lo + n, hi);
    CountConstant(free, lo, lo + n, !b);
    CountConstant(g, lo, lo + n, b);
  }

  class Manager {
    const sme: PageMap
    const pages: nat
    const totalFree: Atomic
    const freePos: Atomic
    var segments: seq<Segment>

    /** Segment j manages the pages [j * pages, (j + 1) * pages). */
    ghost predicate Shape()
      reads this
    {
      && totalFree != freePos && pages >= 1
      && 0 <= StartOf(|segments|, pages) <= 8 * sme.mask.Length
      && forall j :: 0 <= j < |segments| ==>
           segments[j].startExtent == StartOf(j, pages) && segments[j].totalSize == pages
    }

    /** Every list agrees with the map, the total counts its free bits, and the hint skips only full segments. */
    ghost predicate Valid()
      reads this, segments, totalFree, freePos, sme.mask
    {
      && Shape()
      && (forall j :: 0 <= j < |segments| ==> segments[j].Valid() && segments[j].Agrees(sme.Free()))
      && totalFree.value == CountFree(sme.Free(), 0, StartOf(|segments|, pages))
      && 0 <= freePos.value <= |segments|
      && forall j :: 0 <= j < freePos.value ==> segments[j].totalFree == 0
    }

    lemma Distinct(i: nat, j: nat)
      requires Shape() && i < |segments| && j < |segments|
      ensures i != j ==> segments[i] != segments[j]
      ensures i < j ==> StartOf(i, pages) + pages <= StartOf(j, pages)
      ensures j < i ==> StartOf(j, pages) + pages <= StartOf(i, pages)
      ensures 0 <= StartOf(j, pages) && StartOf(j, pages) + pages <= StartOf(|segments|, pages)
    {
      StartsOrdered(i, j, pages);
      StartsOrdered(j, i, pages);
      StartsOrdered(j, |segments|, pages);
    }

    constructor (sme: PageMap, pages: nat)
      requires pages >= 1
      ensures Valid() && segments == [] && this.sme == sme && this.pages == pages
      ensures fresh(totalFree) && fresh(freePos)
    {
      this.sme, this.pages, segments := sme, pages, [];
      totalFree := new Atomic(0);
      freePos := new Atomic(0);
      new;
      assert StartOf(0, pages) == 0;
    }

    /** Asks segment pos for n pages. */
    method ReserveIn(pos: nat, n: nat) returns (rc: Rc, found: int)
      requires Valid() && pos < |segments|
      modifies segments[pos], freePos, totalFree, sme.mask
      ensures Valid()
      ensures rc == Sys <==> n == 0 && old(segments[pos].freeSpaceList) == []
      ensures n == 0 && rc != Sys ==>
                rc == Ok && found == StartOf(pos, pages) + old(segments[pos].freeSpaceList)[0].start
      ensures n >= 1 && rc == NoSpace ==> forall p :: !RunIn(old(sme.Free()), pages, pos, p, n)
      ensures n >= 1 && rc == Ok ==>
                && RunIn(old(sme.Free()), pages, pos, found, n)
                && (forall p :: RunIn(old(sme.Free()), pages, pos, p, n) ==> found <= p)
                && segments[pos].totalFree == old(segments[pos].totalFree) - n
                && sme.Free() == Marked(old(sme.Free()), found, n, false)
      ensures n == 0 || rc != Ok ==>
                sme.Free() == old(sme.Free()) && segments[pos].totalFree == old(segments[pos].totalFree)
      ensures freePos.value ==
                old(if segments[pos].totalFree == 0 && freePos.value == pos then pos + 1 else freePos.value)
    {
      hide StartOf, Fits, CountFree, RunIn, MaxSize, TotalSize, Covers, Coalesced;
      ghost var l, free := segments[pos].freeSpaceList, sme.Free();
      StartsOrdered(pos, |segments|, pages);
      rc, found := segments[pos].ReservePages(n, pos, freePos, sme, totalFree);
      if n >= 1 {
        ghost var start := StartOf(pos, pages);
        forall p ensures Fits(l, p - start, n) <==> RunIn(free, pages, pos, p, n) {
          FitsIsRun(l, free, pages, pos, p - start, n);
        }
      }
      forall j | 0 <= j < |segments| && j != pos ensures segments[j].Valid() && segments[j].Agrees(sme.Free()) {
        Distinct(pos, j);
        if n >= 1 && rc == Ok {
          MatchesElsewhere(segments[j].freeSpaceList, StartOf(j, pages), pages, free, found, n, false);
        }
      }
      if n >= 1 && rc == Ok {
        RunIsFree(free, pages, pos, found, n);
        CountMarked(free, StartOf(|segments|, pages), found, n, false);
      }
    }

    /** No free page hides below the hint. */
    lemma HintHidesNothing(j: nat, p: int, n: nat)
      requires Valid() && j < freePos.value && n >= 1
      ensures !RunIn(sme.Free(), pages, j, p, n)
    {
      StartsOrdered(j, j, pages);
      FitsIsRun(segments[j].freeSpaceList, sme.Free(), pages, j, p - StartOf(j, pages), n);
      assert segments[j].freeSpaceList == [] && !Covers([], p - StartOf(j, pages));
    }

    /** A place in a lower segment is lower. */
    lemma LowerSegment(free: seq<bool>, i: nat, p: int, j: nat, q: int, n: nat)
      requires Shape() && i < j < |segments| && n >= 1 && RunIn(free, pages, i, p, n) && RunIn(free, pages, j, q, n)
      ensures p <= q
    {
      StartsOrdered(i, j, pages);
    }

    /** Whether a reservation of no pages at all meets a segment without free pages. */
    ghost predicate FirstAskedIsFull()
      reads this, segments, freePos
    {
      0 <= freePos.value < |segments| && segments[freePos.value].freeSpaceList == []
    }

    /** Answers -1 exactly when no segment has n free pages in a row; otherwise the lowest such place.
        Asking for no pages is an internal error exactly when the first segment asked has none. */
    method ReservePages(n: nat) returns (rc: Rc, found: int)
      requires Valid()
      modifies segments, freePos, totalFree, sme.mask
      ensures Valid()
      ensures n >= 1 ==> rc == Ok && Reserves(old(sme.Free()), sme.Free(), pages, |segments|, n, found)
      ensures n == 0 ==> sme.Free() == old(sme.Free())
      ensures rc == (if n == 0 && old(FirstAskedIsFull()) then Sys else Ok)
      ensures n == 0 && rc == Ok ==>
                found == (if old(freePos.value) < |segments| then
                            StartOf(old(freePos.value), pages) + old(segments[freePos.value].freeSpaceList)[0].start
                          else -1)
      ensures old(freePos.value) <= freePos.value && forall j :: old(freePos.value) <= j < freePos.value ==>
                old(segments[j].totalFree) == 0
      ensures n >= 1 ==> forall j :: 0 <= j < |segments| && j == freePos.value ==> old(segments[j].totalFree) > 0
    {
      hide StartOf, CountFree, RunIn, Segment.Valid, Segment.Agrees;
      found := -1;
      var pos := freePos.value;
      forall j, p | n >= 1 && 0 <= j < pos ensures !RunIn(sme.Free(), pages, j, p, n) {
        HintHidesNothing(j, p, n);
      }
      while pos < |segments|
        invariant 0 <= pos <= |segments| && Valid() && sme.Free() == old(sme.Free())
        invariant n >= 1 ==> forall j, p :: 0 <= j < pos ==> !RunIn(sme.Free(), pages, j, p, n)
        invariant old(freePos.value) <= freePos.value <= pos || freePos.value == old(freePos.value)
        invariant forall j :: old(freePos.value) <= j < freePos.value ==> old(segments[j].totalFree) == 0
        invariant forall j :: pos <= j < |segments| ==> segments[j].totalFree == old(segments[j].totalFree)
        invariant forall j :: 0 <= j < pos && j == freePos.value ==> old(segments[j].totalFree) > 0
        invariant n == 0 && old(freePos.value) < |segments| ==>
                    pos == old(freePos.value) &&
                        segments[pos].freeSpaceList == old(segments[freePos.value].freeSpaceList)
      {
        rc, found := ReserveIn(pos, n);
        if rc == Ok {
          if n >= 1 {
            RunIsFree(old(sme.Free()), pages, pos, found, n);
          }
          forall j, p | n >= 1 && pos < j < |segments| && RunIn(old(sme.Free()), pages, j, p, n) ensures found <= p {
            LowerSegment(old(sme.Free()), pos, found, j, p, n);
          }
          return;
        } else if rc != NoSpace {
          return;
        }
        pos := pos + 1;
      }
      rc, found := Ok, -1;
    }

    /** Gives back the pages [start, start + n); succeeds exactly when they lie in one segment and none is free. */
    method ReleasePages(start: int, n: nat) returns (rc: Rc)
      requires Valid()
      modifies segments, freePos, totalFree, sme.mask
      ensures Valid()
      ensures rc == if Releasable(old(sme.Free()), pages, |segments|, start, n) then Ok else Sys
      ensures rc == Ok ==> sme.Free() == Marked(old(sme.Free()), start, n, true)
      ensures rc == Ok ==>
                freePos.value == if start / pages < old(freePos.value) then start / pages else old(freePos.value)
      ensures rc != Ok ==> sme.Free() == old(sme.Free()) && unchanged(freePos) && unchanged(totalFree)
      ensures rc != Ok ==> forall j :: 0 <= j < |segments| ==> unchanged(segments[j])
    {
      hide StartOf, CountFree, Covers, Coalesced, Segment.Valid, Segment.Agrees;
      if start < 0 || start / pages >= |segments| {
        return Sys;
      }
      var id := start / pages;
      rc := ReleaseIn(id, start, n);
      if rc != Ok {
        return;
      }
      freePos.SwapLesserThan(id);
    }

    /** The release inside segment id, before the hint is lowered. */
    method ReleaseIn(id: nat, start: nat, n: nat) returns (rc: Rc)
      requires Valid() && id < |segments| && id == start / pages
      modifies segments[id], totalFree, sme.mask
      ensures Shape() && (forall j :: 0 <= j < |segments| ==> segments[j].Valid() && segments[j].Agrees(sme.Free()))
      ensures totalFree.value == CountFree(sme.Free(), 0, StartOf(|segments|, pages))
      ensures forall j :: 0 <= j < |segments| && j != id ==> segments[j].totalFree == old(segments[j].totalFree)
      ensures rc == if Releasable(old(sme.Free()), pages, |segments|, start, n) then Ok else Sys
      ensures rc == Ok ==> sme.Free() == Marked(old(sme.Free()), start, n, true)
      ensures rc != Ok ==> sme.Free() == old(sme.Free()) && unchanged(totalFree) && unchanged(segments[id])
    {
      hide StartOf, CountFree, RunIn, MaxSize, TotalSize, Covers, Coalesced, Overlaps, Put;
      ghost var l, free := segments[id].freeSpaceList, sme.Free();
      Distinct(id, id);
      OverlapsIsFree(l, free, pages, id, start, n);
      rc := segments[id].ReleasePages(start, n, true, sme, totalFree);
      forall j | 0 <= j < |segments| && j != id
        ensures segments[j].Valid() && segments[j].Agrees(sme.Free())
        ensures segments[j].totalFree == old(segments[j].totalFree)
      {
        Distinct(id, j);
        if rc == Ok {
          MatchesElsewhere(segments[j].freeSpaceList, StartOf(j, pages), pages, free, start, n, true);
        }
      }
      if rc == Ok {
        CountMarked(free, StartOf(|segments|, pages), start, n, true);
      }
    }

    /** Adds the next segment, all of its pages free. */
    method DepositASegment(start: int) returns (rc: Rc)
      requires Valid()
      modifies this, totalFree
      ensures rc == if start >= 0 && start / pages == old(|segments|) then Ok else Sys
      ensures rc != Ok ==> unchanged(this) && unchanged(totalFree)
      ensures rc == Ok ==>
                |segments| == old(|segments|) + 1 && segments[..old(|segments|)] == old(segments) &&
                    fresh(segments[old(|segments|)])
      ensures rc == Ok && start % pages == 0 && AllFree(sme.Free(), start, pages) ==> Valid()
    {
      hide StartOf, CountFree, MaxSize, TotalSize, Covers, Coalesced, Overlaps, Put, Matches;
      if start < 0 || start / pages != |segments| {
        return Sys;
      }
      ghost var free, k := sme.Free(), |segments|;
      NothingListed(start, pages, k);
      if start % pages == 0 && AllFree(free, start, pages) {
        CountGrows(free, k, pages);
      }
      var newspace := new Segment(start, pages);
      segments := segments + [newspace];
      rc := newspace.ReleasePages(start, pages, false, sme, totalFree);
      if rc != Ok {
        return;
      }
      totalFree.Add(pages);
      if start % pages == 0 && AllFree(free, start, pages) {
        FullSegment(newspace.freeSpaceList, start, pages, free);
        forall j | 0 <= j < k ensures segments[j].Valid() && segments[j].Agrees(sme.Free()) {
          assert segments[j] == old(segments)[j];
        }
      }
    }

    /** All segments but the last agree with the map, and the last one does below page upto. */
    ghost predicate LoadedTo(upto: nat)
      reads this, segments, totalFree, sme.mask
    {
      && Shape() && upto <= |sme.Free()|
      && (forall j :: 0 <= j < |segments| ==> segments[j].Valid())
      && (forall j :: 0 <= j < |segments| - 1 ==> segments[j].Agrees(sme.Free()))
      && (segments != [] ==>
           var s := segments[|segments| - 1]; MatchesBelow(s.freeSpaceList, s.startExtent, pages, sme.Free(), upto))
      && totalFree.value == CountFree(sme.Free(), 0, upto)
    }

    /** Lists the free pages [begin, i) of the last segment. */
    method Flush(begin: nat, i: nat) returns (rc: Rc)
      requires LoadedTo(begin) && segments != []
      requires StartOf(|segments| - 1, pages) <= begin <= i <= StartOf(|segments|, pages)
      requires forall p :: begin <= p < i ==> sme.Free()[p]
      modifies segments[|segments| - 1], totalFree
      ensures rc == Ok && LoadedTo(i)
    {
      hide StartOf, CountFree, MaxSize, TotalSize, Covers, Coalesced, Overlaps, Put, Matches, MatchesBelow;
      ghost var k, free := |segments| - 1, sme.Free();
      var last := segments[|segments| - 1];
      Distinct(k, k);
      StartsOrdered(k, k, pages);
      FlushedRun(last.freeSpaceList, last.startExtent, pages, free, begin, i);
      rc := last.ReleasePages(begin, i - begin, false, sme, totalFree);
      totalFree.Add(i - begin);
      ListedRun(old(last.freeSpaceList), last.freeSpaceList, last.startExtent, pages, free, begin, i);
      CountRun(free, begin, i, true);
      forall j | 0 <= j < k ensures segments[j].Valid() && segments[j].Agrees(sme.Free()) {
        Distinct(j, k);
      }
    }

    /** Opens the segment that starts at page i. */
    method OpenSegment(i: nat)
      requires LoadedTo(i) && i == StartOf(|segments|, pages) && i + pages <= |sme.Free()|
      modifies this
      ensures LoadedTo(i) && |segments| == old(|segments|) + 1 && segments[..old(|segments|)] == old(segments)
      ensures fresh(segments[old(|segments|)]) && i + pages == StartOf(|segments|, pages)
    {
      hide StartOf, CountFree, MaxSize, TotalSize, Covers, Coalesced, Overlaps, Put, Matches, MatchesBelow;
      ghost var k, free := |segments|, sme.Free();
      StartsOrdered(k, k, pages);
      StartsOrdered(k - 1, k, pages);
      if k > 0 {
        WholeSegment(segments[k - 1].freeSpaceList, segments[k - 1].startExtent, pages, free);
      }
      NothingBelow(i, pages, free);
      var newspace := new Segment(i, pages);
      segments := segments + [newspace];
      forall j | 0 <= j < k ensures segments[j].Valid() && segments[j].Agrees(sme.Free()) {
        assert segments[j] == old(segments)[j];
      }
    }

    /** At the first page of a segment: lists what is left of the previous one and opens the new one. */
    method Turn(i: nat, begin: nat, inUse: bool, ghost pageNum: nat) returns (rc: Rc)
      requires Scanning(i, begin, inUse, pageNum) && i == StartOf(|segments|, pages)
      requires i + pages <= pageNum <= 8 * sme.mask.Length
      modifies this, totalFree, segments
      ensures rc == Ok && Visiting(i, i, false, pageNum)
      ensures segments == old(segments) + [segments[|segments| - 1]] && fresh(segments[|segments| - 1])
    {
      hide StartOf, CountFree, MatchesBelow, Segment.Valid, Segment.Agrees;
      rc := Ok;
      if segments != [] && !inUse {
        rc := Flush(begin, i);
      }
      OpenSegment(i);
      StartsOrdered(|segments| - 1, |segments|, pages);
    }

    /** Looks at page i. */
    method Visit(i: nat, begin: nat, inUse: bool, ghost pageNum: nat) returns (rc: Rc, begin': nat, inUse': bool)
      requires Visiting(i, begin, inUse, pageNum) && pageNum <= 8 * sme.mask.Length
      modifies totalFree, segments[|segments| - 1]
      ensures rc == Ok && Scanning(i + 1, begin', inUse', pageNum) && (inUse' <==> !sme.Free()[i])
    {
      hide StartOf, CountFree, MatchesBelow, Segment.Valid, Segment.Agrees;
      rc, begin', inUse' := Ok, begin, inUse;
      var free := sme.IsFree(i);
      if !free && !inUse {
        rc := Flush(begin, i);
        inUse' := true;
      } else if free && inUse {
        inUse', begin' := false, i;
      }
      if inUse' {
        PassAllocated(i);
      }
    }

    /** One round of the scan. */
    method ScanPage(i: nat, begin: nat, inUse: bool, ghost pageNum: nat) returns (rc: Rc, begin': nat, inUse': bool)
      requires Scanning(i, begin, inUse, pageNum) && pages >= 1 && Aligned(pageNum, pages)
      requires i < pageNum <= 8 * sme.mask.Length
      modifies this, totalFree, segments
      ensures rc == Ok && Scanning(i + 1, begin', inUse', pageNum) && (inUse' <==> !sme.Free()[i])
      ensures forall j :: 0 <= j < |segments| ==>
                (j < |old(segments)| && segments[j] == old(segments)[j]) || fresh(segments[j])
    {
      hide StartOf, CountFree, MatchesBelow, Segment.Valid, Segment.Agrees, LoadedTo, Shape, Aligned;
      rc, begin', inUse' := Ok, begin, inUse;
      Boundary(i, |segments|, pageNum, pages);
      if Aligned(i, pages) {
        rc := Turn(i, begin, inUse, pageNum);
        inUse', begin' := false, i;
      }
      rc, begin', inUse' := Visit(i, begin', inUse', pageNum);
    }

    /** Rebuilds the free lists and the total from any page map. */
    method Init(pageNum: nat) returns (rc: Rc)
      requires segments == [] && Shape() && totalFree.value == 0 && freePos.value == 0
      requires pageNum <= 8 * sme.mask.Length && Aligned(8 * sme.mask.Length, pages)
      modifies this, totalFree
      ensures rc == Ok && LoadedTo(pageNum) && StartOf(|segments|, pages) == RoundUp(pageNum, pages)
      ensures Valid() <==> forall p :: pageNum <= p < RoundUp(pageNum, pages) ==> !sme.Free()[p]
      ensures Aligned(pageNum, pages) ==> Valid() && StartOf(|segments|, pages) == pageNum
      ensures forall j :: 0 <= j < |segments| ==> fresh(segments[j])
    {
      hide StartOf, CountFree, MatchesBelow, Segment.Valid, Segment.Agrees, LoadedTo, Shape, Aligned;
      rc := Ok;
      ghost var cap := 8 * sme.mask.Length;
      var i: nat, begin: nat, inUse := 0, 0, false;
      NoneLoaded();
      while i < pageNum
        invariant i <= pageNum && rc == Ok && Scanning(i, begin, inUse, cap) && freePos.value == 0
        invariant forall j :: 0 <= j < |segments| ==> fresh(segments[j])
        invariant i > 0 ==> (inUse <==> !sme.Free()[i - 1])
      {
        rc, begin, inUse := ScanPage(i, begin, inUse, cap);
        i := i + 1;
      }
      rc := FlushLast(i, begin, inUse, cap);
    }

    /** At the end of the map: lists the pages of the last segment that are still pending. */
    method FlushLast(i: nat, begin: nat, inUse: bool, ghost cap: nat) returns (rc: Rc)
      requires Scanning(i, begin, inUse, cap) && i <= |sme.Free()| && (i > 0 ==> (inUse <==> !sme.Free()[i - 1]))
      requires pages >= 1 && totalFree != freePos && freePos.value == 0
      modifies totalFree, segments
      ensures rc == Ok && LoadedTo(i) && StartOf(|segments|, pages) == RoundUp(i, pages) && freePos.value == 0
      ensures Valid() <==> forall p :: i <= p < RoundUp(i, pages) ==> !sme.Free()[p]
      ensures Aligned(i, pages) ==> Valid() && StartOf(|segments|, pages) == i
    {
      hide StartOf, CountFree, MatchesBelow, Segment.Valid, Segment.Agrees, Aligned, RoundUp;
      rc := Ok;
      FirstStart(pages);
      LastSegment(i, |segments|, pages);
      if i > 0 {
        var free := sme.IsFree(i - 1);
        if free {
          rc := Flush(begin, i);
        }
      }
      ValidExactly(i);
    }

    lemma NoneLoaded()
      requires segments == [] && Shape() && totalFree.value == 0
      ensures LoadedTo(0) && StartOf(0, pages) == 0 && totalFree != freePos && pages >= 1
    {
    }

    /** Scanning, with page i inside the last segment. */
    ghost predicate Visiting(i: nat, begin: nat, inUse: bool, pageNum: nat)
      reads this, segments, totalFree, sme.mask
    {
      && LoadedTo(if inUse then i else begin)
      && StartOf(|segments|, pages) <= pageNum
      && segments != [] && StartOf(|segments| - 1, pages) <= i < StartOf(|segments|, pages)
      && (!inUse ==> StartOf(|segments| - 1, pages) <= begin <= i)
      && (!inUse ==> forall p :: begin <= p < i ==> sme.Free()[p])
    }

    /** Where the scan of the map stands: pages [begin, i) are free and not yet listed unless inUse. */
    ghost predicate Scanning(i: nat, begin: nat, inUse: bool, pageNum: nat)
      reads this, segments, totalFree, sme.mask
    {
      && LoadedTo(if inUse then i else begin)
      && StartOf(|segments|, pages) <= pageNum
      && (segments == [] ==> i == 0 && begin == 0 && !inUse)
      && (segments != [] ==> StartOf(|segments| - 1, pages) < i <= StartOf(|segments|, pages))
      && (!inUse && segments != [] ==> StartOf(|segments| - 1, pages) <= begin <= i)
      && (!inUse ==> forall p :: begin <= p < i ==> sme.Free()[p])
    }

    lemma PassAllocated(i: nat)
      requires LoadedTo(i) && i < |sme.Free()| && !sme.Free()[i]
      ensures LoadedTo(i + 1)
    {
      hide CountFree, MatchesBelow, Segment.Valid, Segment.Agrees, StartOf;
      if segments != [] {
        var s := segments[|segments| - 1];
        Distinct(|segments| - 1, |segments| - 1);
        AllocatedAt(s.freeSpaceList, s.startExtent, pages, sme.Free(), i);
      }
      CountRun(sme.Free(), i, i + 1, false);
    }

    /** With pages [i, end of the last segment) never listed, the state is right exactly when the
        map has none of them free. */
    lemma ValidExactly(i: nat)
      requires LoadedTo(i) && freePos.value == 0
      requires if segments == [] then i == 0 == StartOf(|segments|, pages)
                 else StartOf(|segments| - 1, pages) < i <= StartOf(|segments|, pages)
      ensures Valid() <==> forall p :: i <= p < StartOf(|segments|, pages) ==> !sme.Free()[p]
    {
      hide CountFree, MatchesBelow, Segment.Valid, StartOf, Matches;
      if segments != [] {
        var k := |segments| - 1;
        var s := segments[k];
        StartsOrdered(k, k, pages);
        AgreesExactly(s.freeSpaceList, s.startExtent, pages, sme.Free(), i);
        if Matches(s.freeSpaceList, s.startExtent, pages, sme.Free()) {
          CountRun(sme.Free(), i, s.startExtent + pages, false);
        }
      }
    }
  }

  /** Pages up to the end of the segment that page i - 1 lies in. */
  function RoundUp(i: nat, pages: nat): int
    requires pages >= 1
  {
    if Aligned(i, pages) then i else StartOf(i / pages, pages) + pages
  }

  lemma LastSegment(i: nat, k: nat, pages: nat)
    requires pages >= 1 && if k == 0 then i == 0 else StartOf(k - 1, pages) < i <= StartOf(k, pages)
    ensures StartOf(k, pages) == RoundUp(i, pages) && (Aligned(i, pages) ==> RoundUp(i, pages) == i)
  {
    hide StartOf, Aligned;
    ByDivision(i, pages);
    FirstStart(pages);
    var q := i / pages;
    if k > 0 {
      StartsOrdered(k - 1, k - 1, pages);
      StartsOrdered(k, q, pages);
      StartsOrdered(q, k - 1, pages);
    }
  }

  lemma AgreesExactly(l: seq<Run>, start: nat, size: nat, free: seq<bool>, i: nat)
    requires MatchesBelow(l, start, size, free, i) && start <= i <= start + size
    ensures Matches(l, start, size, free) <==> forall p :: i <= p < start + size ==> !free[p]
  {
    if Matches(l, start, size, free) {
      forall p | i <= p < start + size ensures !free[p] {
        assert Covers(l, p - start) <==> free[start + (p - start)];
      }
    }
  }

  /** A new segment begins exactly at the multiples of the segment size. */
  lemma Boundary(i: nat, k: nat, pageNum: nat, pages: nat)
    requires pages >= 1 && Aligned(pageNum, pages) && i <= pageNum && StartOf(k, pages) <= pageNum
    requires if k == 0 then i == 0 else StartOf(k - 1, pages) < i <= StartOf(k, pages)
    ensures Aligned(i, pages) <==> i == StartOf(k, pages)
    ensures i < pageNum && Aligned(i, pages) ==> i + pages <= pageNum
    ensures if k > 0 then StartOf(k - 1, pages) >= 0 else StartOf(k, pages) == 0
  {
    hide StartOf, Aligned;
    ByDivision(i, pages);
    ByDivision(pageNum, pages);
    FirstStart(pages);
    var q, m := i / pages, pageNum / pages;
    if k > 0 {
      StartsOrdered(k - 1, k - 1, pages);
      StartsOrdered(k, q, pages);
      StartsOrdered(q, k - 1, pages);
      StartsOrdered(q, k, pages);
    }
    StartsOrdered(q, m, pages);
    StartsOrdered(m, k, pages);
    StartsOrdered(k, m, pages);
  }

  lemma FirstStart(pages: nat)
    ensures StartOf(0, pages) == 0
  {
  }

  /** Division finds the segment of a page; it is the first page of it exactly when it is aligned. */
  lemma ByDivision(i: nat, pages: nat)
    requires pages >= 1
    ensures i / pages >= 0 && StartOf(i / pages, pages) <= i < StartOf(i / pages, pages) + pages
    ensures Aligned(i, pages) <==> i == StartOf(i / pages, pages)
  {
    assert i == (i / pages) * pages + i % pages;
  }

  /** The runs of l are exactly the free pages of [start, start + size) below page upto. */
  ghost predicate MatchesBelow(l: seq<Run>, start: nat, size: nat, free: seq<bool>, upto: int) {
    && start + size <= |free|
    && (forall p :: 0 <= p < size ==> (Covers(l, p) <==> free[start + p] && start + p < upto))
  }

  lemma FlushedRun(l: seq<Run>, start: nat, size: nat, free: seq<bool>, begin: nat, i: nat)
    requires MatchesBelow(l, start, size, free, begin) && start <= begin <= i <= start + size
    ensures !Overlaps(l, begin - start, i - begin)
  {
  }

  lemma ListedRun(l: seq<Run>, l': seq<Run>, start: nat, size: nat, free: seq<bool>, begin: nat, i: nat)
    requires MatchesBelow(l, start, size, free, begin) && start <= begin <= i <= start + size
    requires forall p :: begin <= p < i ==> free[p]
    requires i == begin ==> l' == l
    requires i > begin ==> forall p :: Covers(l', p) <==> Covers(l, p) || begin <= start + p < i
    ensures MatchesBelow(l', start, size, free, i)
  {
  }

  lemma WholeSegment(l: seq<Run>, start: nat, size: nat, free: seq<bool>)
    requires MatchesBelow(l, start, size, free, start + size)
    ensures Matches(l, start, size, free)
  {
  }

  lemma NothingBelow(start: nat, size: nat, free: seq<bool>)
    requires start + size <= |free|
    ensures MatchesBelow([], start, size, free, start)
  {
  }

  lemma AllocatedAt(l: seq<Run>, start: nat, size: nat, free: seq<bool>, i: nat)
    requires MatchesBelow(l, start, size, free, i) && i < |free| && !free[i]
    ensures MatchesBelow(l, start, size, free, i + 1)
  {
  }

  lemma CountRun(free: seq<bool>, begin: nat, i: nat, b: bool)
    requires begin <= i <= |free| && forall p :: begin <= p < i ==> free[p] == b
    ensures CountFree(free, 0, i) == CountFree(free, 0, begin) + if b then i - begin else 0
  {
    hide CountFree;
    CountSplit(free, 0, begin, i);
    CountConstant(free, begin, i, b);
  }
}

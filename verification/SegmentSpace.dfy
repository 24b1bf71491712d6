// One segment's free space: the in-memory free list beside the persistent page map.
module SegmentSpace {
  import opened FreeRuns
  import opened SpaceMap

  datatype Rc = Ok | NoSpace | Sys

  /** What a cell holds at attempt i, after the others wrote to it. */
  function Held(start: int, others: seq<int>, i: nat): int
    requires i <= |others|
  {
    if i < |others| then others[i] else if i > 0 then others[i - 1] else start
  }

  /** A 32-bit cell with the atomic operations the allocator uses. */
  class Atomic {
    var value: int

    constructor (v: int)
      ensures value == v
    {
      value := v;
    }

    /** Swaps if the cell holds old'; answers what the cell held. */
    method CompareAndSwap(old': int, new': int) returns (held: int)
      modifies this
      ensures held == old(value) && value == if old(value) == old' then new' else old(value)
    {
      held := value;
      if value == old' {
        value := new';
      }
    }

    /** Lowers the cell to v unless it is already lower, retrying while other threads change it:
        others[i] is what they leave in the cell before attempt i. The swap that succeeds, at
        attempt `at`, compares v with what the cell holds at that moment. */
    method SwapPredicated(v: int, others: seq<int>) returns (prev: int, at: nat)
      modifies this
      ensures at <= |others| && prev == Held(old(value), others, at)
      ensures value == if v < prev then v else prev
    {
      prev, at := value, 0;
      while true
        invariant at <= |others| && value == (if at == 0 then old(value) else others[at - 1])
        invariant at == |others| ==> prev == value
        decreases |others| - at
      {
        var newVal := prev;
        if v < prev {
          newVal := v;
        }
        if at < |others| {
          value := others[at];
        }
        var tmp := CompareAndSwap(prev, newVal);
        if prev == tmp {
          break;
        }
        prev, at := tmp, at + 1;
      }
    }

    method SwapLesserThan(v: int)
      modifies this
      ensures value == if v < old(value) then v else old(value)
    {
      var prev, at := SwapPredicated(v, []);
    }

    method Add(n: int)
      modifies this
      ensures value == old(value) + n
    {
      value := value + n;
    }
  }

  /** The runs of l, counted from page start, are exactly the free pages of [start, start + size). */
  ghost predicate Matches(l: seq<Run>, start: nat, size: nat, free: seq<bool>) {
    && start + size <= |free|
    && forall p :: 0 <= p < size ==> (free[start + p] <==> Covers(l, p))
  }

  class Segment {
    var freeSpaceList: seq<Run>
    var maxNode: nat
    const startExtent: nat
    const totalSize: nat
    var totalFree: nat

    /** The list is sorted and merged; the cached maximum and total are right. */
    ghost predicate Valid()
      reads this
    {
      && Coalesced(freeSpaceList, 0, totalSize)
      && maxNode == MaxSize(freeSpaceList)
      && totalFree == TotalSize(freeSpaceList)
    }

    /** The list covers exactly the segment's pages that are free in the page map. */
    ghost predicate Agrees(free: seq<bool>)
      reads this
    {
      Matches(freeSpaceList, startExtent, totalSize, free)
    }

    constructor (start: nat, size: nat)
      ensures Valid() && freeSpaceList == [] && startExtent == start && totalSize == size
    {
      freeSpaceList, maxNode, startExtent, totalSize, totalFree := [], 0, start, size, 0;
    }

    method ResetMax()
      modifies `maxNode
      ensures maxNode == MaxSize(freeSpaceList)
    {
      maxNode := 0;
      var i := 0;
      assert freeSpaceList[0..] == freeSpaceList;
      while i < |freeSpaceList|
        invariant 0 <= i <= |freeSpaceList|
        invariant Max(maxNode, MaxSize(freeSpaceList[i..])) == MaxSize(freeSpaceList)
      {
        assert freeSpaceList[i..][1..] == freeSpaceList[i + 1..];
        if freeSpaceList[i].size > maxNode {
          maxNode := freeSpaceList[i].size;
        }
        i := i + 1;
      }
    }

    /** Finds the first run of at least n pages. */
    method FindFit(n: nat) returns (i: nat)
      ensures i <= |freeSpaceList|
      ensures forall j :: 0 <= j < i ==> freeSpaceList[j].size < n
      ensures i < |freeSpaceList| ==> freeSpaceList[i].size >= n
    {
      i := 0;
      while i < |freeSpaceList| && freeSpaceList[i].size < n
        invariant i <= |freeSpaceList| && forall j :: 0 <= j < i ==> freeSpaceList[j].size < n
      {
        i := i + 1;
      }
    }

    /** Takes n pages from the front of run i. */
    method TakeFrom(i: nat, n: nat)
      requires Valid() && i < |freeSpaceList| && n <= freeSpaceList[i].size
      modifies this
      ensures Valid() && freeSpaceList == Take(old(freeSpaceList), i, n) && totalFree == old(totalFree) - n
    {
      hide Coalesced, TotalSize, MaxSize;
      ghost var l := freeSpaceList;
      var oldsize, start := freeSpaceList[i].size, freeSpaceList[i].start;
      TakeIsEdit(l, i, n);
      TakeKeeps(l, 0, totalSize, i, n);
      TakeMax(l, i, n);
      TotalAtLeast(l, i);
      if oldsize == n {
        freeSpaceList := freeSpaceList[..i] + freeSpaceList[i + 1..];
      } else {
        freeSpaceList := freeSpaceList[i := Run(start + n, oldsize - n)];
      }
      totalFree := totalFree - n;
      if oldsize == maxNode {
        ResetMax();
      }
    }

    /** Reserves n contiguous pages at the lowest possible place. */
    method ReservePages(n: nat, pos: int, freePos: Atomic, sme: PageMap, total: Atomic) returns (rc: Rc, found: int)
      requires Valid() && Agrees(sme.Free()) && freePos != total
      modifies this, freePos, total, sme.mask
      ensures Valid() && Agrees(sme.Free())
      ensures freePos.value == if old(totalFree) == 0 && old(freePos.value) == pos then pos + 1 else old(freePos.value)
      ensures rc == Sys <==> n == 0 && old(freeSpaceList) == []
      ensures n == 0 && rc != Sys ==> rc == Ok && found == startExtent + old(freeSpaceList)[0].start
      ensures n >= 1 ==> (rc == NoSpace <==> forall p :: !Fits(old(freeSpaceList), p, n))
      ensures n >= 1 && rc == Ok ==>
                && startExtent <= found && found + n <= startExtent + totalSize
                && Fits(old(freeSpaceList), found - startExtent, n)
                && (forall p :: Fits(old(freeSpaceList), p, n) ==> found - startExtent <= p)
                && sme.Free() == Marked(old(sme.Free()), found, n, false)
                && total.value == old(total.value) - n
                && totalFree == old(totalFree) - n
      ensures n == 0 || rc != Ok ==>
                unchanged(`freeSpaceList) && unchanged(`totalFree) && sme.Free() == old(sme.Free()) &&
                    total.value == old(total.value)
    {
      hide Coalesced, TotalSize, MaxSize, Fits, Matches;
      found := -1;
      if totalFree == 0 {
        var held := freePos.CompareAndSwap(pos, pos + 1);
      }
      ghost var l := freeSpaceList;
      if n > maxNode {
        TooLong(l, totalSize, n);
        return NoSpace, -1;
      }
      LongestExists(l, n);
      var i := FindFit(n);
      if i == |freeSpaceList| {
        return Sys, -1;
      }
      found := Grant(i, n, sme, total);
      rc := Ok;
    }

    /** Hands out n pages from run i, the first that is long enough. */
    method Grant(i: nat, n: nat, sme: PageMap, total: Atomic) returns (found: int)
      requires Valid() && Agrees(sme.Free()) && i < |freeSpaceList| && n <= freeSpaceList[i].size
      requires forall j :: 0 <= j < i ==> freeSpaceList[j].size < n
      modifies this, total, sme.mask
      ensures Valid() && Agrees(sme.Free()) && found == startExtent + old(freeSpaceList)[i].start
      ensures startExtent <= found && found + n <= startExtent + totalSize
      ensures n >= 1 ==>
                && Fits(old(freeSpaceList), found - startExtent, n)
                && forall p :: Fits(old(freeSpaceList), p, n) ==> found - startExtent <= p
      ensures sme.Free() == Marked(old(sme.Free()), found, n, false)
      ensures total.value == old(total.value) - n && totalFree == old(totalFree) - n
      ensures n == 0 ==> freeSpaceList == old(freeSpaceList)
    {
      hide Coalesced, TotalSize, MaxSize, Fits;
      ghost var l := freeSpaceList;
      var rela := freeSpaceList[i].start;
      Found(l, totalSize, i, n);
      TakeFrom(i, n);
      found := rela + startExtent;
      sme.Mark(found, n, false);
      total.Add(0 - n);
    }

    predicate InRange(start: int, n: nat) {
      startExtent <= start && start + n <= startExtent + totalSize
    }

    /** Gives back the pages [start, start + n); a range that is outside the segment or touches a free page is
        refused. */
    method ReleasePages(start: int, n: nat, bitSet: bool, sme: PageMap, total: Atomic) returns (rc: Rc)
      requires Valid() && (bitSet ==> startExtent + totalSize <= 8 * sme.mask.Length)
      modifies this, if bitSet then {total, sme.mask} else {}
      ensures Valid()
      ensures rc == Ok <==> InRange(start, n) && (n == 0 || !Overlaps(old(freeSpaceList), start - startExtent, n))
      ensures rc == Ok || rc == Sys
      ensures rc != Ok ==> unchanged(this) && unchanged(total) && unchanged(sme.mask)
      ensures n == 0 ==> unchanged(`freeSpaceList) && unchanged(`maxNode) && unchanged(`totalFree)
      ensures rc == Ok && n >= 1 ==>
                && freeSpaceList == Put(old(freeSpaceList), start - startExtent, n)
                && totalFree == old(totalFree) + n
                && (forall p :: Covers(freeSpaceList, p) <==>
                     Covers(old(freeSpaceList), p) || start <= startExtent + p < start + n)
      ensures rc == Ok && bitSet ==>
                sme.Free() == Marked(old(sme.Free()), start, n, true) && total.value == old(total.value) + n
      ensures bitSet && old(Agrees(sme.Free())) ==> Agrees(sme.Free())
    {
      hide Coalesced, TotalSize, MaxSize, Overlaps, Covers, Put;
      if start < startExtent || start + n > startExtent + totalSize {
        return Sys;
      }
      if n != 0 {
        var ok := Link(start - startExtent, n);
        if !ok {
          return Sys;
        }
      }
      totalFree := totalFree + n;
      if bitSet {
        sme.Mark(start, n, true);
        total.Add(n);
      }
      rc := Ok;
    }

    /** Puts a run on the list, merging it with its neighbours. */
    method Link(rela: nat, n: nat) returns (ok: bool)
      requires Valid() && n >= 1 && rela + n <= totalSize
      modifies `freeSpaceList, `maxNode
      ensures ok <==> !Overlaps(old(freeSpaceList), rela, n)
      ensures !ok ==> unchanged(this)
      ensures ok ==>
                && freeSpaceList == Put(old(freeSpaceList), rela, n)
                && Coalesced(freeSpaceList, 0, totalSize)
                && maxNode == MaxSize(freeSpaceList)
                && TotalSize(freeSpaceList) == totalFree + n
                && (forall p :: Covers(freeSpaceList, p) <==> Covers(old(freeSpaceList), p) || rela <= p < rela + n)
    {
      hide Coalesced, TotalSize, MaxSize, Overlaps, Covers, Put;
      ghost var l := freeSpaceList;
      var list', max';
      ok, list', max' := ReleaseRun(freeSpaceList, totalSize, rela, n, maxNode);
      if ok {
        PutKeeps(l, 0, totalSize, rela, n);
        forall p ensures Covers(Put(l, rela, n), p) <==> Covers(l, p) || rela <= p < rela + n {
          PutCovers(l, 0, totalSize, rela, n, p);
        }
        freeSpaceList, maxNode := list', max';
      }
    }
  }

  lemma TooLong(l: seq<Run>, limit: nat, n: nat)
    requires Coalesced(l, 0, limit) && n > MaxSize(l)
    ensures forall p :: !Fits(l, p, n)
  {
    forall p ensures !Fits(l, p, n) { NothingFits(l, 0, limit, n, p); }
  }

  /** What the first run of at least n pages offers, and what the list covers once they are taken. */
  lemma Found(l: seq<Run>, limit: nat, i: nat, n: nat)
    requires Coalesced(l, 0, limit) && i < |l| && n <= l[i].size && forall j :: 0 <= j < i ==> l[j].size < n
    ensures n >= 1 ==> Fits(l, l[i].start, n) && forall p :: Fits(l, p, n) ==> l[i].start <= p
    ensures forall p :: Covers(Take(l, i, n), p) <==> Covers(l, p) && !(l[i].start <= p < l[i].start + n)
    ensures l[i].End() <= limit && (n == 0 ==> Take(l, i, n) == l)
  {
    hide Coalesced, Fits;
    TakeKeeps(l, 0, limit, i, n);
    RunsAreMaximal(l, 0, limit, i, 0);
    TakeIsEdit(l, i, n);
    if n >= 1 {
      FirstFitIsLowest(l, 0, limit, i, n, 0);
      forall p ensures Fits(l, p, n) ==> l[i].start <= p { FirstFitIsLowest(l, 0, limit, i, n, p); }
    }
    forall p ensures Covers(Take(l, i, n), p) <==> Covers(l, p) && !(l[i].start <= p < l[i].start + n) {
      TakeCovers(l, 0, limit, i, n, p);
    }
  }

  lemma {:induction false} TotalAtLeast(l: seq<Run>, i: nat)
    requires i < |l|
    ensures l[i].size <= TotalSize(l)
  {
    if i > 0 {
      TotalAtLeast(l[1..], i - 1);
    }
  }

  /** A cached maximum of at least n >= 1 means some run is that long. */
  lemma LongestExists(l: seq<Run>, n: nat)
    requires n <= MaxSize(l)
    ensures n >= 1 ==> exists j :: 0 <= j < |l| && l[j].size >= n
  {
    MaxSizeEmpty(l);
    if l != [] {
      var i := MaxSizeIsReached(l);
    }
  }
}

// A storage unit: one page allocator and a collection whose extents live on its pages. Inserting finds room in the
// collection, or reserves pages for a new extent, or adds a segment to the unit first.
module StorageUnit {
  import opened DeleteSlots
  import opened ExtentBody
  import opened DeleteLists
  import opened RecordChain
  import opened RecordSpace
  import opened RecordInsert
  import opened RecordStore
  import opened SpaceMap
  import opened PageAllocator
  import opened AllocatorRuns
  import SegmentSpace
  import FreeRuns
  import ExtentChain

  /** Pages [id, id + n) lie in one of the first count segments, all of them allocated. */
  ghost predicate Occupies(free: seq<bool>, pages: nat, count: nat, id: int, n: nat) {
    && n >= 1 && 0 <= id && id + n <= |free|
    && (exists j :: 0 <= j < count && StartOf(j, pages) <= id && id + n <= StartOf(j, pages) + pages)
    && forall p :: id <= p < id + n ==> !free[p]
  }

  /** If extent a starts before b, its pages end before b. */
  predicate Before(span: map<int, nat>, a: int, b: int)
    requires a in span
  {
    a < b ==> a + span[a] <= b
  }

  /** Every extent is as long as the pages it occupies, and no two extents share a page. */
  ghost predicate Placed(exts: Extents, span: map<int, nat>, pageSize: nat, free: seq<bool>, pages: nat, count: nat) {
    && span.Keys == exts.Keys
    && (forall id :: id in span ==> Occupies(free, pages, count, id, span[id]))
    && (forall id :: id in exts ==> |exts[id].mem| == PageBytes(span[id], pageSize))
    && (forall a, b :: a in span && b in span ==> Before(span, a, b))
  }

  /** n free pages start at found, in one of the first count segments. */
  ghost predicate FreeAt(free: seq<bool>, pages: nat, count: nat, n: nat, found: int) {
    exists j :: 0 <= j < count && RunIn(free, pages, j, found, n)
  }

  ghost predicate NoRun(free: seq<bool>, pages: nat, count: nat, n: nat) {
    forall j, p :: 0 <= j < count ==> !RunIn(free, pages, j, p, n)
  }

  lemma FreeIsNoExtent(exts: Extents, span: map<int, nat>, pageSize: nat, free: seq<bool>, pages: nat, count: nat,
                       found: int)
    requires Placed(exts, span, pageSize, free, pages, count) && 0 <= found < |free| && free[found]
    ensures found !in exts
  {
  }

  /** More segments do not move anything. */
  lemma PlacedInMore(exts: Extents, span: map<int, nat>, pageSize: nat, free: seq<bool>, pages: nat, count: nat,
                     count': nat)
    requires Placed(exts, span, pageSize, free, pages, count) && count <= count'
    ensures Placed(exts, span, pageSize, free, pages, count')
  {
    hide StartOf, PageBytes;
    forall id | id in span ensures Occupies(free, pages, count', id, span[id]) {
      var j :| 0 <= j < count && StartOf(j, pages) <= id && id + span[id] <= StartOf(j, pages) + pages;
    }
  }

  /** Reserving free pages keeps every extent where it is. */
  lemma PlacedAside(exts: Extents, span: map<int, nat>, pageSize: nat, free: seq<bool>, pages: nat, count: nat,
                    found: int, n: nat)
    requires Placed(exts, span, pageSize, free, pages, count) && FreeAt(free, pages, count, n, found) && n >= 1
    ensures Placed(exts, span, pageSize, Marked(free, found, n, false), pages, count)
    ensures Occupies(Marked(free, found, n, false), pages, count, found, n) && found !in exts
    ensures forall id :: id in span ==> id + span[id] <= found || found + n <= id
  {
    hide StartOf, PageBytes;
    var free' := Marked(free, found, n, false);
    var j :| 0 <= j < count && RunIn(free, pages, j, found, n);
    assert Occupies(free', pages, count, found, n);
    FreeIsNoExtent(exts, span, pageSize, free, pages, count, found);
    forall id | id in span
      ensures Occupies(free', pages, count, id, span[id]) && (id + span[id] <= found || found + n <= id)
    {
      var i :| 0 <= i < count && StartOf(i, pages) <= id && id + span[id] <= StartOf(i, pages) + pages;
      NoSharedPage(free, FreeRuns.Run(id, span[id]), FreeRuns.Run(found, n));
    }
  }

  /** The reserved pages become an extent. */
  lemma PlacedWith(exts: Extents, exts': Extents, span: map<int, nat>, pageSize: nat, free: seq<bool>, pages: nat,
                   count: nat, id: int, n: nat)
    requires Placed(exts, span, pageSize, free, pages, count) && Occupies(free, pages, count, id, n) && id !in exts
    requires forall a :: a in span ==> a + span[a] <= id || id + n <= a
    requires exts'.Keys == exts.Keys + {id} && |exts'[id].mem| == PageBytes(n, pageSize)
    requires forall a :: a in exts ==> |exts'[a].mem| == |exts[a].mem|
    ensures Placed(exts', span[id := n], pageSize, free, pages, count)
  {
    hide Occupies, PageBytes;
  }

  lemma PlacedSame(exts: Extents, exts': Extents, span: map<int, nat>, pageSize: nat, free: seq<bool>, pages: nat,
                   count: nat)
    requires Placed(exts, span, pageSize, free, pages, count) && SameSizes(exts, exts')
    ensures Placed(exts', span, pageSize, free, pages, count)
  {
    hide Occupies, PageBytes;
  }

  /** What finding pages can answer. */
  ghost predicate PagesAnswer(free: seq<bool>, pages: nat, count: nat, n: nat, grows: bool, rc: Rc) {
    var end := StartOf(count, pages) + pages;
    if !NoRun(free, pages, count, n) then rc == Ok
    else if end > |free| then rc == NoSpace
    else if !AllFree(free, StartOf(count, pages), pages) then rc == Corrupted
    else rc == if grows then Ok else IoFailed
  }

  /** A segment is added exactly when none had room for the pages and they were found nonetheless. */
  ghost predicate AddsSegment(free: seq<bool>, pages: nat, count: nat, count': nat, n: nat, rc: Rc) {
    count' == if rc == Ok && NoRun(free, pages, count, n) then count + 1 else count
  }

  /** No pages were found, for one of the reasons there are. */
  ghost predicate PagesRefused(free: seq<bool>, pages: nat, count: nat, n: nat, grows: bool, rc: Rc) {
    rc in {NoSpace, Corrupted, IoFailed} && 1 <= n <= pages && PagesAnswer(free, pages, count, n, grows, rc)
  }

  lemma AnswerIs(free: seq<bool>, pages: nat, count: nat, n: nat, grows: bool, rc: Rc)
    requires PagesAnswer(free, pages, count, n, grows, rc)
    ensures rc in {Ok, NoSpace, Corrupted, IoFailed} && (rc == Ok <==> PagesAnswer(free, pages, count, n, grows, Ok))
  {
  }

  /** The collection has the extent id besides, still empty; or, for a negative id, it is as it was. */
  ghost predicate OneMore(keys: set<int>, keys': set<int>, recs: Records, recs': Records, order: seq<int>,
                          order': seq<int>, id: int) {
    if id >= 0 then id !in keys && keys' == keys + {id} && recs' == recs[id := []] && Grown(order, order', id)
    else id == -1 && keys' == keys && recs' == recs && order' == order
  }

  lemma SearchFacts(coll: Collection)
    requires coll.Valid()
    ensures Consistent(coll.exts, coll.deleteList, coll.lists, Closed(coll.lost))
    ensures LinksOk(coll.exts, coll.deleteList, coll.lists)
    ensures |coll.lists| == SLOTS && forall k :: 0 <= k < SLOTS ==> NULL_RID !in coll.lists[k]
    ensures ExtentChain.Geometry(coll.pageSize, coll.chain.pages, coll.chain.segNum, coll.chain.stride)
    ensures -1 !in coll.exts
  {
    hide ExtentChain.ChainOk, ExtentChain.Geometry, Linked, Distinct;
    NoNullListed(coll.exts, coll.deleteList, coll.lists, coll.lost);
  }

  /** Without a new extent no page changed hands; for one, its n pages did, in a new segment only if no other had
      room. */
  ghost predicate PagesUsed(free: seq<bool>, free': seq<bool>, pages: nat, count: nat, count': nat, id: int, n: nat) {
    if id < 0 then free' == free && count' == count
    else free' == Marked(free, id, n, false) && AddsSegment(free, pages, count, count', n, Ok)
  }

  /** The chain and the allocator cut the unit into the same segments, as many as the map has pages for, and the
      map is no array of the chain. */
  ghost predicate Matched(coll: Collection, mgr: Manager) {
    && mgr.pages == coll.chain.pages && 8 * mgr.sme.mask.Length == StartOf(coll.chain.segNum, mgr.pages)
    && (mgr.sme.mask as object) != coll.chain.segFirst && (mgr.sme.mask as object) != coll.chain.segLast
  }

  /** Extent id is new: its whole body is free, cut by the rule and pushed on the lists; no other extent changed. */
  ghost predicate Carved(exts: Extents, lists: seq<seq<Rid>>, exts': Extents, lists': seq<seq<Rid>>, id: int,
                         pieces: seq<nat>) {
    && id !in exts && exts'.Keys == exts.Keys + {id} && (forall j :: j in exts ==> exts'[j] == exts[j])
    && exts'[id].freeSpace == |exts'[id].mem| - EXTENT_HEADER && PieceRule(exts'[id].freeSpace, pieces)
    && lists' == Pushed(lists, id, EXTENT_HEADER, pieces)
  }

  /** What the search that succeeded saw: the space as it was, or with the new extent id. */
  ghost predicate Saw(exts: Extents, lists: seq<seq<Rid>>, seen: Extents, seenLists: seq<seq<Rid>>, id: int) {
    if id < 0 then seen == exts && seenLists == lists
    else exists pieces :: Carved(exts, lists, seen, seenLists, id, pieces)
  }

  /** rid is the first fit of what was seen, and it is in the new extent if there is one; it alone left the free
      space. */
  ghost predicate Chosen(seen: Extents, seenLists: seq<seq<Rid>>, exts: Extents, id: int, rid: Rid, required: nat)
    requires required >= 1
  {
    && IsFirstFit(seen, seenLists, Slot(required), required, rid) && (id >= 0 ==> rid.ext == id)
    && Look(exts, rid).Head? && FreedLess(seen, exts, rid.ext, SizeOf(exts, rid)) && SameSizes(seen, exts)
  }

  /** The old segments come first. */
  ghost predicate Continues(a: seq<SegmentSpace.Segment>, b: seq<SegmentSpace.Segment>) {
    |a| <= |b| && b[..|a|] == a
  }

  class Unit {
    const coll: Collection
    const mgr: Manager
    ghost var span: map<int, nat>   // how many pages each extent occupies

    ghost predicate PlacedOk()
      reads this, coll, mgr, mgr.sme.mask
    {
      Placed(coll.exts, span, coll.pageSize, mgr.sme.Free(), mgr.pages, |mgr.segments|)
    }

    ghost predicate ValidWith(g: Gap)
      reads this, coll, coll.chain, coll.chain.segFirst, coll.chain.segLast
      reads mgr, mgr.segments, mgr.totalFree, mgr.freePos, mgr.sme.mask
    {
      coll.ValidWith(g) && mgr.Valid() && Matched(coll, mgr) && PlacedOk()
    }

    /** Records, lists, chains, free pages and the places of the extents all agree. */
    ghost predicate Valid()
      reads this, coll, coll.chain, coll.chain.segFirst, coll.chain.segLast
      reads mgr, mgr.segments, mgr.totalFree, mgr.freePos, mgr.sme.mask
    {
      ValidWith(Closed(coll.lost))
    }

    /** Valid, and no space is lost: every deleted record is on a list. */
    ghost predicate Whole()
      reads this, coll, coll.chain, coll.chain.segFirst, coll.chain.segLast
      reads mgr, mgr.segments, mgr.totalFree, mgr.freePos, mgr.sme.mask
    {
      ValidWith(Closed([]))
    }

    /** Whether a record of the required size will find room: among the first three records of some list from its slot
        up, or on pages for a new extent. */
    ghost predicate RoomFor(required: nat, grows: bool)
      requires required >= 1
      reads coll, coll.chain, mgr, mgr.sme.mask
    {
      || InReach(coll.exts, coll.lists, Slot(required), required)
      || (coll.pageSize >= 1 &&
          var n := PagesFor(required, coll.pageSize, mgr.pages);
          PagesAnswer(mgr.sme.Free(), mgr.pages, |mgr.segments|, n, grows, Ok))
    }

    constructor (coll: Collection, mgr: Manager)
      requires coll.Valid() && mgr.Valid() && coll.exts == map[]
      requires Matched(coll, mgr)
      ensures Valid() && this.coll == coll && this.mgr == mgr && span == map[]
    {
      this.coll, this.mgr, span := coll, mgr, map[];
    }

    /** Adds a segment: refused beyond the map, or when the map has one of its pages allocated. `grows` is whether
        the file could be extended. */
    method ExtendSegments(grows: bool) returns (rc: Rc)
      requires mgr.Valid()
      modifies mgr, mgr.totalFree
      ensures mgr.Valid() && mgr.sme.Free() == old(mgr.sme.Free())
      ensures var start := StartOf(|old(mgr.segments)|, mgr.pages);
              rc == if start + mgr.pages > |mgr.sme.Free()| then NoSpace
                    else if !AllFree(mgr.sme.Free(), start, mgr.pages) then Corrupted
                    else if grows then Ok else IoFailed
      ensures rc != Ok ==> mgr.segments == old(mgr.segments)
      ensures rc == Ok ==>
                |mgr.segments| == |old(mgr.segments)| + 1 && mgr.segments[..|old(mgr.segments)|] == old(mgr.segments)
      ensures rc == Ok ==> fresh(mgr.segments[|old(mgr.segments)|])
    {
      hide Manager.Valid, StartOf;
      ManagerFacts(mgr);
      FirstPage(|mgr.segments|, mgr.pages);
      var begin: nat := StartOf(|mgr.segments|, mgr.pages);
      if begin + mgr.pages > 8 * mgr.sme.mask.Length {
        return NoSpace;
      }
      var clean := CheckFree(begin, begin + mgr.pages);
      if !clean {
        return Corrupted;
      }
      if !grows {
        return IoFailed;
      }
      var deposited := mgr.DepositASegment(begin);
      rc := Ok;
    }

    /** Whether the map shows the pages [begin, end) as free. */
    method CheckFree(begin: nat, end: nat) returns (clean: bool)
      requires begin <= end <= 8 * mgr.sme.mask.Length
      ensures clean <==> AllFree(mgr.sme.Free(), begin, end - begin)
    {
      var i := begin;
      while i < end
        invariant begin <= i <= end && forall p :: begin <= p < i ==> mgr.sme.Free()[p]
      {
        var free := mgr.sme.IsFree(i);
        if !free {
          return false;
        }
        i := i + 1;
      }
      clean := true;
    }

    /** Reserves n pages in a row, in a new segment if no other has them; one new segment always suffices. */
    method FindFreeSpace(n: nat, grows: bool) returns (rc: Rc, found: int)
      requires mgr.Valid() && 1 <= n <= mgr.pages
      modifies mgr, mgr.segments, mgr.freePos, mgr.totalFree, mgr.sme.mask
      ensures mgr.Valid() && Continues(old(mgr.segments), mgr.segments)
      ensures forall j :: |old(mgr.segments)| <= j < |mgr.segments| ==> fresh(mgr.segments[j])
      ensures PagesAnswer(old(mgr.sme.Free()), mgr.pages, |old(mgr.segments)|, n, grows, rc)
      ensures AddsSegment(old(mgr.sme.Free()), mgr.pages, |old(mgr.segments)|, |mgr.segments|, n, rc)
      ensures rc != Ok ==> mgr.sme.Free() == old(mgr.sme.Free())
      ensures rc == Ok ==>
                && FreeAt(old(mgr.sme.Free()), mgr.pages, |mgr.segments|, n, found)
                && (forall j, p :: 0 <= j < |mgr.segments| && RunIn(old(mgr.sme.Free()), mgr.pages, j, p, n) ==>
                     found <= p)
                && mgr.sme.Free() == Marked(old(mgr.sme.Free()), found, n, false)
    {
      hide StartOf, RunIn, Manager.Valid, AllFree;
      var extended := false;
      while true
        invariant mgr.Valid() && mgr.sme.Free() == old(mgr.sme.Free())
        invariant !extended ==> mgr.segments == old(mgr.segments)
        invariant extended ==>
                    && |mgr.segments| == |old(mgr.segments)| + 1
                    && mgr.segments[..|old(mgr.segments)|] == old(mgr.segments)
                    && fresh(mgr.segments[|old(mgr.segments)|])
                    && NoRun(mgr.sme.Free(), mgr.pages, |old(mgr.segments)|, n) && grows
                    && StartOf(|old(mgr.segments)|, mgr.pages) + mgr.pages <= |mgr.sme.Free()|
                    && AllFree(mgr.sme.Free(), StartOf(|old(mgr.segments)|, mgr.pages), mgr.pages)
        decreases !extended
      {
        var reserved;
        reserved, found := mgr.ReservePages(n);
        if found != -1 {
          return Ok, found;
        }
        if extended {
          NewSegmentHasRun(old(mgr.sme.Free()), mgr.pages, |old(mgr.segments)|, n);
          assert false;
        }
        rc := ExtendSegments(grows);
        if rc != Ok {
          return rc, -1;
        }
        extended := true;
      }
    }

    /** Reserves pages, makes them an extent of the collection and carves it. */
    method AllocateExtent(numPages: nat, grows: bool, stale: nat -> Cell)
      returns (rc: Rc, id: int, ghost pieces: seq<nat>)
      requires Valid()
      modifies `span, coll, coll.chain, coll.chain.segFirst, coll.chain.segLast
      modifies mgr, mgr.segments, mgr.freePos, mgr.totalFree, mgr.sme.mask
      ensures Valid() && Continues(old(mgr.segments), mgr.segments)
      ensures forall j :: |old(mgr.segments)| <= j < |mgr.segments| ==> fresh(mgr.segments[j])
      ensures !(1 <= numPages <= mgr.pages) ==> rc == InvalidArg
      ensures 1 <= numPages <= mgr.pages ==>
                AddsSegment(old(mgr.sme.Free()), mgr.pages, |old(mgr.segments)|, |mgr.segments|, numPages, rc)
      ensures rc == Ok ==> mgr.sme.Free() == Marked(old(mgr.sme.Free()), id, numPages, false)
      ensures 1 <= numPages <= mgr.pages ==>
                PagesAnswer(old(mgr.sme.Free()), mgr.pages, |old(mgr.segments)|, numPages, grows, rc)
      ensures rc != Ok ==>
                unchanged(coll) && unchanged(coll.chain) && mgr.sme.Free() == old(mgr.sme.Free()) && span == old(span)
      ensures rc == Ok ==>
                && id >= 0 && id !in old(coll.exts) && span == old(span)[id := numPages]
                && coll.recs == old(coll.recs)[id := []] && coll.exts.Keys == old(coll.exts).Keys + {id}
                && Grown(old(coll.chain.order), coll.chain.order, id) && coll.lost == old(coll.lost)
                && Carved(old(coll.exts), old(coll.lists), coll.exts, coll.lists, id, pieces)
                && (var total: int := PageBytes(numPages, coll.pageSize);
                    && |coll.exts[id].mem| == total && coll.exts[id].freeSpace == total - EXTENT_HEADER
                    && (total <= MAX_RECORD + EXTENT_HEADER || total >= MAX_RECORD + MIN_RECORD + EXTENT_HEADER ==>
                          Offers(coll.exts, coll.lists, AtMost(total - EXTENT_HEADER, MAX_RECORD))))
    {
      hide StartOf, RunIn, Manager.Valid, Collection.ValidWith, Placed, PagesAnswer, FreeAt, Offers, PageBytes, Grown,
           Occupies, PieceRule, Pushed;
      id, pieces := -1, [];
      if numPages > mgr.pages || numPages < 1 {
        return InvalidArg, -1, [];
      }
      ghost var free, count, exts0 := mgr.sme.Free(), |mgr.segments|, coll.exts;
      rc, id := FindFreeSpace(numPages, grows);
      PlacedInMore(exts0, span, coll.pageSize, free, mgr.pages, count, |mgr.segments|);
      if rc != Ok {
        return rc, -1, [];
      }
      PlacedAside(exts0, span, coll.pageSize, free, mgr.pages, |mgr.segments|, id, numPages);
      InSegment(mgr, free, numPages, id, coll.chain.segNum);
      rc, pieces := coll.OpenExtent(numPages, id, stale);
      PlacedWith(exts0, coll.exts, span, coll.pageSize, mgr.sme.Free(), mgr.pages, |mgr.segments|, id, numPages);
      span := span[id := numPages];
    }

    /** Takes the record found on list j off it. */
    method TakeFound(j: nat, i: nat, prev: Rid, rid: Rid)
      requires Valid() && j < SLOTS && |coll.lists| == SLOTS && i < |coll.lists[j]| && rid == coll.lists[j][i]
      requires prev == (if i > 0 then coll.lists[j][i - 1] else NULL_RID)
      modifies coll`exts, coll`deleteList, coll`lists
      ensures ValidWith(Closed(coll.lost).(hole := rid)) && rid != NULL_RID && coll.exts.Keys == old(coll.exts).Keys
      ensures coll.recs == old(coll.recs)
      ensures IsDeadHead(coll.exts, rid) && IsDeadHead(old(coll.exts), rid)
      ensures SizeOf(coll.exts, rid) == SizeOf(old(coll.exts), rid)
      ensures coll.lists == old(coll.lists)[j := DeleteLists.Without(old(coll.lists)[j], i)]
      ensures FreedLess(old(coll.exts), coll.exts, rid.ext, SizeOf(coll.exts, rid))
      ensures SameSizes(old(coll.exts), coll.exts)
    {
      hide Manager.Valid, Placed, Consistent, ChainsOk, ExtentChain.ChainOk;
      ghost var exts0 := coll.exts;
      coll.Unlink(j, prev, rid, i);
      PlacedSame(exts0, coll.exts, span, coll.pageSize, mgr.sme.Free(), mgr.pages, |mgr.segments|);
    }

    /** Looks for a deleted record of at least required bytes and takes it off its list. */
    method TryTake(required: nat, slot: nat) returns (found: bool, rid: Rid)
      requires Valid() && required >= 1 && slot == Slot(required) < SLOTS
      modifies coll`exts, coll`deleteList, coll`lists
      ensures found <==> old(InReach(coll.exts, coll.lists, slot, required))
      ensures !found ==> unchanged(coll) && !Offers(coll.exts, coll.lists, required)
      ensures found ==>
                && ValidWith(Closed(coll.lost).(hole := rid)) && rid != NULL_RID
                && coll.exts.Keys == old(coll.exts).Keys && coll.recs == old(coll.recs)
                && IsDeadHead(coll.exts, rid) && SizeOf(coll.exts, rid) >= required
                && IsFirstFit(old(coll.exts), old(coll.lists), slot, required, rid)
                && FreedLess(old(coll.exts), coll.exts, rid.ext, SizeOf(coll.exts, rid))
                && SameSizes(old(coll.exts), coll.exts)
    {
      hide Manager.Valid, Collection.ValidWith, Placed, FirstFit, Offers, InReach, FreedLess, Slot, PlacedOk, Matched;
      SearchFacts(coll);
      var j, i, prev;
      found, j, i, prev, rid := coll.Search(required, slot);
      if found {
        assert FirstFit(coll.exts, coll.lists, slot, required, j, i) && coll.lists[j][i] == rid;
        TakeFound(j, i, prev, rid);
      } else if Offers(coll.exts, coll.lists, required) {
        OfferIsFound(coll.exts, coll.deleteList, coll.lists, coll.lost, required);
        assert false;
      }
    }

    /** Adds an extent that has room for required bytes. */
    method Grow(required: nat, grows: bool, stale: nat -> Cell)
      returns (rc: Rc, id: int, ghost n: nat, ghost pieces: seq<nat>)
      requires Valid() && 1 <= required <= MAX_RECORD
      modifies `span, coll, coll.chain, coll.chain.segFirst, coll.chain.segLast
      modifies mgr, mgr.segments, mgr.freePos, mgr.totalFree, mgr.sme.mask
      ensures Valid() && Continues(old(mgr.segments), mgr.segments)
      ensures forall j :: |old(mgr.segments)| <= j < |mgr.segments| ==> fresh(mgr.segments[j])
      ensures rc != Ok ==> rc != Sys && PagesRefused(old(mgr.sme.Free()), mgr.pages, |old(mgr.segments)|, n, grows, rc)
      ensures coll.pageSize >= 1 && n == PagesFor(required, coll.pageSize, mgr.pages)
      ensures rc == Ok <==> PagesAnswer(old(mgr.sme.Free()), mgr.pages, |old(mgr.segments)|, n, grows, Ok)
      ensures AddsSegment(old(mgr.sme.Free()), mgr.pages, |old(mgr.segments)|, |mgr.segments|, n, rc)
      ensures mgr.sme.Free() ==
                (if rc == Ok then Marked(old(mgr.sme.Free()), id, n, false) else old(mgr.sme.Free()))
      ensures rc != Ok ==> unchanged(coll) && unchanged(coll.chain) && span == old(span)
      ensures rc == Ok ==>
                && id >= 0 && id !in old(coll.exts) && Offers(coll.exts, coll.lists, required)
                && coll.recs == old(coll.recs)[id := []] && coll.exts.Keys == old(coll.exts).Keys + {id}
                && Grown(old(coll.chain.order), coll.chain.order, id) && coll.lost == old(coll.lost)
                && Carved(old(coll.exts), old(coll.lists), coll.exts, coll.lists, id, pieces)
    {
      hide Manager.Valid, Collection.ValidWith, Placed, PagesAnswer, Offers, Grown, PageBytes, PlacedOk, PagesFor,
           Carved;
      SearchFacts(coll);
      var reqPages := coll.ReqPages(required);
      n := reqPages;
      ghost var free, count := mgr.sme.Free(), |mgr.segments|;
      rc, id, pieces := AllocateExtent(reqPages, grows, stale);
      AnswerIs(free, mgr.pages, count, n, grows, rc);
      if rc == Ok {
        OfferWeakens(coll.exts, coll.lists,
                     if coll.exts[id].freeSpace < MAX_RECORD then coll.exts[id].freeSpace else MAX_RECORD, required);
      }
    }

    /** Finds room for required bytes, in a new extent if need be; after one new extent the search must succeed. `id` is
        that extent, or -1; `n` is how many pages were asked for when nothing was found; `seen` and `seenLists` are the
        extents and lists that were searched. */
    method AllocRecordSpace(required: nat, grows: bool, stale: nat -> Cell)
      returns (rc: Rc, rid: Rid, ghost id: int, ghost n: nat, ghost seen: Extents, ghost seenLists: seq<seq<Rid>>)
      requires Valid() && required >= 1
      modifies `span, coll, coll.chain, coll.chain.segFirst, coll.chain.segLast
      modifies mgr, mgr.segments, mgr.freePos, mgr.totalFree, mgr.sme.mask
      ensures Continues(old(mgr.segments), mgr.segments)
      ensures forall j :: |old(mgr.segments)| <= j < |mgr.segments| ==> fresh(mgr.segments[j])
      ensures rc == Sys <==> required > MAX_RECORD
      ensures rc == Ok <==> required <= MAX_RECORD && old(RoomFor(required, grows))
      ensures rc == Ok || rc == Sys || PagesRefused(old(mgr.sme.Free()), mgr.pages, |old(mgr.segments)|, n, grows, rc)
      ensures rc != Ok ==> Valid() && unchanged(coll) && unchanged(coll.chain) && span == old(span)
      ensures rc == Ok ==>
                && ValidWith(Closed(coll.lost).(hole := rid)) && rid != NULL_RID && IsDeadHead(coll.exts, rid)
                && SizeOf(coll.exts, rid) >= required
                && coll.lost == old(coll.lost)
                && OneMore(old(coll.exts.Keys), coll.exts.Keys, old(coll.recs), coll.recs, old(coll.chain.order),
                     coll.chain.order, id)
                && Saw(old(coll.exts), old(coll.lists), seen, seenLists, id)
                && Chosen(seen, seenLists, coll.exts, id, rid, required)
                && (id < 0 <==> old(InReach(coll.exts, coll.lists, Slot(required), required)))
      ensures rc == Ok ==>
                PagesUsed(old(mgr.sme.Free()), mgr.sme.Free(), mgr.pages, |old(mgr.segments)|, |mgr.segments|, id, n)
      ensures rc != Ok ==> mgr.sme.Free() == old(mgr.sme.Free()) && mgr.segments == old(mgr.segments)
    {
      hide Manager.Valid, Collection.ValidWith, PlacedOk, Matched, PagesRefused, PagesAnswer, Offers, InReach, Grown,
           NoRun, Slot, PagesFor, Carved, IsFirstFit, FreedLess;
      rid, id, n, seen, seenLists := NULL_RID, -1, 0, coll.exts, coll.lists;
      ghost var pieces := [];
      var slot := SlotOf(required);
      SlotsSuffice(required);
      if slot >= SLOTS {
        return Sys, NULL_RID, -1, 0, seen, seenLists;
      }
      ListedInExtents(coll);
      while true
        invariant Valid() && Continues(old(mgr.segments), mgr.segments)
        invariant forall j :: |old(mgr.segments)| <= j < |mgr.segments| ==> fresh(mgr.segments[j])
        invariant OneMore(old(coll.exts.Keys), coll.exts.Keys, old(coll.recs), coll.recs, old(coll.chain.order),
                    coll.chain.order, id)
        invariant coll.lost == old(coll.lost) && seen == coll.exts && seenLists == coll.lists
        invariant if id >= 0 then Offers(coll.exts, coll.lists, required) && old(RoomFor(required, grows)) else
                    && unchanged(coll) && unchanged(coll.chain) && span == old(span)
                    && mgr.segments == old(mgr.segments) && mgr.sme.Free() == old(mgr.sme.Free())
        invariant id >= 0 ==> !old(InReach(coll.exts, coll.lists, Slot(required), required))
        invariant id >= 0 ==> Carved(old(coll.exts), old(coll.lists), seen, seenLists, id, pieces)
        invariant PagesUsed(old(mgr.sme.Free()), mgr.sme.Free(), mgr.pages, |old(mgr.segments)|, |mgr.segments|, id, n)
        decreases id < 0
      {
        var found;
        found, rid := TryTake(required, slot);
        if found {
          if id >= 0 {
            FoundInCarved(old(coll.exts), old(coll.lists), seen, seenLists, id, pieces, slot, required, rid);
          }
          return Ok, rid, id, n, seen, seenLists;
        }
        if id >= 0 {
          assert false;
        }
        rc, id, n, pieces := Grow(required, grows, stale);
        seen, seenLists := coll.exts, coll.lists;
        if rc != Ok {
          return rc, NULL_RID, -1, n, seen, seenLists;
        }
      }
    }

    /** Inserts one record; on success its bytes are one more entry at the end of one extent's chain. Data of fewer than
        five bytes is refused only after its space was taken: that space is then lost. */
    method InsertRecord(d: seq<Byte>, need: nat, grows: bool, stale: nat -> Cell)
      returns (rc: Rc, rid: Rid, ghost id: int, ghost n: nat)
      requires Valid() && RECORD_HEADER + |d| <= need <= MAX_RECORD
      modifies `span, coll, coll.chain, coll.chain.segFirst, coll.chain.segLast
      modifies mgr, mgr.segments, mgr.freePos, mgr.totalFree, mgr.sme.mask
      ensures Valid() && Continues(old(mgr.segments), mgr.segments)
      ensures forall j :: |old(mgr.segments)| <= j < |mgr.segments| ==> fresh(mgr.segments[j])
      ensures rc == TooBig <==> |d| + 16 > 0x100_0000 - 4096
      ensures rc == Ok <==> |d| + 16 <= 0x100_0000 - 4096 && |d| >= 5 && old(RoomFor(need, grows))
      ensures rc == InvalidArg <==> |d| < 5 && old(RoomFor(need, grows))
      ensures rc in {Ok, TooBig, InvalidArg} ||
              PagesRefused(old(mgr.sme.Free()), mgr.pages, |old(mgr.segments)|, n, grows, rc)
      ensures rc == Ok ==>
                && id !in old(coll.recs) && coll.lost == old(coll.lost)
                && Inserts(old(coll.chain.order), old(coll.recs), coll.chain.order, coll.recs, id, rid, d)
                && Placement(old(coll.exts), old(coll.lists), coll.exts, id, rid, need)
                && (id < 0 <==> old(InReach(coll.exts, coll.lists, Slot(need), need)))
      ensures rc == InvalidArg ==>
                && coll.lost != [] && coll.lost[0].rid == rid && coll.lost[1..] == old(coll.lost)
                && id !in old(coll.recs)
                && OneMore(old(coll.recs.Keys), coll.recs.Keys, old(coll.recs), coll.recs, old(coll.chain.order),
                     coll.chain.order, id)
      ensures rc != Ok && rc != InvalidArg ==> unchanged(coll) && unchanged(coll.chain) && span == old(span)
      ensures Whole() <==> old(Whole()) && (|d| >= 5 || !old(RoomFor(need, grows)))
    {
      hide Manager.Valid, Collection.ValidWith, PlacedOk, PagesAnswer, Matched, OneMore, Inserts, RoomFor, Saw, Chosen,
           Settled, Placement, InReach, Slot;
      WholeExactly(this);
      rid, id, n := NULL_RID, -1, 0;
      if |d| + RECORD_HEADER > USER_MAX {
        return TooBig, NULL_RID, -1, 0;
      }
      KeysAgree(coll, Closed(coll.lost));
      ghost var seen, seenLists;
      rc, rid, id, n, seen, seenLists := AllocRecordSpace(need, grows, stale);
      if rc != Ok {
        WholeExactly(this);
        return;
      }
      KeysAgree(coll, Closed(coll.lost).(hole := rid));
      ghost var recs, exts, lists := coll.recs, coll.exts, coll.lists;
      rc := Place(rid, d, need);
      IdIsNew(old(coll.exts.Keys), coll.exts.Keys, old(coll.recs), recs, old(coll.chain.order), coll.chain.order, id);
      if rc == Ok {
        InsertsOne(old(coll.exts.Keys), coll.exts.Keys, old(coll.recs), recs, coll.recs, old(coll.chain.order),
                   coll.chain.order, id, rid, d);
        PlacementHolds(old(coll.exts), old(coll.lists), seen, seenLists, exts, lists, coll.exts, coll.lists, id, rid,
                       need);
      }
      WholeExactly(this);
    }

    /** Fills the space that was found, or gives it up. */
    method Place(rid: Rid, d: seq<Byte>, need: nat) returns (rc: Rc)
      requires ValidWith(Closed(coll.lost).(hole := rid)) && rid != NULL_RID && RECORD_HEADER + |d| <= need
      requires IsDeadHead(coll.exts, rid) && SizeOf(coll.exts, rid) >= need
      modifies coll`exts, coll`deleteList, coll`lists, coll`recs, coll`lost
      ensures Valid() && rc == (if |d| < MIN_DATA then InvalidArg else Ok) && coll.exts.Keys == old(coll.exts.Keys)
      ensures rc == Ok ==> rid.ext in old(coll.recs) && coll.lost == old(coll.lost)
      ensures rc == Ok ==> Settled(old(coll.exts), old(coll.lists), coll.exts, coll.lists, rid, need)
      ensures rc == Ok ==> SameSizes(old(coll.exts), coll.exts)
      ensures rc == Ok ==> coll.recs == old(coll.recs)[rid.ext := old(coll.recs)[rid.ext] + [Rec(rid.off, d)]]
      ensures rc != Ok ==> coll.recs == old(coll.recs) && coll.exts == old(coll.exts)
      ensures rc != Ok ==> coll.lost == [Lost(rid, SizeOf(coll.exts, rid))] + old(coll.lost)
    {
      hide Manager.Valid, Placed, Consistent, ChainsOk, ExtentChain.ChainOk, ExtentChain.Geometry, Matched, Settled;
      ghost var exts0 := coll.exts;
      rc := coll.ExtentInsertRecord(rid, d, need);
      if rc == Ok {
        PlacedSame(exts0, coll.exts, span, coll.pageSize, mgr.sme.Free(), mgr.pages, |mgr.segments|);
      } else {
        coll.Abandon(rid);
      }
    }
  }

  /** Where the record is and what it took: the first fit of the lists as they were, or of the new extent; what it needs
      and at most 36 bytes more, and exactly that went from the free space of its extent. */
  ghost predicate Placement(exts: Extents, lists: seq<seq<Rid>>, exts': Extents, id: int, rid: Rid, need: nat)
    requires need >= 1
  {
    && Look(exts', rid).Head? && Look(exts', rid).h.Live? && need <= SizeOf(exts', rid) <= need + 36
    && (id < 0 ==> IsFirstFit(exts, lists, Slot(need), need, rid))
    && (id >= 0 ==> rid.ext == id && id in exts' && id !in exts)
    && (forall j :: j in exts ==>
          j in exts' && exts'[j].freeSpace == exts[j].freeSpace - if j == rid.ext then SizeOf(exts', rid) else 0)
    && (id >= 0 && id in exts' ==> exts'[id].freeSpace == |exts'[id].mem| - 36 - SizeOf(exts', rid))
  }

  lemma PlacementHolds(exts: Extents, lists: seq<seq<Rid>>, seen: Extents, seenLists: seq<seq<Rid>>, taken: Extents,
                       takenLists: seq<seq<Rid>>, exts': Extents, lists': seq<seq<Rid>>, id: int, rid: Rid, need: nat)
    requires need >= 1 && Saw(exts, lists, seen, seenLists, id) && Chosen(seen, seenLists, taken, id, rid, need)
    requires Settled(taken, takenLists, exts', lists', rid, need) && SameSizes(taken, exts')
    ensures Placement(exts, lists, exts', id, rid, need)
  {
    hide IsFirstFit, PieceRule, Pushed, Slot, PushOne;
  }

  /** The listed records lie in extents that exist. */
  lemma ListedInExtents(coll: Collection)
    requires coll.Valid()
    ensures forall k, i :: 0 <= k < |coll.lists| && 0 <= i < |coll.lists[k]| ==> coll.lists[k][i].ext in coll.exts
  {
    hide ExtentChain.ChainOk, ExtentChain.Geometry, Linked, Distinct, FreeOk, LinksOk, Slot, Tiled, Reaches;
    forall k, i | 0 <= k < |coll.lists| && 0 <= i < |coll.lists[k]| ensures coll.lists[k][i].ext in coll.exts {
      assert Belongs(coll.exts, Closed(coll.lost), coll.lists[k][i], k);
    }
  }

  lemma FoundInCarved(exts: Extents, lists: seq<seq<Rid>>, seen: Extents, seenLists: seq<seq<Rid>>, id: int,
                      pieces: seq<nat>, slot: nat, required: int, rid: Rid)
    requires Carved(exts, lists, seen, seenLists, id, pieces) && !InReach(exts, lists, slot, required)
    requires forall k, i :: 0 <= k < |lists| && 0 <= i < |lists[k]| ==> lists[k][i].ext in exts
    requires IsFirstFit(seen, seenLists, slot, required, rid)
    ensures rid.ext == id
  {
    hide IsFirstFit, InReach, Pushed, PieceRule;
    FoundInNew(exts, lists, seen, id, EXTENT_HEADER, pieces, slot, required, rid);
  }

  lemma IdIsNew(keys: set<int>, keys': set<int>, recs: Records, recs': Records, order: seq<int>, order': seq<int>,
                id: int)
    requires OneMore(keys, keys', recs, recs', order, order', id) && keys == recs.Keys && -1 !in recs
    ensures id !in recs
  {
  }

  /** Where byte o of extent id lies in the data part of the file. */
  function Address(id: int, o: int, pageSize: nat): int {
    id * pageSize + o
  }

  /** No byte of the file belongs to two extents. */
  lemma BytesApart(u: Unit, a: int, o: int, b: int, p: int)
    requires u.Valid() && a in u.coll.exts && b in u.coll.exts
    requires 0 <= o < |u.coll.exts[a].mem| && 0 <= p < |u.coll.exts[b].mem|
    ensures Address(a, o, u.coll.pageSize) == Address(b, p, u.coll.pageSize) <==> a == b && o == p
  {
    hide Manager.Valid, Collection.ValidWith, Occupies, Address, PageBytes;
    if a < b {
      SpansApart(u.coll.exts, u.span, u.coll.pageSize, u.mgr.sme.Free(), u.mgr.pages, |u.mgr.segments|, a, b);
      AddressBelow(a, o, u.span[a], b, p, u.coll.pageSize);
    } else if b < a {
      SpansApart(u.coll.exts, u.span, u.coll.pageSize, u.mgr.sme.Free(), u.mgr.pages, |u.mgr.segments|, b, a);
      AddressBelow(b, p, u.span[b], a, o, u.coll.pageSize);
    } else {
      AddressIs(a, o, p, u.coll.pageSize);
    }
  }

  lemma SpansApart(exts: Extents, span: map<int, nat>, pageSize: nat, free: seq<bool>, pages: nat, count: nat, a: int,
                   b: int)
    requires Placed(exts, span, pageSize, free, pages, count) && a in exts && b in exts && a < b
    ensures a in span && |exts[a].mem| == PageBytes(span[a], pageSize) && a + span[a] <= b
  {
    hide PageBytes, Occupies;
    assert Before(span, a, b);
  }

  lemma AddressIs(a: int, o: int, p: int, pageSize: nat)
    ensures Address(a, o, pageSize) == Address(a, p, pageSize) <==> o == p
  {
  }

  lemma AddressBelow(a: int, o: int, n: nat, b: int, p: int, pageSize: nat)
    requires o < PageBytes(n, pageSize) && a + n <= b && p >= 0
    ensures Address(a, o, pageSize) < Address(b, p, pageSize)
  {
    assert PageBytes(n, pageSize) == n * pageSize;
    assert (a + n) * pageSize == a * pageSize + n * pageSize;
    assert (b - a - n) * pageSize >= 0;
    assert (b - a - n) * pageSize == b * pageSize - (a + n) * pageSize;
  }

  lemma InsertsOne(keys: set<int>, keys': set<int>, recs0: Records, recs1: Records, recs2: Records,
                   order: seq<int>, order': seq<int>, id: int, rid: Rid, d: seq<Byte>)
    requires OneMore(keys, keys', recs0, recs1, order, order', id) && keys == recs0.Keys && keys' == recs1.Keys
    requires -1 !in recs1
    requires rid.ext in recs1 && recs2 == recs1[rid.ext := recs1[rid.ext] + [Rec(rid.off, d)]]
    ensures Inserts(order, recs0, order', recs2, id, rid, d) && id !in recs0
  {
    hide Grown;
  }

  lemma KeysAgree(coll: Collection, g: Gap)
    requires coll.ValidWith(g)
    ensures coll.recs.Keys == coll.exts.Keys && -1 !in coll.recs
  {
    hide ExtentChain.ChainOk, ExtentChain.Geometry, Linked, Distinct, FreeOk, ListedOk, LinksOk;
  }

  /** A deleted record that is on no list leaves the space inconsistent. */
  lemma LostIsMissing(exts: Extents, heads: seq<Rid>, lists: seq<seq<Rid>>, lost: seq<Lost>)
    requires Consistent(exts, heads, lists, Closed(lost)) && lost != []
    ensures !Consistent(exts, heads, lists, Closed([]))
  {
    hide Linked, Distinct, FreeOk, TilesOk, Tiled, Reaches, Slot;
    var rid := lost[0].rid;
    assert ListedAt(exts, Closed(lost), rid) && IsLost(lost, rid);
    RecordIsTile(exts, Closed(lost), rid);
    SlotsSuffice(SizeOf(exts, rid));
    var k := Slot(SizeOf(exts, rid));
    assert Limit(exts, Closed([]), rid.ext) == Limit(exts, Closed(lost), rid.ext);
    assert RecordAt(exts, Closed([]), rid);
    assert Belongs(exts, Closed([]), rid, k) && !Belongs(exts, Closed(lost), rid, k);
    assert rid in lists[k] <==> Belongs(exts, Closed(lost), rid, k);
  }

  /** A valid unit is whole exactly when nothing was lost. */
  lemma WholeExactly(u: Unit)
    requires u.Valid()
    ensures u.Whole() <==> u.coll.lost == []
  {
    hide Manager.Valid, Placed, Consistent, ChainsOk, ExtentChain.ChainOk, ExtentChain.Geometry, Matched;
    if u.coll.lost != [] {
      LostIsMissing(u.coll.exts, u.coll.deleteList, u.coll.lists, u.coll.lost);
    }
  }

  lemma ManagerFacts(mgr: Manager)
    requires mgr.Valid()
    ensures mgr.pages >= 1 && 0 <= StartOf(|mgr.segments|, mgr.pages) <= |mgr.sme.Free()|
  {
  }

  /** Reserved pages lie in a segment that the chain knows. */
  lemma InSegment(mgr: Manager, free: seq<bool>, n: nat, id: int, segNum: nat)
    requires mgr.Valid() && n >= 1 && FreeAt(free, mgr.pages, |mgr.segments|, n, id)
    requires |mgr.sme.Free()| == StartOf(segNum, mgr.pages)
    ensures id >= 0 && id / mgr.pages < segNum
  {
    hide StartOf;
    var j :| 0 <= j < |mgr.segments| && RunIn(free, mgr.pages, j, id, n);
    SegmentOf(id, j, mgr.pages);
    StartsOrdered(j, |mgr.segments|, mgr.pages);
    StartsOrdered(segNum, |mgr.segments|, mgr.pages);
  }

  lemma FirstPage(k: nat, pages: nat)
    requires pages >= 1
    ensures StartOf(k, pages) >= 0 && StartOf(k, pages) / pages == k && StartOf(k, pages) % pages == 0
  {
    StartsOrdered(k, k, pages);
    var q := StartOf(k, pages) / pages;
    ByDivision(StartOf(k, pages), pages);
    if q < k { StartsOrdered(q, k, pages); }
    if k < q { StartsOrdered(k, q, pages); }
  }

  lemma NewSegmentHasRun(free: seq<bool>, pages: nat, k: nat, n: nat)
    requires pages >= 1 && n <= pages && AllFree(free, StartOf(k, pages), pages)
    ensures RunIn(free, pages, k, StartOf(k, pages), n)
  {
  }
}

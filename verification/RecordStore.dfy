// A collection's record space: finding, carving and splitting deleted records, and inserting into them.
module RecordStore {
  import opened DeleteSlots
  import opened ExtentBody
  import opened DeleteLists
  import opened RecordChain
  import opened RecordSpace
  import opened RecordInsert
  import ExtentChain

  datatype Rc = Ok | InvalidArg | Sys | NoSpace | TooBig | Corrupted | IoFailed

  const BEST_EXTENT: nat := 0x100_0000
  const USER_MAX: nat := MAX_RECORD - 4096
  const MAX_SEARCH: nat := 3

  /** A deleted record's header written over whatever was at r. */
  function HeadWritten(exts: Extents, r: Rid, size: nat): Extents
    requires r.ext in exts && 0 <= r.off && r.off + RECORD_HEADER <= |exts[r.ext].mem|
  {
    exts[r.ext := exts[r.ext].(mem := WriteHead(exts[r.ext].mem, r.off, Dead(size, r.off, NULL_RID)))]
  }

  /** Some deleted record of at least size bytes is among the first two of its list. */
  ghost predicate Offers(exts: Extents, lists: seq<seq<Rid>>, size: int) {
    exists k, i :: 0 <= k < |lists| && 0 <= i < 2 && i < |lists[k]| && IsDeadHead(exts, lists[k][i]) &&
        SizeOf(exts, lists[k][i]) >= size
  }

  /** Byte i is among the n data bytes of the record at o. */
  predicate InData(i: int, o: int, n: nat) {
    o + RECORD_HEADER <= i < o + RECORD_HEADER + n
  }

  function AtMost(n: int, limit: int): int {
    if n < limit then n else limit
  }

  /** The same extents, each as long as before. */
  ghost predicate SameSizes(exts: Extents, exts': Extents) {
    exts'.Keys == exts.Keys && forall id :: id in exts ==> |exts'[id].mem| == |exts[id].mem|
  }

  lemma SizesCompose(a: Extents, b: Extents, c: Extents)
    requires SameSizes(a, b) && SameSizes(b, c)
    ensures SameSizes(a, c) && a.Keys == c.Keys && forall id :: id in a ==> |c[id].mem| == |a[id].mem|
  {
  }

  lemma ZeroedSizes(exts: Extents, id: int)
    requires id in exts
    ensures SameSizes(exts, Zeroed(exts, id)) && SameSizes(exts, exts)
  {
  }

  /** A large enough deleted record is among the first three of a list from the slot up. */
  ghost predicate InReach(exts: Extents, lists: seq<seq<Rid>>, slot: nat, required: int) {
    exists k, n :: slot <= k < |lists| && 0 <= n < MAX_SEARCH && n < |lists[k]| && Suits(exts, lists[k][n], required)
  }

  predicate Suits(exts: Extents, r: Rid, required: int) {
    IsDeadHead(exts, r) && SizeOf(exts, r) >= required
  }

  /** Entry i of list j is the first that suits: no earlier list from the slot up has a suitable one among its first
      three, and neither has list j in front of it. */
  ghost predicate FirstFit(exts: Extents, lists: seq<seq<Rid>>, slot: nat, required: int, j: nat, i: nat) {
    && slot <= j < |lists| && i < 3 && i < |lists[j]| && Suits(exts, lists[j][i], required)
    && forall k, n :: slot <= k <= j && 0 <= n < 3 && n < |lists[k]| && (k < j || n < i) ==>
         !Suits(exts, lists[k][n], required)
  }

  /** r is what the search finds. */
  ghost predicate IsFirstFit(exts: Extents, lists: seq<seq<Rid>>, slot: nat, required: int, r: Rid) {
    exists j: nat, i: nat :: FirstFit(exts, lists, slot, required, j, i) && lists[j][i] == r
  }

  /** r at the front of the list for its size. */
  function PushOne(lists: seq<seq<Rid>>, r: Rid, size: nat): (l: seq<seq<Rid>>)
    ensures |l| == |lists|
  {
    if size >= 1 && Slot(size) < |lists| then lists[Slot(size) := [r] + lists[Slot(size)]] else lists
  }

  function Sum(pieces: seq<nat>): nat {
    if pieces == [] then 0 else Sum(pieces[..|pieces| - 1]) + pieces[|pieces| - 1]
  }

  /** The lists after pieces of extent id from off on were pushed one after the other. */
  function Pushed(lists: seq<seq<Rid>>, id: int, off: int, pieces: seq<nat>): (l: seq<seq<Rid>>)
    ensures |l| == |lists|
  {
    if pieces == [] then lists
    else
      var front := pieces[..|pieces| - 1];
      PushOne(Pushed(lists, id, off, front), Rid(id, off + Sum(front)), pieces[|pieces| - 1])
  }

  /** How free space is cut: pieces of 36 bytes to 16 MB that add up to it, all of 16 MB but the last; only when 16 MB
      and fewer than 36 bytes more are left, they become 4 KB and the rest. */
  ghost predicate PieceRule(total: int, pieces: seq<nat>) {
    && Sum(pieces) == total && (forall i :: 0 <= i < |pieces| ==> 36 <= pieces[i] <= 0x100_0000)
    && forall i :: 0 <= i < |pieces| - 1 ==>
         pieces[i] == 0x100_0000 ||
         (i == |pieces| - 2 && pieces[i] == 4096 && 0x100_0000 < pieces[i] + pieces[i + 1] < 0x100_0000 + 36)
  }

  lemma PushedNext(lists: seq<seq<Rid>>, id: int, off: int, pieces: seq<nat>, p: nat)
    ensures Sum(pieces + [p]) == Sum(pieces) + p
    ensures Pushed(lists, id, off, pieces + [p]) ==
              PushOne(Pushed(lists, id, off, pieces), Rid(id, off + Sum(pieces)), p)
  {
    hide PushOne;
    assert (pieces + [p])[..|pieces|] == pieces;
  }

  /** What was pushed comes in front of what was there. */
  lemma {:induction false} PushedEntries(lists: seq<seq<Rid>>, id: int, off: int, pieces: seq<nat>, k: nat)
    returns (m: nat)
    requires k < |lists|
    ensures var l := Pushed(lists, id, off, pieces)[k];
            m <= |l| && l[m..] == lists[k] && forall i :: 0 <= i < m ==> l[i].ext == id
    decreases |pieces|
  {
    m := 0;
    if pieces != [] {
      var n := |pieces| - 1;
      var front := pieces[..n];
      m := PushedEntries(lists, id, off, front, k);
      if pieces[n] >= 1 && Slot(pieces[n]) == k {
        m := m + 1;
        assert Pushed(lists, id, off, pieces)[k][1..] == Pushed(lists, id, off, front)[k];
      }
    }
  }

  lemma ReachedAt(exts: Extents, lists: seq<seq<Rid>>, slot: nat, required: int, j: nat, n: nat)
    requires slot <= j < |lists| && n < 3 && n < |lists[j]| && Suits(exts, lists[j][n], required)
    ensures InReach(exts, lists, slot, required)
  {
  }

  lemma Behind(l: seq<Rid>, m: nat, rest: seq<Rid>)
    requires m <= |l| && l[m..] == rest
    ensures forall i :: m <= i < |l| ==> l[i] == rest[i - m]
  {
    assert forall i :: m <= i < |l| ==> l[i] == l[m..][i - m];
  }

  /** If nothing was in reach before the extent id was carved, what is found afterwards lies in it. */
  lemma FoundInNew(exts: Extents, lists: seq<seq<Rid>>, exts': Extents, id: int, off: int, pieces: seq<nat>,
                   slot: nat, required: int, r: Rid)
    requires !InReach(exts, lists, slot, required) && forall j :: j in exts && j != id ==>
               j in exts' && exts'[j] == exts[j]
    requires forall k, i :: 0 <= k < |lists| && 0 <= i < |lists[k]| ==> lists[k][i].ext in exts && lists[k][i].ext != id
    requires IsFirstFit(exts', Pushed(lists, id, off, pieces), slot, required, r)
    ensures r.ext == id
  {
    hide Pushed, Slot, InReach;
    var l := Pushed(lists, id, off, pieces);
    var j: nat, i: nat :| FirstFit(exts', l, slot, required, j, i) && l[j][i] == r;
    var m := PushedEntries(lists, id, off, pieces, j);
    Behind(l[j], m, lists[j]);
    if m <= i {
      ReachedAt(exts, lists, slot, required, j, i - m);
    }
  }

  /** How many pages an extent gets that is to hold a record of the required size. */
  function PagesFor(required: nat, pageSize: nat, pages: nat): nat
    requires pageSize >= 1
  {
    var expand := required * 16;
    var size := if expand <= BEST_EXTENT then expand else if required < BEST_EXTENT then BEST_EXTENT else required;
    var n := (size + EXTENT_HEADER + pageSize - 1) / pageSize;
    var m := if n > pages then pages else n;
    if m < 1 then 1 else m
  }

  class Collection {
    const pageSize: nat
    const chain: ExtentChain.Chain
    var exts: Extents
    var deleteList: seq<Rid>
    ghost var lists: seq<seq<Rid>>
    ghost var recs: Records
    ghost var lost: seq<Lost>

    ghost predicate ValidBut(g: Gap)
      reads this
    {
      Consistent(exts, deleteList, lists, g) && ChainsOk(exts, g, recs)
    }

    /** The record space is consistent, with nothing in progress. */
    ghost predicate Tidy()
      reads this
    {
      ValidBut(Closed(lost))
    }

    ghost predicate ValidWith(g: Gap)
      reads this, chain, chain.segFirst, chain.segLast
    {
      && ValidBut(g) && chain.Valid() && chain.links.Keys == exts.Keys
      && ExtentChain.Geometry(pageSize, chain.pages, chain.segNum, chain.stride)
    }

    ghost predicate Valid()
      reads this, chain, chain.segFirst, chain.segLast
    {
      ValidWith(Closed(lost))
    }

    constructor (pageSize: nat, chain: ExtentChain.Chain)
      requires chain.Valid() && chain.order == []
      requires ExtentChain.Geometry(pageSize, chain.pages, chain.segNum, chain.stride)
      ensures Valid() && exts == map[] && recs == map[] && lost == [] && this.pageSize == pageSize
      ensures this.chain == chain
    {
      this.pageSize, this.chain := pageSize, chain;
      exts, recs, lost := map[], map[], [];
      deleteList := seq(SLOTS, i => NULL_RID);
      lists := seq(SLOTS, i => []);
      new;
      assert forall id :: id !in chain.links;
    }

    /** Writes a deleted record at rid and puts it on the list of its slot. */
    method SaveDeletedRecord(rid: Rid, size: nat)
      requires rid.ext in exts && 0 <= rid.off && rid.off + RECORD_HEADER <= |exts[rid.ext].mem|
      requires 1 <= size <= MAX_RECORD && |deleteList| == |lists| == SLOTS
      modifies `exts, `deleteList, `lists
      ensures Slot(size) < SLOTS
      ensures exts == LinkedExts(HeadWritten(old(exts), rid, size), old(deleteList), rid, Slot(size))
      ensures deleteList == old(deleteList)[Slot(size) := rid]
      ensures lists == old(lists)[Slot(size) := [rid] + old(lists)[Slot(size)]]
    {
      var e := exts[rid.ext];
      e := e.(mem := WriteHead(e.mem, rid.off, Dead(size, rid.off, NULL_RID)));
      e := e.(freeSpace := e.freeSpace + size);
      var slot := SlotOf(size);
      SlotsSuffice(size);
      e := e.(mem := e.mem[rid.off := Head(e.mem[rid.off].h.(nextRid := deleteList[slot]))]);
      exts := exts[rid.ext := e];
      deleteList := deleteList[slot := rid];
      lists := lists[slot := [rid] + lists[slot]];
    }

    /** Carves one more deleted record off the open end of extent id. */
    method CarvePiece(id: int, upto: nat, size: nat)
      requires ValidBut(Gap(NULL_RID, id, upto, lost)) && id in exts
      requires MIN_RECORD <= size <= MAX_RECORD && upto + size <= |exts[id].mem|
      modifies `exts, `deleteList, `lists
      ensures ValidBut(Gap(NULL_RID, id, upto + size, lost)) && recs == old(recs)
      ensures Slot(size) < SLOTS && |old(lists)| == SLOTS
      ensures lists == old(lists)[Slot(size) := [Rid(id, upto)] + old(lists)[Slot(size)]]
      ensures lists == PushOne(old(lists), Rid(id, upto), size)
      ensures exts.Keys == old(exts).Keys && (forall j :: j in exts && j != id ==> exts[j] == old(exts)[j])
      ensures exts[id].freeSpace == old(exts)[id].freeSpace + size && |exts[id].mem| == |old(exts)[id].mem|
      ensures SameSizes(old(exts), exts)
      ensures IsDeadHead(exts, Rid(id, upto)) && SizeOf(exts, Rid(id, upto)) == size
      ensures forall k, i :: 0 <= k < SLOTS && 0 <= i < |old(lists)[k]| ==>
                Look(exts, old(lists)[k][i]) == Look(old(exts), old(lists)[k][i])
    {
      hide Tiled, Reaches, DeadSum, Linked, Distinct, TilesOk, FreeOk, RecordAt, ChainsOk, Slot;
      ghost var g, r := Gap(NULL_RID, id, upto, lost), Rid(id, upto);
      ghost var g1 := Gap(r, id, upto + size, lost);
      CarveKeeps(exts, deleteList, lists, g, size);
      CarveChains(exts, deleteList, lists, g, recs, size);
      ghost var mid := CarvedExts(exts, g, size);
      assert mid == HeadWritten(exts, r, size);
      LinkKeeps(mid, deleteList, lists, g1);
      LinkChains(mid, deleteList, lists, g1, recs, Slot(size));
      forall k, i | 0 <= k < SLOTS && 0 <= i < |lists[k]| ensures lists[k][i].ext != id || lists[k][i].off < upto {
        assert Belongs(exts, g, lists[k][i], k);
        RecordIsTile(exts, g, lists[k][i]);
      }
      SaveDeletedRecord(Rid(id, upto), size);
    }

    /** Cuts the free space at the end of extent id into deleted records of 36 bytes to 16 MB. */
    method MapExtentToDelList(id: int) returns (ghost pieces: seq<nat>)
      requires id in exts && 0 <= exts[id].freeSpace <= |exts[id].mem|
      requires Consistent(Zeroed(exts, id), deleteList, lists, OpenAt(exts, id, lost))
      requires ChainsOk(Zeroed(exts, id), OpenAt(exts, id, lost), recs)
      modifies `exts, `deleteList, `lists
      ensures old(exts)[id].freeSpace < MIN_RECORD ==> unchanged(this)
      ensures old(exts)[id].freeSpace >= MIN_RECORD ==> Tidy() && exts.Keys == old(exts).Keys
      ensures var total := old(exts)[id].freeSpace;
              total >= MIN_RECORD ==>
                PieceRule(total, pieces) && lists == Pushed(old(lists), id, |old(exts)[id].mem| - total, pieces)
      ensures exts.Keys == old(exts).Keys && forall j :: j in exts && j != id ==> exts[j] == old(exts)[j]
      ensures id in exts && exts[id].freeSpace == old(exts)[id].freeSpace && |exts[id].mem| == |old(exts)[id].mem|
      ensures SameSizes(old(exts), exts)
      ensures var total := old(exts)[id].freeSpace;
              MIN_RECORD <= total <= MAX_RECORD || total >= MAX_RECORD + MIN_RECORD ==>
                Offers(exts, lists, AtMost(total, MAX_RECORD))
    {
      hide Consistent, ChainsOk, Slot, BigFirst, Offers, SameSizes, Pushed, PushOne, PieceRule, Sum;
      SlotValues();
      ZeroedSizes(exts, id);
      pieces := [];
      NothingPushed(lists, id, |exts[id].mem| - exts[id].freeSpace);
      var total: nat := exts[id].freeSpace;
      if total < MIN_RECORD {
        return;
      }
      var size := |exts[id].mem|;
      exts := Zeroed(exts, id);
      var piece := if total < MAX_RECORD then total else MAX_RECORD;
      var off: nat, cur: nat := size - total, total;
      while cur - piece >= MIN_RECORD
        invariant off + cur == size && cur >= MIN_RECORD && id in exts && |exts[id].mem| == size
        invariant exts.Keys == old(exts).Keys && exts[id].freeSpace == total - cur
        invariant SameSizes(old(exts), exts)
        invariant ValidBut(Gap(NULL_RID, id, off, lost))
        invariant (cur < total ==> BigFirst(exts, lists)) && (total <= MAX_RECORD ==> cur == total)
        invariant lists == Pushed(old(lists), id, size - total, pieces) && Sum(pieces) == total - cur
        invariant (forall i :: 0 <= i < |pieces| ==> pieces[i] == MAX_RECORD)
        invariant forall j :: j in exts && j != id ==> exts[j] == old(exts)[j]
      {
        ghost var exts0 := exts;
        CarvePiece(id, off, piece);
        PushedNext(old(lists), id, size - total, pieces, piece);
        pieces := pieces + [piece];
        SizesCompose(old(exts), exts0, exts);
        FirstIsBig(exts, lists, Rid(id, off));
        cur, off := cur - piece, off + piece;
      }
      ghost var exts0 := exts;
      ghost var tail := CarveTail(id, off, cur, piece);
      SizesCompose(old(exts), exts0, exts);
      TailPushed(old(lists), id, size - total, pieces, tail);
      RuleHolds(total, pieces, tail, cur, piece);
      pieces := pieces + tail;
      FullyCarved(exts, deleteList, lists, lost, id, recs);
    }

    /** Carves what is left once no further piece fits: 4 KB and the rest if it is above one piece, else all of it. */
    method CarveTail(id: int, upto: nat, left: nat, piece: nat) returns (ghost tail: seq<nat>)
      requires ValidBut(Gap(NULL_RID, id, upto, lost)) && id in exts && upto + left == |exts[id].mem|
      requires MIN_RECORD <= left < piece + MIN_RECORD && piece <= MAX_RECORD && (left > piece ==> piece == MAX_RECORD)
      modifies `exts, `deleteList, `lists
      ensures id in exts && ValidBut(Gap(NULL_RID, id, |exts[id].mem|, lost)) && recs == old(recs)
      ensures exts[id].freeSpace == old(exts)[id].freeSpace + left && SameSizes(old(exts), exts)
      ensures tail == (if left > piece then [4096, left - 4096] else [left])
      ensures lists == Pushed(old(lists), id, upto, tail) && forall j :: j in exts && j != id ==>
                exts[j] == old(exts)[j]
      ensures old(BigFirst(exts, lists)) ==> Offers(exts, lists, MAX_RECORD)
      ensures left <= piece ==> Offers(exts, lists, left)
    {
      hide Consistent, ChainsOk, Slot, BigFirst, Offers, SameSizes, Pushed, PushOne, Sum;
      SlotValues();
      ZeroedSizes(exts, id);
      tail := [];
      NothingPushed(lists, id, upto);
      var cur, off := left, upto;
      if cur > piece {
        ghost var exts0, lists0 := exts, lists;
        CarvePiece(id, off, PAGE_4K);
        PushedNext(old(lists), id, upto, tail, PAGE_4K);
        tail := tail + [PAGE_4K];
        StaysOffered(exts0, exts, lists0, lists, Slot(PAGE_4K), Rid(id, off));
        cur, off := cur - PAGE_4K, off + PAGE_4K;
      }
      if cur > 0 {
        ghost var exts0, lists0 := exts, lists;
        CarvePiece(id, off, cur);
        PushedNext(old(lists), id, upto, tail, cur);
        tail := tail + [cur];
        StaysOffered(exts0, exts, lists0, lists, Slot(cur), Rid(id, off));
        FirstIsOffered(exts, lists, Slot(cur), Rid(id, off));
        SizesCompose(old(exts), exts0, exts);
      }
    }

    /** Looks at the first three entries of one list. */
    method SearchList(head: Rid, required: nat, ghost l: seq<Rid>) returns (found: bool, i: nat, prev: Rid, rid: Rid)
      requires Linked(exts, head, l) && NULL_RID !in l
      ensures found ==> i < |l| && i < MAX_SEARCH && rid == l[i] && prev == (if i > 0 then l[i - 1] else NULL_RID)
      ensures found ==> IsDeadHead(exts, rid) && SizeOf(exts, rid) >= required
      ensures found ==> forall n :: 0 <= n < i ==> !Suits(exts, l[n], required)
      ensures !found ==> forall n :: 0 <= n < MAX_SEARCH && n < |l| ==>
                IsDeadHead(exts, l[n]) && SizeOf(exts, l[n]) < required
    {
      hide Linked;
      found, i, prev, rid := false, 0, NULL_RID, head;
      HeadOfList(exts, head, l);
      while i < MAX_SEARCH
        invariant i <= MAX_SEARCH && i <= |l| && rid == (if i < |l| then l[i] else NULL_RID)
        invariant prev == (if i > 0 then l[i - 1] else NULL_RID)
        invariant forall n :: 0 <= n < i ==> IsDeadHead(exts, l[n]) && SizeOf(exts, l[n]) < required
      {
        if rid == NULL_RID {
          return;
        }
        LinkedAt(exts, head, l, i);
        var record := Look(exts, rid).h;
        if record.Dead? && record.size >= required {
          found := true;
          return;
        }
        prev, rid := rid, record.nextRid;
        i := i + 1;
      }
    }

    /** Looks for a deleted record of at least required bytes, from its slot upwards. */
    method Search(required: nat, slot: nat) returns (found: bool, j: nat, i: nat, prev: Rid, rid: Rid)
      requires LinksOk(exts, deleteList, lists) && slot <= SLOTS && forall k :: 0 <= k < SLOTS ==> NULL_RID !in lists[k]
      ensures found ==>
                slot <= j < SLOTS && i < |lists[j]| && rid == lists[j][i] &&
                    prev == (if i > 0 then lists[j][i - 1] else NULL_RID)
      ensures found ==> IsDeadHead(exts, rid) && SizeOf(exts, rid) >= required
      ensures found <==> InReach(exts, lists, slot, required)
      ensures found ==> FirstFit(exts, lists, slot, required, j, i)
    {
      hide Linked, Distinct;
      found, j, i, prev, rid := false, slot, 0, NULL_RID, NULL_RID;
      while j < SLOTS
        invariant slot <= j <= SLOTS
        invariant forall k, n :: slot <= k < j && 0 <= n < MAX_SEARCH && n < |lists[k]| ==>
                    !Suits(exts, lists[k][n], required)
      {
        found, i, prev, rid := SearchList(deleteList[j], required, lists[j]);
        if found {
          assert rid == lists[j][i];
          return;
        }
        j := j + 1;
      }
    }

    /** Takes the found record off its list. */
    method Unlink(j: nat, prev: Rid, rid: Rid, ghost i: nat)
      requires Tidy() && j < SLOTS && i < |lists[j]| && rid == lists[j][i]
      requires prev == (if i > 0 then lists[j][i - 1] else NULL_RID)
      modifies `exts, `deleteList, `lists
      ensures ValidBut(Closed(lost).(hole := rid)) && rid != NULL_RID && exts.Keys == old(exts).Keys
      ensures recs == old(recs) && lists == old(lists)[j := Without(old(lists)[j], i)]
      ensures SameSizes(old(exts), exts)
      ensures IsDeadHead(old(exts), rid) && FreedLess(old(exts), exts, rid.ext, SizeOf(old(exts), rid))
      ensures IsDeadHead(exts, rid) && IsDeadHead(old(exts), rid) && SizeOf(exts, rid) == SizeOf(old(exts), rid)
    {
      hide Tiled, Reaches, DeadSum, Linked, Distinct, TilesOk, FreeOk, ChainsOk, Slot;
      UnlinkKeeps(exts, deleteList, lists, Closed(lost), j, i);
      UnlinkChains(exts, deleteList, lists, Closed(lost), recs, j, i);
      assert Belongs(exts, Closed(lost), lists[j][i], j) && (i > 0 ==> Belongs(exts, Closed(lost), lists[j][i - 1], j));
      NullIsNoRecord(exts, Closed(lost), NULL_RID);
      var record := Look(exts, rid).h;
      if prev == NULL_RID {
        deleteList := deleteList[j := record.nextRid];
      } else {
        exts := SetNext(exts, prev, record.nextRid);
      }
      exts := AddFree(exts, rid.ext, 0 - record.size);
      lists := lists[j := Without(lists[j], i)];
    }

    /** Turns the pages from id on, with stale bytes in them, into an extent of the chain and carves it. */
    method OpenExtent(numPages: nat, id: int, stale: nat -> Cell) returns (rc: Rc, ghost pieces: seq<nat>)
      requires Valid() && id >= 0 && id !in exts && numPages >= 1
      modifies this, chain, chain.segFirst, chain.segLast
      ensures Valid()
      ensures rc == if id / chain.pages < chain.segNum then Ok else Sys
      ensures rc != Ok ==> unchanged(this) && unchanged(chain) && unchanged(chain.segFirst) && unchanged(chain.segLast)
      ensures rc == Ok ==> recs == old(recs)[id := []] && exts.Keys == old(exts).Keys + {id}
      ensures rc == Ok ==> Grown(old(chain.order), chain.order, id) && lost == old(lost)
      ensures rc == Ok ==> forall j :: j in old(exts) ==> j in exts && exts[j] == old(exts)[j]
      ensures rc == Ok ==> PieceRule(PageBytes(numPages, pageSize) - EXTENT_HEADER, pieces)
      ensures rc == Ok ==> lists == Pushed(old(lists), id, EXTENT_HEADER, pieces)
      ensures rc == Ok ==>
                var total: int := PageBytes(numPages, pageSize);
                && |exts[id].mem| == total && exts[id].freeSpace == total - EXTENT_HEADER
                && (total <= MAX_RECORD + EXTENT_HEADER || total >= MAX_RECORD + MIN_RECORD + EXTENT_HEADER ==>
                      Offers(exts, lists, AtMost(total - EXTENT_HEADER, MAX_RECORD)))
    {
      hide Consistent, ChainsOk, Offers, ExtentChain.ChainOk, PageBytes, Pushed, PieceRule;
      pieces := [];
      var added := chain.AddExtent(id);
      if added != ExtentChain.Ok {
        return Sys, [];
      }
      var total: nat := PageBytes(numPages, pageSize);
      var e := Extent(seq(total, stale), total - EXTENT_HEADER, NO_OFFSET, NO_OFFSET, 0);
      OpenKeeps(exts, deleteList, lists, lost, recs, id, e);
      exts := exts[id := e];
      recs := recs[id := []];
      pieces := MapExtentToDelList(id);
      rc := Ok;
    }

    /** Turns the deleted record rid into a live one with data d, splitting off what it does not need. */
    method ExtentInsertRecord(rid: Rid, d: seq<Byte>, need: nat) returns (rc: Rc)
      requires ValidBut(Closed(lost).(hole := rid)) && rid != NULL_RID && RECORD_HEADER + |d| <= need
      modifies `exts, `deleteList, `lists, `recs
      ensures rid.ext in old(recs) && IsDeadHead(old(exts), rid)
      ensures rc == if SizeOf(old(exts), rid) < need || |d| < MIN_DATA then InvalidArg else Ok
      ensures rc != Ok ==> unchanged(this)
      ensures rc == Ok ==> Tidy() && SameSizes(old(exts), exts)
      ensures rc == Ok ==> Settled(old(exts), old(lists), exts, lists, rid, need)
      ensures rc == Ok ==> recs == old(recs)[rid.ext := old(recs)[rid.ext] + [Rec(rid.off, d)]]
    {
      hide Consistent, ChainsOk, Settled;
      HoleFacts(exts, deleteList, lists, lost, recs, rid);
      var h := exts[rid.ext].mem[rid.off].h;
      if h.size < need {
        return InvalidArg;
      } else if |d| < MIN_DATA {
        return InvalidArg;
      }
      Fill(rid, d, need);
      rc := Ok;
    }

    /** Gives up on the space that was found: no list has it any more. */
    ghost method Abandon(rid: Rid)
      requires ValidBut(Closed(lost).(hole := rid)) && rid != NULL_RID
      modifies `lost
      ensures Tidy() && IsDeadHead(exts, rid) && lost == [Lost(rid, SizeOf(exts, rid))] + old(lost)
    {
      hide Consistent, ChainsOk;
      LoseKeeps(exts, deleteList, lists, Closed(lost).(hole := rid));
      LoseChains(exts, Closed(lost).(hole := rid), Closed([Lost(rid, SizeOf(exts, rid))] + lost), recs);
      lost := [Lost(rid, SizeOf(exts, rid))] + lost;
    }

    /** Splits the record rid, writes d into the front part and appends it to its extent's chain. */
    method Fill(rid: Rid, d: seq<Byte>, need: nat)
      requires ValidBut(Closed(lost).(hole := rid)) && rid != NULL_RID && RECORD_HEADER + |d| <= need
      requires IsDeadHead(exts, rid) && need <= SizeOf(exts, rid)
      modifies `exts, `deleteList, `lists, `recs
      ensures Tidy() && SameSizes(old(exts), exts) && rid.ext in old(recs)
      ensures Settled(old(exts), old(lists), exts, lists, rid, need)
      ensures recs == old(recs)[rid.ext := old(recs)[rid.ext] + [Rec(rid.off, d)]]
    {
      hide Consistent, ChainsOk, Slot, Taken, Revived, Settled, SameSizes;
      var id, o := rid.ext, rid.off;
      ghost var exts0, heads0, lists0 := exts, deleteList, lists;
      HoleFacts(exts, deleteList, lists, lost, recs, rid);
      var size := Split(rid, need);
      var e := exts[id];
      RevivedFacts(exts0[id].mem, e.mem, o, size, e.last);
      var m := WriteRecord(e.mem, o, size, d, e.last);
      TakenBySteps(exts0[id].mem, e.mem, m, o, size, d, e.last);
      exts := exts[id := Extent(m, e.freeSpace, if e.first == NO_OFFSET then o else e.first, o, e.recCount + 1)];
      recs := recs[id := recs[id] + [Rec(o, d)]];
      InsertedKeeps(exts0, heads0, lists0, lost, old(recs), rid, e, m, size, d, exts, deleteList, lists);
      Settles(exts0, lists0, exts, lists, rid, need, size, exts[id]);
    }

    /** Marks the record live and saves what it leaves over, unless that is too small to be a record. */
    method Split(rid: Rid, need: nat) returns (size: nat)
      requires IsDeadHead(exts, rid) && RECORD_HEADER <= need <= SizeOf(exts, rid) <= MAX_RECORD
      requires |deleteList| == |lists| == SLOTS
      requires rid.off + SizeOf(exts, rid) <= |exts[rid.ext].mem|
      modifies `exts, `deleteList, `lists
      ensures var s := SizeOf(old(exts), rid);
              && size == (if s - need > MIN_RECORD then need else s)
              && exts.Keys == old(exts).Keys
              && exts == old(exts)[rid.ext := old(exts)[rid.ext].(mem := exts[rid.ext].mem,
                   freeSpace := old(exts)[rid.ext].freeSpace + s - size)]
              && Revived(old(exts)[rid.ext].mem, exts[rid.ext].mem, rid.off, size)
              && (size == s ==> deleteList == old(deleteList) && lists == old(lists))
              && (size < s ==>
                    var k := Slot(s - need);
                    && k < SLOTS && deleteList == old(deleteList)[k := Rid(rid.ext, rid.off + need)]
                    && lists == old(lists)[k := [Rid(rid.ext, rid.off + need)] + old(lists)[k]]
                    && exts[rid.ext].mem[rid.off + need].h.nextRid == old(deleteList)[k])
    {
      hide Slot;
      var id, o := rid.ext, rid.off;
      var h := exts[id].mem[o].h;
      exts := exts[id := exts[id].(mem := exts[id].mem[o := Head(Live(h.size, h.my, h.nextRid.ext, h.nextRid.off))])];
      size := h.size;
      if h.size - need > MIN_RECORD {
        SaveDeletedRecord(Rid(id, o + need), h.size - need);
        size := need;
      }
    }

    /** Sets the size, the data and the links of the new record, and the link of the one before it. */
    static method WriteRecord(m0: Memory, o: nat, size: nat, d: seq<Byte>, last: int) returns (m: Memory)
      requires IsHead(m0, o) && m0[o].h.Live? && RECORD_HEADER + |d| <= size && o + size <= |m0|
      requires last != NO_OFFSET ==> IsHead(m0, last) && m0[last].h.Live? && !(o <= last < o + size)
      ensures |m| == |m0| && m[o] == Head(Live(size, m0[o].h.my, last, NO_OFFSET))
      ensures forall i :: 0 <= i < |d| ==> m[o + RECORD_HEADER + i] == Data(d[i])
      ensures last != NO_OFFSET ==> m[last] == Head(m0[last].h.(next := o))
      ensures forall i :: 0 <= i < |m0| && i != o && i != last && !InData(i, o, |d|) ==> m[i] == m0[i]
    {
      m := m0[o := Head(Live(size, m0[o].h.my, m0[o].h.prev, m0[o].h.next))];
      m := WriteData(m, o, d);
      m := m[o := Head(m[o].h.(next := NO_OFFSET, prev := NO_OFFSET))];
      if last != NO_OFFSET {
        m := m[last := Head(m[last].h.(next := o))];
        m := m[o := Head(m[o].h.(prev := last))];
      }
    }

    /** How many pages to ask for. */
    method ReqPages(required: nat) returns (reqPages: nat)
      requires 1 <= required <= MAX_RECORD && ExtentChain.Geometry(pageSize, chain.pages, chain.segNum, chain.stride)
      ensures 1 <= reqPages <= chain.pages && reqPages == PagesFor(required, pageSize, chain.pages)
      ensures var total := PageBytes(reqPages, pageSize);
              && total >= required + EXTENT_HEADER
              && (total <= MAX_RECORD + EXTENT_HEADER || total >= MAX_RECORD + MIN_RECORD + EXTENT_HEADER)
    {
      var expandSize := required * 16;
      if expandSize > BEST_EXTENT {
        expandSize := if required < BEST_EXTENT then BEST_EXTENT else required;
      }
      var n: int := (expandSize + EXTENT_HEADER + pageSize - 1) / pageSize;
      if n > chain.pages {
        n := chain.pages;
      }
      if n < 1 {
        n := 1;
      }
      reqPages := n;
    }
  }

  /** A new extent has room for sixteen such records or for 16 MB, whichever is less, besides its header; no fewer pages
      have, unless a segment is smaller than that. */
  lemma PagesForIsLeast(required: nat, pageSize: nat, pages: nat)
    requires 1 <= required <= 0x100_0000 && pageSize >= 1 && pages >= 1
    ensures var n, want := PagesFor(required, pageSize, pages), AtMost(16 * required, 0x100_0000) + EXTENT_HEADER;
            && 1 <= n <= pages && (n < pages ==> n * pageSize >= want) && (n > 1 ==> (n - 1) * pageSize < want)
  {
    var want := AtMost(16 * required, 0x100_0000) + EXTENT_HEADER;
    var n := LeastPages(want, pageSize);
    if n > pages {
      FewerBytes(pages - 1, n - 1, pageSize);
    }
  }

  lemma LeastPages(want: int, pageSize: int) returns (n: int)
    requires want >= 1 && pageSize >= 1
    ensures n == (want + pageSize - 1) / pageSize && n >= 1 && n * pageSize >= want && (n - 1) * pageSize < want
  {
    n := (want + pageSize - 1) / pageSize;
    assert want + pageSize - 1 == n * pageSize + (want + pageSize - 1) % pageSize;
    assert (n - 1) * pageSize == n * pageSize - pageSize;
    if n <= 0 {
      FewerBytes(n, 0, pageSize);
    }
  }

  lemma FewerBytes(m: int, n: int, pageSize: int)
    requires m <= n && pageSize >= 1
    ensures m * pageSize <= n * pageSize
  {
    assert (n - m) * pageSize >= 0;
    assert n * pageSize - m * pageSize == (n - m) * pageSize;
  }

  /** The free space of extent id went down by n, that of no other extent changed. */
  ghost predicate FreedLess(exts: Extents, exts': Extents, id: int, n: int) {
    exts'.Keys == exts.Keys &&
    forall j :: j in exts ==> exts'[j].freeSpace == exts[j].freeSpace - if j == id then n else 0
  }

  lemma NothingPushed(lists: seq<seq<Rid>>, id: int, off: int)
    ensures Pushed(lists, id, off, []) == lists && Sum([]) == 0
  {
  }

  /** One or two pieces pushed on top of others. */
  lemma TailPushed(lists: seq<seq<Rid>>, id: int, off: int, pieces: seq<nat>, tail: seq<nat>)
    requires 1 <= |tail| <= 2
    ensures Pushed(Pushed(lists, id, off, pieces), id, off + Sum(pieces), tail) == Pushed(lists, id, off, pieces + tail)
  {
    hide Pushed, PushOne, Sum;
    var base, at := Pushed(lists, id, off, pieces), off + Sum(pieces);
    NothingPushed(base, id, at);
    PushedNext(base, id, at, [], tail[0]);
    PushedNext(lists, id, off, pieces, tail[0]);
    assert [] + [tail[0]] == [tail[0]];
    if |tail| == 2 {
      PushedNext(base, id, at, [tail[0]], tail[1]);
      PushedNext(lists, id, off, pieces + [tail[0]], tail[1]);
      assert [tail[0]] + [tail[1]] == tail && pieces + [tail[0]] + [tail[1]] == pieces + tail;
    } else {
      assert tail == [tail[0]];
    }
  }

  lemma RuleHolds(total: nat, pieces: seq<nat>, tail: seq<nat>, left: nat, piece: nat)
    requires forall i :: 0 <= i < |pieces| ==> pieces[i] == MAX_RECORD
    requires Sum(pieces) == total - left && MIN_RECORD <= left < piece + MIN_RECORD && piece <= MAX_RECORD
    requires (left > piece ==> piece == MAX_RECORD) && tail == (if left > piece then [4096, left - 4096] else [left])
    ensures PieceRule(total, pieces + tail)
  {
    hide Sum, Pushed;
    PushedNext([], 0, 0, pieces, tail[0]);
    if |tail| == 2 {
      PushedNext([], 0, 0, pieces + [tail[0]], tail[1]);
      assert pieces + [tail[0]] + [tail[1]] == pieces + tail;
    } else {
      assert tail == [tail[0]];
    }
  }

  /** The record space after the extent was split and the record written. */
  lemma InsertedKeeps(exts0: Extents, heads0: seq<Rid>, lists0: seq<seq<Rid>>, lost: seq<Lost>, recs: Records, rid: Rid,
                      e: Extent, m: Memory, size: nat, d: seq<Byte>,
                      exts: Extents, heads: seq<Rid>, lists: seq<seq<Rid>>)
    requires Consistent(exts0, heads0, lists0, Closed(lost).(hole := rid))
    requires ChainsOk(exts0, Closed(lost).(hole := rid), recs) && rid != NULL_RID
    requires rid.ext in exts0 && IsDeadHead(exts0, rid)
    requires Taken(exts0[rid.ext].mem, m, |m|, rid.off, size, d, exts0[rid.ext].last)
    requires size <= SizeOf(exts0, rid)
    requires e == exts0[rid.ext].(mem := e.mem, freeSpace := exts0[rid.ext].freeSpace + SizeOf(exts0, rid) - size)
    requires var first := if e.first == NO_OFFSET then rid.off else e.first;
             exts == exts0[rid.ext := Extent(m, e.freeSpace, first, rid.off, e.recCount + 1)]
    requires size == SizeOf(exts0, rid) ==> heads == heads0 && lists == lists0
    requires size < SizeOf(exts0, rid) ==>
               var k := Slot(SizeOf(exts0, rid) - size);
               && k < SLOTS && heads == heads0[k := Rid(rid.ext, rid.off + size)]
               && lists == lists0[k := [Rid(rid.ext, rid.off + size)] + lists0[k]]
               && m[rid.off + size].h.nextRid == heads0[k]
    ensures rid.ext in recs
    ensures Consistent(exts, heads, lists, Closed(lost))
    ensures ChainsOk(exts, Closed(lost), recs[rid.ext := recs[rid.ext] + [Rec(rid.off, d)]])
  {
    hide Tiled, Reaches, DeadSum, Linked, Distinct, TilesOk, FreeOk, ListedOk, RecordsOk, Slot, Taken;
    if size < SizeOf(exts0, rid) {
      InsertSplit(exts0, heads0, lists0, lost, recs, rid, m, size, d, Slot(SizeOf(exts0, rid) - size));
      assert exts == AddFree(TakenExts(exts0, rid, m), rid.ext, SizeOf(exts0, rid) - size);
    } else {
      InsertWhole(exts0, heads0, lists0, lost, recs, rid, m, d);
      assert exts == TakenExts(exts0, rid, m);
    }
  }

  lemma LoseChains(exts: Extents, g: Gap, g': Gap, recs: Records)
    requires ChainsOk(exts, g, recs) && g'.open == g.open && g'.upto == g.upto
    ensures ChainsOk(exts, g', recs)
  {
    hide Tiled, RecordsOk;
    assert forall id :: id in exts ==> Limit(exts, g', id) == Limit(exts, g, id);
  }

  /** The record at rid keeps what it needs of the space it was given, and at most 36 bytes more; what it leaves over is
      free again, at the front of the list for its size. */
  ghost predicate Settled(exts: Extents, lists: seq<seq<Rid>>, exts': Extents, lists': seq<seq<Rid>>, rid: Rid,
                          need: nat) {
    && IsDeadHead(exts, rid) && Look(exts', rid).Head? && Look(exts', rid).h.Live?
    && var given, kept := SizeOf(exts, rid), SizeOf(exts', rid);
       && need <= kept <= need + 36 && kept == (if given - need > 36 then need else given)
       && FreedLess(exts, exts', rid.ext, kept - given)
       && (forall j :: j in exts && j != rid.ext ==> exts'[j] == exts[j])
       && lists' == if kept < given then PushOne(lists, Rid(rid.ext, rid.off + need), given - need) else lists
  }

  lemma Settles(exts: Extents, lists: seq<seq<Rid>>, exts': Extents, lists': seq<seq<Rid>>, rid: Rid, need: nat,
                size: nat, e: Extent)
    requires IsDeadHead(exts, rid) && rid.ext in exts && exts' == exts[rid.ext := e]
    requires IsHead(e.mem, rid.off) && e.mem[rid.off].h.Live? && e.mem[rid.off].h.size == size
    requires |e.mem| == |exts[rid.ext].mem| && e.freeSpace == exts[rid.ext].freeSpace + SizeOf(exts, rid) - size
    requires need <= SizeOf(exts, rid)
    requires size == (if SizeOf(exts, rid) - need > MIN_RECORD then need else SizeOf(exts, rid))
    requires |lists| == SLOTS && (size == SizeOf(exts, rid) ==> lists' == lists)
    requires size < SizeOf(exts, rid) ==>
               var k := Slot(SizeOf(exts, rid) - need);
               k < SLOTS && lists' == lists[k := [Rid(rid.ext, rid.off + need)] + lists[k]]
    ensures Settled(exts, lists, exts', lists', rid, need) && SameSizes(exts, exts')
  {
    hide Slot;
  }

  /** The extent id joined the chain somewhere. */
  ghost predicate Grown(order: seq<int>, order': seq<int>, id: int) {
    exists p :: 0 <= p <= |order| && order' == ExtentChain.Inserted(order, p, id)
  }

  /** One record went to the end of one extent's chain; at most one extent is new, and it was empty. */
  ghost predicate Inserts(order: seq<int>, recs: Records, order': seq<int>, recs': Records, id: int, rid: Rid,
                          d: seq<Byte>) {
    var base := if id in recs' then recs[id := []] else recs;
    && rid.ext in base && recs' == base[rid.ext := base[rid.ext] + [Rec(rid.off, d)]]
    && (if id in recs' then Grown(order, order', id) else order' == order)
  }

  /** Memory after the record at o is marked live and the part behind size is a deleted record. */
  ghost predicate Revived(m0: Memory, m1: Memory, o: nat, size: nat) {
    && IsHead(m0, o) && |m1| == |m0| && size <= m0[o].h.size && o + m0[o].h.size <= |m0|
    && IsHead(m1, o) && m1[o].h.Live? && m1[o].h.my == m0[o].h.my
    && (size < m0[o].h.size ==>
          && size + MIN_RECORD <= m0[o].h.size && m1[o + size].Head? && m1[o + size].h.Dead?
          && m1[o + size].h.size == m0[o].h.size - size && m1[o + size].h.my == o + size)
    && forall i :: 0 <= i < |m0| && !(o <= i < o + m0[o].h.size) ==> m1[i] == m0[i]
  }

  lemma TakenBySteps(m0: Memory, m1: Memory, m: Memory, o: nat, size: nat, d: seq<Byte>, q: int)
    requires Tile(m0, o, |m0|) && m0[o].h.Dead? && Revived(m0, m1, o, size) && RECORD_HEADER + |d| <= size
    requires q != NO_OFFSET ==> IsHead(m0, q) && m0[q].h.Live? && !(o <= q < o + m0[o].h.size)
    requires |m| == |m0| && m[o] == Head(Live(size, m1[o].h.my, q, NO_OFFSET))
    requires forall i :: 0 <= i < |d| ==> m[o + RECORD_HEADER + i] == Data(d[i])
    requires q != NO_OFFSET ==> m[q] == Head(m0[q].h.(next := o))
    requires forall i :: 0 <= i < |m| && !(o + RECORD_HEADER <= i < o + RECORD_HEADER + |d|) && i != o && i != q ==>
               m[i] == m1[i]
    ensures Taken(m0, m, |m|, o, size, d, q)
    ensures size < m0[o].h.size ==> m[o + size] == m1[o + size]
  {
  }

  lemma RevivedFacts(m0: Memory, m1: Memory, o: nat, size: nat, q: int)
    requires Tile(m0, o, |m0|) && Revived(m0, m1, o, size)
    requires q != NO_OFFSET ==> IsHead(m0, q) && m0[q].h.Live? && !(o <= q < o + m0[o].h.size)
    ensures |m1| == |m0| && IsHead(m1, o) && m1[o].h.Live? && o + size <= |m1|
    ensures q != NO_OFFSET ==> m1[q] == m0[q] && !(o <= q < o + size)
  {
  }

  /** What the checks of an insert rely on: the hole is a whole deleted record of its extent, and the last
      record of that extent lies apart from it. */
  lemma HoleFacts(exts: Extents, heads: seq<Rid>, lists: seq<seq<Rid>>, lost: seq<Lost>, recs: Records, rid: Rid)
    requires Consistent(exts, heads, lists, Closed(lost).(hole := rid))
    requires ChainsOk(exts, Closed(lost).(hole := rid), recs) && rid != NULL_RID
    ensures rid.ext in exts && rid.ext in recs && IsDeadHead(exts, rid)
    ensures Tile(exts[rid.ext].mem, rid.off, |exts[rid.ext].mem|)
    ensures SizeOf(exts, rid) == exts[rid.ext].mem[rid.off].h.size && |heads| == |lists| == SLOTS
    ensures var q, m := exts[rid.ext].last, exts[rid.ext].mem;
            q != NO_OFFSET ==> IsHead(m, q) && m[q].h.Live? && !(rid.off <= q < rid.off + m[rid.off].h.size)
  {
    hide Tiled, Reaches, DeadSum, Linked, Distinct, TilesOk, FreeOk, ListedOk, RecordsOk;
    var g := Closed(lost).(hole := rid);
    RecordIsTile(exts, g, rid);
    LastOfExtent(exts, g, recs, rid.ext);
  }

  /** The last record of an extent lies apart from the hole. */
  lemma LastOfExtent(exts: Extents, g: Gap, recs: Records, id: int)
    requires TilesOk(exts, g) && ChainsOk(exts, g, recs) && id in exts && g.hole.ext == id && DeadAt(exts, g, g.hole)
    ensures var q, o, m := exts[id].last, g.hole.off, exts[id].mem;
            && IsHead(m, o)
            && (q != NO_OFFSET ==> IsHead(m, q) && m[q].h.Live? && !(o <= q < o + m[o].h.size))
  {
    hide Tiled, Reaches;
    RecordIsTile(exts, g, g.hole);
    var e, limit := exts[id], Limit(exts, g, id);
    LastIsRecord(e.mem, limit, e.first, e.last, e.recCount, recs[id]);
    if e.last != NO_OFFSET && g.hole.off < e.last {
      TilesApart(e.mem, EXTENT_HEADER, limit, g.hole.off, e.last);
    }
  }

  lemma NoNullListed(exts: Extents, heads: seq<Rid>, lists: seq<seq<Rid>>, lost: seq<Lost>)
    requires Consistent(exts, heads, lists, Closed(lost))
    ensures |lists| == SLOTS && forall k :: 0 <= k < SLOTS ==> NULL_RID !in lists[k]
  {
    NullIsNoRecord(exts, Closed(lost), NULL_RID);
    forall k | 0 <= k < SLOTS ensures NULL_RID !in lists[k] {
      assert NULL_RID in lists[k] <==> Belongs(exts, Closed(lost), NULL_RID, k);
    }
  }

  /** A record on offer is one the search cannot miss. */
  lemma OfferIsFound(exts: Extents, heads: seq<Rid>, lists: seq<seq<Rid>>, lost: seq<Lost>, required: nat)
    requires Consistent(exts, heads, lists, Closed(lost)) && Offers(exts, lists, required) && required >= 1
    ensures InReach(exts, lists, Slot(required), required)
  {
    hide Slot, TilesOk, FreeOk, Linked, Distinct;
    var k, i :| 0 <= k < |lists| && 0 <= i < 2 && i < |lists[k]| && IsDeadHead(exts, lists[k][i]) &&
        SizeOf(exts, lists[k][i]) >= required;
    assert Belongs(exts, Closed(lost), lists[k][i], k);
    HigherSlotFits(SizeOf(exts, lists[k][i]), required);
  }

  lemma OfferWeakens(exts: Extents, lists: seq<seq<Rid>>, n: int, required: int)
    requires required <= n
    ensures Offers(exts, lists, n) ==> Offers(exts, lists, required)
  {
  }

  function PageBytes(numPages: nat, pageSize: nat): (n: nat)
    ensures numPages >= 1 ==> n >= pageSize
  {
    if numPages >= 1 then assert (numPages - 1) * pageSize >= 0; numPages * pageSize else 0
  }

  /** A fresh extent, none of it carved yet, disturbs nothing. */
  lemma OpenKeeps(exts: Extents, heads: seq<Rid>, lists: seq<seq<Rid>>, lost: seq<Lost>, recs: Records, id: int,
                  e: Extent)
    requires Consistent(exts, heads, lists, Closed(lost)) && ChainsOk(exts, Closed(lost), recs) && id !in exts
    requires id >= 0
    requires |e.mem| >= EXTENT_HEADER && e.freeSpace == |e.mem| - EXTENT_HEADER
    requires e.first == NO_OFFSET && e.last == NO_OFFSET && e.recCount == 0
    ensures var exts' := exts[id := e];
            && Consistent(Zeroed(exts', id), heads, lists, OpenAt(exts', id, lost))
            && ChainsOk(Zeroed(exts', id), OpenAt(exts', id, lost), recs[id := []])
  {
    hide Reaches, DeadSum, Linked, Distinct, RecordsOk, Slot;
    var exts' := Zeroed(exts[id := e], id);
    var g := OpenAt(exts[id := e], id, lost);
    NothingCarved(e.mem);
    NoneLostIn(lost, id);
    forall j | j in exts ensures j != id && Limit(exts', g, j) == Limit(exts, Closed(lost), j) && exts'[j] == exts[j] {
    }
    NullIsNoRecord(exts, Closed(lost), NULL_RID);
    forall r, k | 0 <= k < |lists| ensures r in lists[k] <==> Belongs(exts', g, r, k) {
      assert r in lists[k] <==> Belongs(exts, Closed(lost), r, k);
    }
    forall k | 0 <= k < SLOTS ensures Linked(exts', heads[k], lists[k]) {
      forall r | r in lists[k] ensures Look(exts', r) == Look(exts, r) {
        assert Belongs(exts, Closed(lost), r, k);
      }
      LinkedFrame(exts, exts', heads[k], lists[k]);
    }
  }

  lemma {:induction false} NoneLostIn(lost: seq<Lost>, id: int)
    requires forall i :: 0 <= i < |lost| ==> lost[i].rid.ext != id
    ensures LostSize(lost, id) == 0
  {
    if lost != [] {
      NoneLostIn(lost[1..], id);
    }
  }

  lemma NothingCarved(m: Memory)
    requires |m| >= EXTENT_HEADER
    ensures Tiled(m, EXTENT_HEADER, EXTENT_HEADER) && DeadSum(m, EXTENT_HEADER, EXTENT_HEADER) == 0
    ensures forall a :: !Reaches(m, EXTENT_HEADER, EXTENT_HEADER, a)
    ensures RecordsOk(m, EXTENT_HEADER, NO_OFFSET, NO_OFFSET, 0, [])
  {
  }

  lemma HeadOfList(exts: Extents, head: Rid, l: seq<Rid>)
    requires Linked(exts, head, l)
    ensures head == if l == [] then NULL_RID else l[0]
  {
  }

  /** A whole 16 MB record leads the last list. */
  ghost predicate BigFirst(exts: Extents, lists: seq<seq<Rid>>) {
    && |lists| == SLOTS && lists[SLOTS - 1] != []
    && IsDeadHead(exts, lists[SLOTS - 1][0]) && SizeOf(exts, lists[SLOTS - 1][0]) == MAX_RECORD
  }

  lemma FirstIsBig(exts: Extents, lists: seq<seq<Rid>>, r: Rid)
    requires |lists| == SLOTS && IsDeadHead(exts, r) && SizeOf(exts, r) >= 1
    ensures SizeOf(exts, r) == MAX_RECORD && |lists[SLOTS - 1]| > 0 && lists[SLOTS - 1][0] == r ==>
              BigFirst(exts, lists)
  {
  }

  lemma FirstIsOffered(exts: Extents, lists: seq<seq<Rid>>, k: nat, r: Rid)
    requires k < |lists| && lists[k] != [] && lists[k][0] == r && IsDeadHead(exts, r)
    ensures Offers(exts, lists, SizeOf(exts, r))
  {
  }

  /** One more record in front of a list leaves the 16 MB record in reach. */
  lemma StaysOffered(exts: Extents, exts': Extents, lists: seq<seq<Rid>>, lists': seq<seq<Rid>>, k: nat, r: Rid)
    requires k < SLOTS && |lists| == SLOTS && lists' == lists[k := [r] + lists[k]]
    requires forall j, i :: 0 <= j < SLOTS && 0 <= i < |lists[j]| ==>
               Look(exts', lists[j][i]) == Look(exts, lists[j][i])
    ensures BigFirst(exts, lists) ==> Offers(exts', lists', MAX_RECORD)
    ensures BigFirst(exts, lists) && k != SLOTS - 1 ==> BigFirst(exts', lists')
  {
    if BigFirst(exts, lists) {
      var big := lists[SLOTS - 1][0];
      assert Look(exts', big) == Look(exts, big);
      var i := if k == SLOTS - 1 then 1 else 0;
      assert lists'[SLOTS - 1][i] == big;
    }
  }

  /** An extent carved to its end is an ordinary one. */
  lemma FullyCarved(exts: Extents, heads: seq<Rid>, lists: seq<seq<Rid>>, lost: seq<Lost>, id: int, recs: Records)
    requires id in exts && Consistent(exts, heads, lists, Gap(NULL_RID, id, |exts[id].mem|, lost))
    requires ChainsOk(exts, Gap(NULL_RID, id, |exts[id].mem|, lost), recs)
    ensures Consistent(exts, heads, lists, Closed(lost)) && ChainsOk(exts, Closed(lost), recs)
  {
    hide Tiled, Reaches, DeadSum, Linked, Distinct, RecordsOk;
    var g := Gap(NULL_RID, id, |exts[id].mem|, lost);
    assert forall j :: j in exts ==> Limit(exts, Closed(lost), j) == Limit(exts, g, j);
  }

  function Zeroed(exts: Extents, id: int): Extents
    requires id in exts
  {
    exts[id := exts[id].(freeSpace := 0)]
  }

  /** The free space of id lies at its end, not carved yet. */
  function OpenAt(exts: Extents, id: int, lost: seq<Lost>): Gap
    requires id in exts
  {
    Gap(NULL_RID, id, |exts[id].mem| - exts[id].freeSpace, lost)
  }
}

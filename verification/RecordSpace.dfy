// What every operation on a collection's record space keeps.
module RecordSpace {
  import opened DeleteSlots
  import opened ExtentBody
  import opened DeleteLists

  /** A deleted record that was taken off its list and never put to use. */
  datatype Lost = Lost(rid: Rid, size: nat)

  /** What is not as it should be: a deleted record on no list while work is in progress, an extent carved only up to
      some offset, and the records lost for good. */
  datatype Gap = Gap(hole: Rid, open: int, upto: int, lost: seq<Lost>)

  /** Nothing in progress. */
  function Closed(lost: seq<Lost>): Gap {
    Gap(NULL_RID, -1, 0, lost)
  }

  predicate IsLost(lost: seq<Lost>, r: Rid) {
    exists i :: 0 <= i < |lost| && lost[i].rid == r
  }

  /** The bytes lost in extent id. */
  function LostSize(lost: seq<Lost>, id: int): nat {
    if lost == [] then 0 else (if lost[0].rid.ext == id then lost[0].size else 0) + LostSize(lost[1..], id)
  }

  function Limit(exts: Extents, g: Gap, id: int): int
    requires id in exts
  {
    if id == g.open then g.upto else |exts[id].mem|
  }

  /** Every extent's body is covered by records, end to end, behind the extent header. */
  ghost predicate TilesOk(exts: Extents, g: Gap) {
    forall id :: id in exts ==>
      && id >= 0 && EXTENT_HEADER <= Limit(exts, g, id) <= |exts[id].mem|
      && Tiled(exts[id].mem, EXTENT_HEADER, Limit(exts, g, id))
  }

  /** r is a record of its extent. */
  ghost predicate RecordAt(exts: Extents, g: Gap, r: Rid) {
    && r.ext in exts && Tiled(exts[r.ext].mem, EXTENT_HEADER, Limit(exts, g, r.ext))
    && Reaches(exts[r.ext].mem, EXTENT_HEADER, Limit(exts, g, r.ext), r.off)
  }

  ghost predicate DeadAt(exts: Extents, g: Gap, r: Rid) {
    RecordAt(exts, g, r) && IsDeadHead(exts, r)
  }

  function HoleSize(exts: Extents, g: Gap, id: int): nat {
    if g.hole.ext == id && Look(exts, g.hole).Head? then SizeOf(exts, g.hole) else 0
  }

  /** An extent's free space is the sum of its listed deleted records. */
  ghost predicate FreeOk(exts: Extents, g: Gap) {
    forall id :: id in exts && Tiled(exts[id].mem, EXTENT_HEADER, Limit(exts, g, id)) ==>
      exts[id].freeSpace ==
        DeadSum(exts[id].mem, EXTENT_HEADER, Limit(exts, g, id)) - HoleSize(exts, g, id) - LostSize(g.lost, id)
  }

  ghost predicate LinksOk(exts: Extents, heads: seq<Rid>, lists: seq<seq<Rid>>) {
    && |heads| == |lists| == SLOTS
    && forall k :: 0 <= k < SLOTS ==> Linked(exts, heads[k], lists[k]) && Distinct(lists[k])
  }

  /** r belongs on list k. */
  ghost predicate Belongs(exts: Extents, g: Gap, r: Rid, k: int) {
    ListedAt(exts, g, r) && !IsLost(g.lost, r) && SizeOf(exts, r) >= 1 && Slot(SizeOf(exts, r)) == k
  }

  /** The lost records are different deleted records of the sizes noted. */
  ghost predicate LostOk(exts: Extents, g: Gap) {
    && (forall i :: 0 <= i < |g.lost| ==>
         ListedAt(exts, g, g.lost[i].rid) && SizeOf(exts, g.lost[i].rid) == g.lost[i].size)
    && (forall i, j :: 0 <= i < j < |g.lost| ==> g.lost[i].rid != g.lost[j].rid)
  }

  /** A deleted record is on the list of its slot and on no other; the hole and the lost ones are on none. */
  ghost predicate ListedOk(exts: Extents, lists: seq<seq<Rid>>, g: Gap) {
    forall r, k :: 0 <= k < |lists| ==> (r in lists[k] <==> Belongs(exts, g, r, k))
  }

  ghost predicate Consistent(exts: Extents, heads: seq<Rid>, lists: seq<seq<Rid>>, g: Gap) {
    && TilesOk(exts, g) && FreeOk(exts, g) && LinksOk(exts, heads, lists) && ListedOk(exts, lists, g)
    && (g.hole != NULL_RID ==> DeadAt(exts, g, g.hole)) && LostOk(exts, g)
  }

  lemma RecordIsTile(exts: Extents, g: Gap, r: Rid)
    requires RecordAt(exts, g, r)
    ensures EXTENT_HEADER <= r.off && Tile(exts[r.ext].mem, r.off, Limit(exts, g, r.ext))
    ensures Look(exts, r) == exts[r.ext].mem[r.off]
  {
    TileAt(exts[r.ext].mem, EXTENT_HEADER, Limit(exts, g, r.ext), r.off);
  }

  /** No gap and no overlap: every byte of an extent's body lies in exactly one record. */
  lemma ExactlyOneRecord(exts: Extents, heads: seq<Rid>, lists: seq<seq<Rid>>, lost: seq<Lost>, id: int, p: int)
    returns (o: int)
    requires Consistent(exts, heads, lists, Closed(lost)) && id in exts && EXTENT_HEADER <= p < |exts[id].mem|
    ensures RecordAt(exts, Closed(lost), Rid(id, o)) && IsHead(exts[id].mem, o) && o <= p < o + exts[id].mem[o].h.size
    ensures forall q :: RecordAt(exts, Closed(lost), Rid(id, q)) && IsHead(exts[id].mem, q) ==>
                        q <= p < q + exts[id].mem[q].h.size ==> q == o
  {
    hide Reaches, Tiled;
    var m := exts[id].mem;
    assert Limit(exts, Closed(lost), id) == |m|;
    o := TileOf(m, EXTENT_HEADER, |m|, p);
    forall q | RecordAt(exts, Closed(lost), Rid(id, q)) && IsHead(m, q) && q <= p < q + m[q].h.size ensures q == o {
      if q < o { TilesApart(m, EXTENT_HEADER, |m|, q, o); }
      if o < q { TilesApart(m, EXTENT_HEADER, |m|, o, q); }
    }
  }

  /** Each deleted record is on exactly one list, the list of its slot; a lost one is on none. */
  lemma ExactlyOneList(exts: Extents, heads: seq<Rid>, lists: seq<seq<Rid>>, lost: seq<Lost>, r: Rid)
    requires Consistent(exts, heads, lists, Closed(lost)) && DeadAt(exts, Closed(lost), r)
    ensures SizeOf(exts, r) >= 1 && Slot(SizeOf(exts, r)) < SLOTS
    ensures forall k :: 0 <= k < SLOTS ==> (r in lists[k] <==> k == Slot(SizeOf(exts, r)) && !IsLost(lost, r))
  {
    RecordIsTile(exts, Closed(lost), r);
    NullIsNoRecord(exts, Closed(lost), NULL_RID);
    SlotsSuffice(SizeOf(exts, r));
  }

  /** The link of the deleted record r changes, nothing else. */
  function SetNext(exts: Extents, r: Rid, next: Rid): Extents
    requires IsDeadHead(exts, r)
  {
    var m := exts[r.ext].mem;
    exts[r.ext := exts[r.ext].(mem := m[r.off := Head(m[r.off].h.(nextRid := next))])]
  }

  function AddFree(exts: Extents, id: int, d: int): Extents
    requires id in exts
  {
    exts[id := exts[id].(freeSpace := exts[id].freeSpace + d)]
  }

  /** The same extents hold the same records, of the same sizes and kinds. */
  ghost predicate SameRecords(exts: Extents, exts': Extents, g: Gap) {
    && exts.Keys == exts'.Keys && TilesOk(exts, g) && TilesOk(exts', g)
    && (forall id :: id in exts ==>
          && |exts'[id].mem| == |exts[id].mem|
          && DeadSum(exts'[id].mem, EXTENT_HEADER, Limit(exts', g, id)) ==
               DeadSum(exts[id].mem, EXTENT_HEADER, Limit(exts, g, id)))
    && (forall q :: RecordAt(exts', g, q) <==> RecordAt(exts, g, q))
    && (forall q :: RecordAt(exts, g, q) ==>
          && Look(exts', q).Head? && Look(exts, q).Head? && SizeOf(exts', q) == SizeOf(exts, q)
          && (IsDeadHead(exts', q) <==> IsDeadHead(exts, q)))
  }

  lemma SetNextKeeps(exts: Extents, g: Gap, r: Rid, next: Rid)
    requires TilesOk(exts, g) && DeadAt(exts, g, r)
    ensures SameRecords(exts, SetNext(exts, r, next), g)
    ensures forall q :: q != r ==> Look(SetNext(exts, r, next), q) == Look(exts, q)
    ensures IsDeadHead(SetNext(exts, r, next), r) && NextOf(SetNext(exts, r, next), r) == next
  {
    var exts' := SetNext(exts, r, next);
    RecordIsTile(exts, g, r);
    var m, w, limit := exts[r.ext].mem, exts'[r.ext].mem, Limit(exts, g, r.ext);
    RelinkKeeps(m, w, limit, r.off);
    forall q | RecordAt(exts, g, q)
      ensures Look(exts', q).Head? && Look(exts, q).Head? && SizeOf(exts', q) == SizeOf(exts, q)
      ensures IsDeadHead(exts', q) <==> IsDeadHead(exts, q)
    {
      RecordIsTile(exts, g, q);
    }
  }

  /** Rewriting one header with the same size and kind moves no record. */
  lemma RelinkKeeps(m: Memory, w: Memory, limit: int, o: int)
    requires Tiled(m, EXTENT_HEADER, limit) && Reaches(m, EXTENT_HEADER, limit, o) && Tile(m, o, limit)
    requires |w| == |m| && Tile(w, o, limit) && w[o].h.size == m[o].h.size && (w[o].h.Dead? <==> m[o].h.Dead?)
    requires forall i :: 0 <= i < |m| && i != o ==> w[i] == m[i]
    ensures Tiled(w, EXTENT_HEADER, limit) && DeadSum(w, EXTENT_HEADER, limit) == DeadSum(m, EXTENT_HEADER, limit)
    ensures forall a :: Reaches(w, EXTENT_HEADER, limit, a) <==> Reaches(m, EXTENT_HEADER, limit, a)
  {
    hide Tiled, Reaches, DeadSum;
    forall a | Reaches(m, EXTENT_HEADER, limit, a)
      ensures Tile(w, a, limit) && IsHead(m, a) && w[a].h.size == m[a].h.size && (w[a].h.Dead? <==> m[a].h.Dead?)
    {
      TileAt(m, EXTENT_HEADER, limit, a);
    }
    SplitKeeps(m, w, EXTENT_HEADER, limit, o, m[o].h.size, o);
    forall a ensures Reaches(w, EXTENT_HEADER, limit, a) <==> Reaches(m, EXTENT_HEADER, limit, a) {
      SplitKeeps(m, w, EXTENT_HEADER, limit, o, m[o].h.size, a);
    }
  }

  /** The state after taking entry i off list k. */
  function UnlinkedExts(exts: Extents, l: seq<Rid>, i: nat): Extents
    requires i < |l| && IsDeadHead(exts, l[i]) && (i > 0 ==> IsDeadHead(exts, l[i - 1]))
  {
    AddFree(if i == 0 then exts else SetNext(exts, l[i - 1], NextOf(exts, l[i])), l[i].ext, 0 - SizeOf(exts, l[i]))
  }

  function UnlinkedHeads(exts: Extents, heads: seq<Rid>, k: nat, l: seq<Rid>, i: nat): seq<Rid>
    requires k < |heads| && i < |l| && IsDeadHead(exts, l[i])
  {
    if i == 0 then heads[k := NextOf(exts, l[i])] else heads
  }

  lemma AddFreeKeeps(exts: Extents, g: Gap, id: int, d: int)
    requires TilesOk(exts, g) && id in exts
    ensures SameRecords(exts, AddFree(exts, id, d), g)
    ensures forall q :: Look(AddFree(exts, id, d), q) == Look(exts, q)
  {
    var exts' := AddFree(exts, id, d);
    forall q | RecordAt(exts, g, q) ensures Look(exts, q).Head? {
      RecordIsTile(exts, g, q);
    }
  }

  lemma SameRecordsCompose(a: Extents, b: Extents, c: Extents, g: Gap)
    requires SameRecords(a, b, g) && SameRecords(b, c, g)
    ensures SameRecords(a, c, g)
  {
  }

  /** Free space follows the hole when records stay where they are. */
  lemma FreeFollows(exts: Extents, exts': Extents, g: Gap, g': Gap, id: int, d: int)
    requires SameRecords(exts, exts', g) && FreeOk(exts, g) && id in exts && g' == g.(hole := g'.hole)
    requires forall j :: j in exts ==> exts'[j].freeSpace == exts[j].freeSpace + if j == id then d else 0
    requires forall j :: j in exts ==> HoleSize(exts', g', j) == HoleSize(exts, g, j) - if j == id then d else 0
    ensures FreeOk(exts', g')
  {
    forall j | j in exts' && Tiled(exts'[j].mem, EXTENT_HEADER, Limit(exts', g', j))
      ensures exts'[j].freeSpace ==
                DeadSum(exts'[j].mem, EXTENT_HEADER, Limit(exts', g', j))
                    - HoleSize(exts', g', j) - LostSize(g'.lost, j)
    {
      assert Limit(exts', g', j) == Limit(exts', g, j);
    }
  }

  /** Lost records stay where they are when the hole changes. */
  lemma LostFollows(exts: Extents, exts': Extents, g: Gap, hole: Rid)
    requires SameRecords(exts, exts', g) && LostOk(exts, g) && !IsLost(g.lost, hole)
    ensures LostOk(exts', g.(hole := hole))
  {
    hide TilesOk, Tiled, Reaches;
    forall i | 0 <= i < |g.lost|
      ensures ListedAt(exts', g.(hole := hole), g.lost[i].rid) && SizeOf(exts', g.lost[i].rid) == g.lost[i].size
    {
      SameDead(exts, exts', g, hole, g.lost[i].rid);
    }
  }

  /** Entries of two lists are different records. */
  lemma ListsApart(exts: Extents, lists: seq<seq<Rid>>, g: Gap, j: nat, k: nat, r: Rid)
    requires ListedOk(exts, lists, g) && j < |lists| && k < |lists| && j != k && r in lists[k]
    ensures r !in lists[j] && r != g.hole && DeadAt(exts, g, r)
  {
  }

  lemma UnlinkLinks(exts: Extents, exts': Extents, heads: seq<Rid>, lists: seq<seq<Rid>>, g: Gap, k: nat, i: nat)
    requires LinksOk(exts, heads, lists) && ListedOk(exts, lists, g) && k < SLOTS && i < |lists[k]|
    requires IsDeadHead(exts, lists[k][i])
    requires i > 0 ==> IsDeadHead(exts', lists[k][i - 1]) && NextOf(exts', lists[k][i - 1]) == NextOf(exts, lists[k][i])
    requires forall q :: i == 0 || q != lists[k][i - 1] ==> Look(exts', q) == Look(exts, q)
    ensures LinksOk(exts', UnlinkedHeads(exts, heads, k, lists[k], i), lists[k := Without(lists[k], i)])
  {
    hide Linked, Distinct, Without, ListedOk;
    var l := lists[k];
    var heads', lists' := UnlinkedHeads(exts, heads, k, l, i), lists[k := Without(l, i)];
    forall j | 0 <= j < SLOTS ensures Linked(exts', heads'[j], lists'[j]) && Distinct(lists'[j]) {
      if j != k {
        if i > 0 { ListsApart(exts, lists, g, j, k, l[i - 1]); }
        LinkedFrame(exts, exts', heads[j], lists[j]);
      } else {
        WithoutKeeps(l, i, l[i]);
        if i == 0 {
          FirstUnlinked(exts, heads[k], l);
          LinkedFrame(exts, exts', NextOf(exts, l[0]), Without(l, 0));
        } else {
          UnlinkInside(exts, exts', heads[k], l, i);
        }
      }
    }
  }

  lemma FirstUnlinked(exts: Extents, head: Rid, l: seq<Rid>)
    requires l != [] && Linked(exts, head, l)
    ensures IsDeadHead(exts, l[0]) && Linked(exts, NextOf(exts, l[0]), Without(l, 0))
  {
    assert Without(l, 0) == l[1..];
  }

  lemma UnlinkListed(exts: Extents, exts': Extents, lists: seq<seq<Rid>>, g: Gap, k: nat, i: nat)
    requires SameRecords(exts, exts', g) && ListedOk(exts, lists, g) && g.hole == NULL_RID
    requires k < |lists| && i < |lists[k]| && Distinct(lists[k])
    ensures ListedOk(exts', lists[k := Without(lists[k], i)], g.(hole := lists[k][i]))
    ensures DeadAt(exts', g.(hole := lists[k][i]), lists[k][i])
  {
    hide Distinct, Without, TilesOk, Tiled, Reaches, Slot;
    var r := lists[k][i];
    var lists', g' := lists[k := Without(lists[k], i)], g.(hole := r);
    assert Belongs(exts, g, r, k);
    forall q, j | 0 <= j < |lists|
      ensures q in lists'[j] <==> Belongs(exts', g', q, j)
    {
      SameDead(exts, exts', g, r, q);
      WithoutKeeps(lists[k], i, q);
      NullIsNoRecord(exts, g, NULL_RID);
      assert q in lists[j] <==> Belongs(exts, g, q, j);
    }
    SameDead(exts, exts', g, r, r);
  }

  /** Deleted records stay deleted records, whatever the hole. */
  lemma SameDead(exts: Extents, exts': Extents, g: Gap, hole: Rid, q: Rid)
    requires SameRecords(exts, exts', g)
    ensures DeadAt(exts', g.(hole := hole), q) <==> DeadAt(exts, g, q)
    ensures DeadAt(exts, g, q) ==> SizeOf(exts', q) == SizeOf(exts, q)
  {
    hide TilesOk, Tiled, Reaches;
    assert RecordAt(exts', g.(hole := hole), q) <==> RecordAt(exts', g, q);
  }

  lemma HoleAside(exts: Extents, g: Gap, hole: Rid)
    requires TilesOk(exts, g)
    ensures TilesOk(exts, g.(hole := hole))
  {
    assert forall id :: id in exts ==> Limit(exts, g.(hole := hole), id) == Limit(exts, g, id);
  }

  lemma NullIsNoRecord(exts: Extents, g: Gap, r: Rid)
    requires r == NULL_RID
    ensures !DeadAt(exts, g, r)
  {
    if RecordAt(exts, g, r) {
      RecordIsTile(exts, g, r);
    }
  }

  /** Taking an entry off its list touches one link and one counter. */
  lemma UnlinkMoves(exts: Extents, g: Gap, l: seq<Rid>, i: nat)
    requires TilesOk(exts, g) && i < |l| && DeadAt(exts, g, l[i])
    requires (i > 0 ==> DeadAt(exts, g, l[i - 1]) && l[i - 1] != l[i])
    ensures var exts' := UnlinkedExts(exts, l, i);
            && SameRecords(exts, exts', g)
            && (forall q :: i == 0 || q != l[i - 1] ==> Look(exts', q) == Look(exts, q))
            && (i > 0 ==> IsDeadHead(exts', l[i - 1]) && NextOf(exts', l[i - 1]) == NextOf(exts, l[i]))
            && (forall j :: j in exts ==>
                 && j in exts'
                 && exts'[j].freeSpace == exts[j].freeSpace - if j == l[i].ext then SizeOf(exts, l[i]) else 0)
  {
    hide Tiled, Reaches, DeadSum, TilesOk, RecordAt;
    var r := l[i];
    var size: int := SizeOf(exts, r);
    var mid := if i == 0 then exts else SetNext(exts, l[i - 1], NextOf(exts, r));
    if i > 0 {
      SetNextKeeps(exts, g, l[i - 1], NextOf(exts, r));
    } else {
      AddFreeKeeps(exts, g, r.ext, 0);
      assert AddFree(exts, r.ext, 0) == exts;
    }
    AddFreeKeeps(mid, g, r.ext, 0 - size);
    SameRecordsCompose(exts, mid, UnlinkedExts(exts, l, i), g);
  }

  lemma {:induction false} DistinctNeighbours(l: seq<Rid>, i: nat)
    requires Distinct(l) && 0 < i < |l|
    ensures l[i - 1] != l[i]
  {
    if i > 1 {
      DistinctNeighbours(l[1..], i - 1);
    }
  }

  lemma UnlinkKeeps(exts: Extents, heads: seq<Rid>, lists: seq<seq<Rid>>, g: Gap, k: nat, i: nat)
    requires Consistent(exts, heads, lists, g) && g.hole == NULL_RID && k < SLOTS && i < |lists[k]|
    ensures IsDeadHead(exts, lists[k][i]) && (i > 0 ==> IsDeadHead(exts, lists[k][i - 1]))
    ensures Consistent(UnlinkedExts(exts, lists[k], i), UnlinkedHeads(exts, heads, k, lists[k], i),
                       lists[k := Without(lists[k], i)], g.(hole := lists[k][i]))
    ensures SameRecords(exts, UnlinkedExts(exts, lists[k], i), g)
  {
    hide Tiled, Reaches, DeadSum, Linked, Distinct, Without, TilesOk, RecordAt, Slot, SameRecords, FreeOk;
    var l, r := lists[k], lists[k][i];
    assert Belongs(exts, g, r, k) && (i > 0 ==> Belongs(exts, g, l[i - 1], k));
    if i > 0 { DistinctNeighbours(l, i); }
    UnlinkMoves(exts, g, l, i);
    var exts' := UnlinkedExts(exts, l, i);
    UnlinkLinks(exts, exts', heads, lists, g, k, i);
    UnlinkListed(exts, exts', lists, g, k, i);
    SameTiles(exts, exts', g);
    HoleAside(exts', g, r);
    LostFollows(exts, exts', g, r);
    FreeFollows(exts, exts', g, g.(hole := r), r.ext, 0 - SizeOf(exts, r));
  }

  lemma SameTiles(exts: Extents, exts': Extents, g: Gap)
    requires SameRecords(exts, exts', g)
    ensures TilesOk(exts', g)
  {
  }

  /** The state after putting the hole r at the front of list k. */
  function LinkedExts(exts: Extents, heads: seq<Rid>, r: Rid, k: nat): Extents
    requires IsDeadHead(exts, r) && k < |heads|
  {
    AddFree(SetNext(exts, r, heads[k]), r.ext, SizeOf(exts, r))
  }

  lemma LinkLinks(exts: Extents, exts': Extents, heads: seq<Rid>, lists: seq<seq<Rid>>, r: Rid, k: nat)
    requires LinksOk(exts, heads, lists) && k < SLOTS && forall j :: 0 <= j < SLOTS ==> r !in lists[j]
    requires IsDeadHead(exts', r) && NextOf(exts', r) == heads[k]
    requires forall q :: q != r ==> Look(exts', q) == Look(exts, q)
    ensures LinksOk(exts', heads[k := r], lists[k := [r] + lists[k]])
  {
    hide Distinct;
    var heads', lists' := heads[k := r], lists[k := [r] + lists[k]];
    forall j | 0 <= j < SLOTS ensures Linked(exts', heads'[j], lists'[j]) && Distinct(lists'[j]) {
      LinkedFrame(exts, exts', heads[j], lists[j]);
      if j == k {
        assert ([r] + lists[k])[1..] == lists[k];
        DistinctCons(r, lists[k]);
      }
    }
  }

  lemma DistinctCons(r: Rid, l: seq<Rid>)
    requires Distinct(l) && r !in l
    ensures Distinct([r] + l)
  {
    assert ([r] + l)[1..] == l;
  }

  lemma LinkListed(exts: Extents, exts': Extents, lists: seq<seq<Rid>>, g: Gap, k: nat)
    requires SameRecords(exts, exts', g) && ListedOk(exts, lists, g) && g.hole != NULL_RID && DeadAt(exts, g, g.hole)
    requires !IsLost(g.lost, g.hole)
    requires k < |lists| && SizeOf(exts, g.hole) >= 1 && Slot(SizeOf(exts, g.hole)) == k
    ensures ListedOk(exts', lists[k := [g.hole] + lists[k]], g.(hole := NULL_RID))
  {
    hide TilesOk, Tiled, Reaches, Slot;
    var r := g.hole;
    var lists', g' := lists[k := [r] + lists[k]], g.(hole := NULL_RID);
    forall q, j | 0 <= j < |lists| ensures q in lists'[j] <==> Belongs(exts', g', q, j) {
      SameDead(exts, exts', g, NULL_RID, q);
      NullIsNoRecord(exts', g', NULL_RID);
      assert q in lists[j] <==> Belongs(exts, g, q, j);
    }
  }

  lemma LinkKeeps(exts: Extents, heads: seq<Rid>, lists: seq<seq<Rid>>, g: Gap)
    requires Consistent(exts, heads, lists, g) && g.hole != NULL_RID
    ensures IsDeadHead(exts, g.hole) && 1 <= SizeOf(exts, g.hole) <= MAX_RECORD
    ensures var k := Slot(SizeOf(exts, g.hole));
            && k < SLOTS && SameRecords(exts, LinkedExts(exts, heads, g.hole, k), g)
            && Consistent(LinkedExts(exts, heads, g.hole, k), heads[k := g.hole], lists[k := [g.hole] + lists[k]],
                 g.(hole := NULL_RID))
  {
    hide Tiled, Reaches, DeadSum, Linked, Distinct, TilesOk, RecordAt, Slot;
    var r := g.hole;
    RecordIsTile(exts, g, r);
    var size: int := SizeOf(exts, r);
    SlotsSuffice(size);
    var k := Slot(size);
    var mid, exts' := SetNext(exts, r, heads[k]), LinkedExts(exts, heads, r, k);
    SetNextKeeps(exts, g, r, heads[k]);
    AddFreeKeeps(mid, g, r.ext, size);
    SameRecordsCompose(exts, mid, exts', g);
    forall j | 0 <= j < SLOTS ensures r !in lists[j] {
      assert r in lists[j] <==> Belongs(exts, g, r, j);
    }
    LinkLinks(exts, exts', heads, lists, r, k);
    LinkListed(exts, exts', lists, g, k);
    HoleAside(exts', g, NULL_RID);
    NullIsNoRecord(exts, g, NULL_RID);
    LostFollows(exts, exts', g, NULL_RID);
    FreeFollows(exts, exts', g, g.(hole := NULL_RID), r.ext, size);
  }

  /** The state after writing a deleted record of the given size behind the carved part of the open extent. */
  function CarvedExts(exts: Extents, g: Gap, size: nat): Extents
    requires g.open in exts && 0 <= g.upto && g.upto + RECORD_HEADER <= |exts[g.open].mem|
  {
    exts[g.open := exts[g.open].(mem := WriteHead(exts[g.open].mem, g.upto, Dead(size, g.upto, NULL_RID)))]
  }

  /** Memory that gains one deleted record at the end of the carved part. */
  lemma CarveBody(m: Memory, w: Memory, upto: int, size: nat)
    requires EXTENT_HEADER <= upto && Tiled(m, EXTENT_HEADER, upto) && MIN_RECORD <= size <= MAX_RECORD
    requires upto + size <= |m|
    requires w == WriteHead(m, upto, Dead(size, upto, NULL_RID))
    ensures Tiled(w, EXTENT_HEADER, upto + size)
    ensures DeadSum(w, EXTENT_HEADER, upto + size) == DeadSum(m, EXTENT_HEADER, upto) + size
    ensures forall a :: Reaches(w, EXTENT_HEADER, upto + size, a) <==> Reaches(m, EXTENT_HEADER, upto, a) || a == upto
    ensures forall a :: Reaches(m, EXTENT_HEADER, upto, a) ==> 0 <= a < |m| && w[a] == m[a]
  {
    hide Tiled, Reaches, DeadSum;
    forall a | Reaches(m, EXTENT_HEADER, upto, a)
      ensures 0 <= a < |m| && w[a] == m[a] && Tile(w, a, upto) && IsHead(m, a)
    {
      TileAt(m, EXTENT_HEADER, upto, a);
    }
    Appended(m, w, EXTENT_HEADER, upto, upto + size, upto);
    forall a ensures Reaches(w, EXTENT_HEADER, upto + size, a) <==> Reaches(m, EXTENT_HEADER, upto, a) || a == upto {
      Appended(m, w, EXTENT_HEADER, upto, upto + size, a);
    }
  }

  /** A deleted record other than the hole. */
  ghost predicate ListedAt(exts: Extents, g: Gap, r: Rid) {
    DeadAt(exts, g, r) && r != g.hole
  }

  /** One extent changes, and the listed records are the same, byte for byte in their headers. */
  ghost predicate SameListed(exts: Extents, exts': Extents, g: Gap, g': Gap, id: int) {
    && id in exts && g'.lost == g.lost && exts'.Keys == exts.Keys
    && (forall j :: j in exts && j != id ==> exts'[j] == exts[j])
    && (g.hole == NULL_RID || g.hole.ext == id) && (g'.hole == NULL_RID || g'.hole.ext == id)
    && (g.open == g'.open || g.open == g'.open == id) && (g.open == id || g.upto == g'.upto)
    && (forall a :: ListedAt(exts', g', Rid(id, a)) <==> ListedAt(exts, g, Rid(id, a)))
    && (forall a :: ListedAt(exts, g, Rid(id, a)) ==> Look(exts', Rid(id, a)) == Look(exts, Rid(id, a)))
  }

  lemma SameListedAt(exts: Extents, exts': Extents, g: Gap, g': Gap, id: int, r: Rid)
    requires SameListed(exts, exts', g, g', id)
    ensures ListedAt(exts', g', r) <==> ListedAt(exts, g, r)
    ensures ListedAt(exts, g, r) ==> Look(exts', r) == Look(exts, r)
    ensures g'.lost == g.lost
  {
    hide Tiled, Reaches;
    NullIsNoRecord(exts, g, NULL_RID);
    NullIsNoRecord(exts', g', NULL_RID);
    if r.ext == id {
      assert r == Rid(id, r.off);
    } else if r.ext in exts {
      assert Limit(exts', g', r.ext) == Limit(exts, g, r.ext);
    }
  }

  lemma BodyChange(exts: Extents, exts': Extents, heads: seq<Rid>, lists: seq<seq<Rid>>, g: Gap, g': Gap, id: int)
    requires Consistent(exts, heads, lists, g) && SameListed(exts, exts', g, g', id)
    requires EXTENT_HEADER <= Limit(exts', g', id) <= |exts'[id].mem|
    requires Tiled(exts'[id].mem, EXTENT_HEADER, Limit(exts', g', id))
    requires exts'[id].freeSpace ==
               DeadSum(exts'[id].mem, EXTENT_HEADER, Limit(exts', g', id))
                   - HoleSize(exts', g', id) - LostSize(g'.lost, id)
    requires g'.hole != NULL_RID ==> DeadAt(exts', g', g'.hole)
    ensures Consistent(exts', heads, lists, g')
  {
    hide Tiled, Reaches, DeadSum, Linked, Distinct, Slot, RecordAt, SameListed;
    forall r, k | 0 <= k < |lists| ensures r in lists[k] <==> Belongs(exts', g', r, k) {
      assert r in lists[k] <==> Belongs(exts, g, r, k);
      SameListedAt(exts, exts', g, g', id, r);
    }
    forall k | 0 <= k < SLOTS ensures Linked(exts', heads[k], lists[k]) {
      forall r | r in lists[k] ensures Look(exts', r) == Look(exts, r) {
        assert Belongs(exts, g, r, k);
        SameListedAt(exts, exts', g, g', id, r);
      }
      LinkedFrame(exts, exts', heads[k], lists[k]);
    }
    OtherExtents(exts, exts', g, g', id);
    LostStay(exts, exts', g, g', id);
  }

  lemma LostStay(exts: Extents, exts': Extents, g: Gap, g': Gap, id: int)
    requires LostOk(exts, g) && SameListed(exts, exts', g, g', id)
    ensures LostOk(exts', g')
  {
    hide Tiled, Reaches;
    forall i | 0 <= i < |g'.lost|
      ensures ListedAt(exts', g', g'.lost[i].rid) && SizeOf(exts', g'.lost[i].rid) == g'.lost[i].size
    {
      SameListedAt(exts, exts', g, g', id, g.lost[i].rid);
    }
  }

  lemma OtherExtents(exts: Extents, exts': Extents, g: Gap, g': Gap, id: int)
    requires TilesOk(exts, g) && FreeOk(exts, g) && SameListed(exts, exts', g, g', id)
    requires EXTENT_HEADER <= Limit(exts', g', id) <= |exts'[id].mem|
    requires Tiled(exts'[id].mem, EXTENT_HEADER, Limit(exts', g', id))
    requires exts'[id].freeSpace ==
               DeadSum(exts'[id].mem, EXTENT_HEADER, Limit(exts', g', id))
                   - HoleSize(exts', g', id) - LostSize(g'.lost, id)
    ensures TilesOk(exts', g') && FreeOk(exts', g')
  {
    hide Tiled, Reaches, DeadSum;
    forall j | j in exts && j != id
      ensures Limit(exts', g', j) == Limit(exts, g, j) && HoleSize(exts', g', j) == HoleSize(exts, g, j)
    {
    }
  }

  lemma CarveKeeps(exts: Extents, heads: seq<Rid>, lists: seq<seq<Rid>>, g: Gap, size: nat)
    requires Consistent(exts, heads, lists, g) && g.hole == NULL_RID && g.open in exts
    requires MIN_RECORD <= size <= MAX_RECORD && g.upto + size <= |exts[g.open].mem|
    ensures EXTENT_HEADER <= g.upto
    ensures Consistent(CarvedExts(exts, g, size), heads, lists, Gap(Rid(g.open, g.upto), g.open, g.upto + size, g.lost))
  {
    hide Tiled, Reaches, DeadSum, LinksOk, ListedOk;
    assert Limit(exts, g, g.open) == g.upto;
    var id, m := g.open, exts[g.open].mem;
    var exts', g' := CarvedExts(exts, g, size), Gap(Rid(g.open, g.upto), g.open, g.upto + size, g.lost);
    CarveBody(m, exts'[id].mem, g.upto, size);
    forall a ensures ListedAt(exts', g', Rid(id, a)) <==> ListedAt(exts, g, Rid(id, a))
             ensures ListedAt(exts, g, Rid(id, a)) ==> Look(exts', Rid(id, a)) == Look(exts, Rid(id, a))
    {
      if Reaches(m, EXTENT_HEADER, g.upto, a) { TileAt(m, EXTENT_HEADER, g.upto, a); }
    }
    BodyChange(exts, exts', heads, lists, g, g', id);
  }

  /** Giving up on the hole: the space is as consistent as before, with one lost record more. */
  lemma LoseKeeps(exts: Extents, heads: seq<Rid>, lists: seq<seq<Rid>>, g: Gap)
    requires Consistent(exts, heads, lists, g) && g.hole != NULL_RID
    ensures IsDeadHead(exts, g.hole)
    ensures Consistent(exts, heads, lists, g.(hole := NULL_RID, lost := [Lost(g.hole, SizeOf(exts, g.hole))] + g.lost))
  {
    hide Tiled, Reaches, DeadSum, Linked, Distinct, Slot;
    var lost := [Lost(g.hole, SizeOf(exts, g.hole))] + g.lost;
    var g' := g.(hole := NULL_RID, lost := lost);
    assert lost[1..] == g.lost;
    assert forall id :: id in exts ==> Limit(exts, g', id) == Limit(exts, g, id);
    NullIsNoRecord(exts, g, NULL_RID);
    forall r ensures IsLost(lost, r) <==> r == g.hole || IsLost(g.lost, r) {
      if i :| 0 <= i < |g.lost| && g.lost[i].rid == r { assert lost[i + 1].rid == r; }
      assert lost[0].rid == g.hole;
    }
    forall r, k | 0 <= k < |lists| ensures r in lists[k] <==> Belongs(exts, g', r, k) {
      assert r in lists[k] <==> Belongs(exts, g, r, k);
    }
  }
}

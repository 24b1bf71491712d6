// What inserting a record does to the record space: the delete lists, the free space and the chain of live records.
module RecordInsert {
  import opened DeleteSlots
  import opened ExtentBody
  import opened DeleteLists
  import opened RecordChain
  import opened RecordSpace

  type Records = map<int, seq<Rec>>

  /** Each extent's chain holds exactly the records that were inserted into it. */
  ghost predicate ChainsOk(exts: Extents, g: Gap, recs: Records) {
    && recs.Keys == exts.Keys
    && forall id :: id in exts && Tiled(exts[id].mem, EXTENT_HEADER, Limit(exts, g, id)) ==>
         RecordsOk(exts[id].mem, Limit(exts, g, id), exts[id].first, exts[id].last, exts[id].recCount, recs[id])
  }

  lemma SetNextChains(exts: Extents, g: Gap, recs: Records, r: Rid, next: Rid)
    requires TilesOk(exts, g) && DeadAt(exts, g, r) && ChainsOk(exts, g, recs)
    ensures ChainsOk(SetNext(exts, r, next), g, recs)
  {
    hide Tiled, Reaches, RecordsOk;
    RecordIsTile(exts, g, r);
    var e, exts' := exts[r.ext], SetNext(exts, r, next);
    var m, w, limit := e.mem, exts'[r.ext].mem, Limit(exts, g, r.ext);
    RelinkKeeps(m, w, limit, r.off);
    DeadHeaderKeepsRecords(m, w, limit, r.off, e.first, e.last, e.recCount, recs[r.ext]);
  }

  lemma AddFreeChains(exts: Extents, g: Gap, recs: Records, id: int, d: int)
    requires ChainsOk(exts, g, recs) && id in exts
    ensures ChainsOk(AddFree(exts, id, d), g, recs)
  {
    hide Tiled, Reaches, RecordsOk;
  }

  lemma HoleAsideChains(exts: Extents, g: Gap, recs: Records, hole: Rid)
    requires ChainsOk(exts, g, recs)
    ensures ChainsOk(exts, g.(hole := hole), recs)
  {
    hide Tiled, Reaches, RecordsOk;
    assert forall id :: id in exts ==> Limit(exts, g.(hole := hole), id) == Limit(exts, g, id);
  }

  lemma UnlinkChains(exts: Extents, heads: seq<Rid>, lists: seq<seq<Rid>>, g: Gap, recs: Records, k: nat, i: nat)
    requires Consistent(exts, heads, lists, g) && g.hole == NULL_RID && k < SLOTS && i < |lists[k]|
    requires ChainsOk(exts, g, recs)
    ensures IsDeadHead(exts, lists[k][i]) && (i > 0 ==> IsDeadHead(exts, lists[k][i - 1]))
    ensures ChainsOk(UnlinkedExts(exts, lists[k], i), g.(hole := lists[k][i]), recs)
  {
    hide Tiled, Reaches, RecordsOk, TilesOk, FreeOk, Linked, Distinct, ChainsOk;
    var l, r := lists[k], lists[k][i];
    assert Belongs(exts, g, r, k) && (i > 0 ==> Belongs(exts, g, l[i - 1], k));
    var mid := if i == 0 then exts else SetNext(exts, l[i - 1], NextOf(exts, r));
    if i > 0 {
      SetNextChains(exts, g, recs, l[i - 1], NextOf(exts, r));
    }
    AddFreeChains(mid, g, recs, r.ext, 0 - SizeOf(exts, r));
    HoleAsideChains(UnlinkedExts(exts, l, i), g, recs, r);
  }

  lemma LinkChains(exts: Extents, heads: seq<Rid>, lists: seq<seq<Rid>>, g: Gap, recs: Records, k: nat)
    requires Consistent(exts, heads, lists, g) && g.hole != NULL_RID && k < SLOTS && ChainsOk(exts, g, recs)
    ensures IsDeadHead(exts, g.hole) && ChainsOk(LinkedExts(exts, heads, g.hole, k), g.(hole := NULL_RID), recs)
  {
    hide Tiled, Reaches, RecordsOk, TilesOk, FreeOk, Linked, Distinct, ChainsOk;
    SetNextChains(exts, g, recs, g.hole, heads[k]);
    AddFreeChains(SetNext(exts, g.hole, heads[k]), g, recs, g.hole.ext, SizeOf(exts, g.hole));
    HoleAsideChains(LinkedExts(exts, heads, g.hole, k), g, recs, NULL_RID);
  }

  lemma CarveChains(exts: Extents, heads: seq<Rid>, lists: seq<seq<Rid>>, g: Gap, recs: Records, size: nat)
    requires Consistent(exts, heads, lists, g) && g.hole == NULL_RID && g.open in exts && ChainsOk(exts, g, recs)
    requires MIN_RECORD <= size <= MAX_RECORD && g.upto + size <= |exts[g.open].mem|
    ensures EXTENT_HEADER <= g.upto
    ensures ChainsOk(CarvedExts(exts, g, size), Gap(Rid(g.open, g.upto), g.open, g.upto + size, g.lost), recs)
  {
    hide Tiled, Reaches, RecordsOk, DeadSum, FreeOk, LinksOk;
    assert Limit(exts, g, g.open) == g.upto;
    var e, exts' := exts[g.open], CarvedExts(exts, g, size);
    CarveBody(e.mem, exts'[g.open].mem, g.upto, size);
    CarveKeepsRecords(e.mem, exts'[g.open].mem, g.upto, size, e.first, e.last, e.recCount, recs[g.open]);
  }

  /** The extent after the record with data d took the hole r. */
  function TakenExts(exts: Extents, r: Rid, w: Memory): Extents
    requires r.ext in exts
  {
    var e := exts[r.ext];
    exts[r.ext := Extent(w, e.freeSpace, if e.first == NO_OFFSET then r.off else e.first, r.off, e.recCount + 1)]
  }

  /** What is left of the hole, if anything. */
  function RestOf(exts: Extents, g: Gap, need: int): Gap
    requires Look(exts, g.hole).Head?
  {
    g.(hole := if need < SizeOf(exts, g.hole) then Rid(g.hole.ext, g.hole.off + need) else NULL_RID)
  }

  lemma LastIsRecord(m: Memory, limit: int, first: int, last: int, count: int, l: seq<Rec>)
    requires Tiled(m, EXTENT_HEADER, limit) && RecordsOk(m, limit, first, last, count, l)
    ensures last != NO_OFFSET ==> Reaches(m, EXTENT_HEADER, limit, last) && IsHead(m, last) && m[last].h.Live?
  {
    if l != [] {
      ChainAt(m, first, NO_OFFSET, l, |l| - 1);
    }
  }

  lemma TakeListed(exts: Extents, g: Gap, w: Memory, need: int, d: seq<Byte>)
    requires TilesOk(exts, g) && DeadAt(exts, g, g.hole)
    requires Taken(exts[g.hole.ext].mem, w, Limit(exts, g, g.hole.ext), g.hole.off, need, d, exts[g.hole.ext].last)
    requires exts[g.hole.ext].last != NO_OFFSET ==>
               Reaches(exts[g.hole.ext].mem, EXTENT_HEADER, Limit(exts, g, g.hole.ext), exts[g.hole.ext].last)
    ensures SameListed(exts, TakenExts(exts, g.hole, w), g, RestOf(exts, g, need), g.hole.ext)
  {
    hide Tiled, Reaches, DeadSum;
    var id, o := g.hole.ext, g.hole.off;
    var m, limit, q := exts[id].mem, Limit(exts, g, id), exts[id].last;
    var exts', g' := TakenExts(exts, g.hole, w), RestOf(exts, g, need);
    TakenBody(m, w, limit, o, need, d, q);
    forall a ensures ListedAt(exts', g', Rid(id, a)) <==> ListedAt(exts, g, Rid(id, a))
             ensures ListedAt(exts, g, Rid(id, a)) ==> Look(exts', Rid(id, a)) == Look(exts, Rid(id, a))
    {
      if Reaches(m, EXTENT_HEADER, limit, a) {
        if a != o {
          TakenElsewhere(m, w, limit, o, need, d, q, a);
          if a > o { TilesApart(m, EXTENT_HEADER, limit, o, a); }
        }
      }
    }
  }

  lemma TakeKeeps(exts: Extents, heads: seq<Rid>, lists: seq<seq<Rid>>, g: Gap, recs: Records, w: Memory, need: int,
                  d: seq<Byte>)
    requires Consistent(exts, heads, lists, g) && ChainsOk(exts, g, recs) && g.hole != NULL_RID
    requires Taken(exts[g.hole.ext].mem, w, Limit(exts, g, g.hole.ext), g.hole.off, need, d, exts[g.hole.ext].last)
    ensures Look(exts, g.hole).Head?
    ensures Consistent(TakenExts(exts, g.hole, w), heads, lists, RestOf(exts, g, need))
    ensures ChainsOk(TakenExts(exts, g.hole, w), RestOf(exts, g, need),
                     recs[g.hole.ext := recs[g.hole.ext] + [Rec(g.hole.off, d)]])
  {
    hide Tiled, Reaches, DeadSum, RecordsOk, LinksOk, ListedOk;
    var id, o := g.hole.ext, g.hole.off;
    var e, limit := exts[id], Limit(exts, g, id);
    var exts', g' := TakenExts(exts, g.hole, w), RestOf(exts, g, need);
    RecordIsTile(exts, g, g.hole);
    LastIsRecord(e.mem, limit, e.first, e.last, e.recCount, recs[id]);
    TakenBody(e.mem, w, limit, o, need, d, e.last);
    TakenRecords(e.mem, w, limit, o, need, d, e.first, e.last, e.recCount, recs[id]);
    TakeListed(exts, g, w, need, d);
    BodyChange(exts, exts', heads, lists, g, g', id);
  }

  /** The record takes the whole hole. */
  lemma InsertWhole(exts: Extents, heads: seq<Rid>, lists: seq<seq<Rid>>, lost: seq<Lost>, recs: Records,
                    r: Rid, w: Memory, d: seq<Byte>)
    requires Consistent(exts, heads, lists, Closed(lost).(hole := r)) && ChainsOk(exts, Closed(lost).(hole := r), recs)
    requires r != NULL_RID
    requires Taken(exts[r.ext].mem, w, |w|, r.off, SizeOf(exts, r), d, exts[r.ext].last)
    ensures Consistent(TakenExts(exts, r, w), heads, lists, Closed(lost))
    ensures ChainsOk(TakenExts(exts, r, w), Closed(lost), recs[r.ext := recs[r.ext] + [Rec(r.off, d)]])
  {
    hide Tiled, Reaches, DeadSum, RecordsOk, LinksOk, ListedOk, FreeOk;
    TakeKeeps(exts, heads, lists, Closed(lost).(hole := r), recs, w, SizeOf(exts, r), d);
    assert RestOf(exts, Closed(lost).(hole := r), SizeOf(exts, r)) == Closed(lost);
  }

  /** The record takes the front of the hole, and the rest goes on list k. */
  lemma InsertSplit(exts: Extents, heads: seq<Rid>, lists: seq<seq<Rid>>, lost: seq<Lost>, recs: Records,
                    r: Rid, w: Memory, need: nat, d: seq<Byte>, k: nat)
    requires Consistent(exts, heads, lists, Closed(lost).(hole := r)) && ChainsOk(exts, Closed(lost).(hole := r), recs)
    requires r != NULL_RID
    requires Taken(exts[r.ext].mem, w, |w|, r.off, need, d, exts[r.ext].last) && need < SizeOf(exts, r)
    requires k == Slot(SizeOf(exts, r) - need) && k < |heads| && w[r.off + need].h.nextRid == heads[k]
    ensures var rest := Rid(r.ext, r.off + need);
            var exts' := AddFree(TakenExts(exts, r, w), r.ext, SizeOf(exts, r) - need);
            && Consistent(exts', heads[k := rest], lists[k := [rest] + lists[k]], Closed(lost))
            && ChainsOk(exts', Closed(lost), recs[r.ext := recs[r.ext] + [Rec(r.off, d)]])
  {
    hide Tiled, Reaches, DeadSum, RecordsOk, Linked, Distinct, ListedOk, FreeOk, TilesOk;
    var g, rest, at := Closed(lost).(hole := r), Rid(r.ext, r.off + need), r.off + need;
    RecordIsTile(exts, g, r);
    var wm := w[at := Head(w[at].h.(nextRid := NULL_RID))];
    var recs' := recs[r.ext := recs[r.ext] + [Rec(r.off, d)]];
    TakeKeeps(exts, heads, lists, g, recs, wm, need, d);
    var mid, g' := TakenExts(exts, r, wm), Closed(lost).(hole := rest);
    assert RestOf(exts, g, need) == g';
    LinkKeeps(mid, heads, lists, g');
    LinkChains(mid, heads, lists, g', recs', k);
    assert wm[at := Head(wm[at].h.(nextRid := heads[k]))] == w;
    assert LinkedExts(mid, heads, rest, k) == AddFree(TakenExts(exts, r, w), r.ext, SizeOf(exts, r) - need);
  }
}

// Concrete inputs for the promises that the code does not keep, each reached through the operations themselves.
module Shortfalls {
  import opened Powers
  import opened Digits
  import opened Decimals
  import opened Compare
  import opened Rounding
  import AddSub
  import FieldOrder
  import Md5
  import FreeRuns
  import SpaceMap
  import opened SegmentSpace
  import opened PageAllocator
  import StorageUnit
  import CollectionRuns
  import RecordStore
  import ExtentBody
  import ExtentChain

  /** The decimal with one base-10000 digit. */
  method OneDigit(x: int, weight: int, dscale: int) returns (d: Decimal)
    requires 0 < x < NBASE
    ensures fresh(d) && fresh(d.buff) && d.Owned() && d.Stripped() && d.Digs() == [x] && d.weight == weight
    ensures d.dscale == dscale && d.sign == Pos
  {
    var res := new int[] [0, x];
    d := new Decimal();
    d.Install(res, weight, dscale, Pos);
    assert d.Digs() == [x];
  }

  /** 0.0003 rounded to three places is a zero that still has a digit; it compares above a plain zero. */
  method RoundedZeroMiscompares() returns (kept: Decimal, plain: Decimal, c: int)
    ensures Known(kept) && Known(plain) && kept.sign == plain.sign == Pos && kept.Val() == plain.Val() == 0.0 && c != 0
  {
    hide N, Shift, Magnitude, RoundAway, RoundHalfUp, RoomAt;
    kept := OneDigit(3, -1, 4);
    Tiny();
    var rc := Round(kept, 3);
    plain := new Decimal();
    MagnitudeNonNegative(plain.Digs(), plain.weight);
    assert ZeroClash(kept, plain);
    c := Cmp(kept, plain);
  }

  lemma Tiny()
    ensures RoundHalfUp(Magnitude([3], -1), 3) == 0.0
  {
    hide Shift;
    NOne(3);
    ShiftShift(3.0, -4, 3);
    ShiftByFour(Shift(3.0, -1));
    ShiftShift(3.0, -1, 1);
    ShiftNone(3.0);
    FloorIs(0.8, 0);
    ShiftOrder(0.0, 0.0, -3);
  }

  /** x - x into x itself keeps no display scale. */
  method CancelLosesScale() returns (x: Decimal, scale: int, rc: int)
    ensures rc == 0 && x.dscale == 0 < scale
  {
    x := OneDigit(5, -1, 4);
    scale := x.dscale;
    rc := AddSub.Sub(x, x, x);
  }

  /** '{' is above another token exactly when that is a non-digit of lower signed value. */
  lemma BraceOrder(t: FieldOrder.Token)
    ensures FieldOrder.TokenCmp(FieldOrder.Other(123), t) > 0 <==>
              t.Other? && t.c != FieldOrder.TOP && FieldOrder.Signed(t.c) < 123
  {
  }

  /** '{' comes before '|' and before every number. */
  method BraceIsNotGreatest() returns (c: int, n: int)
    ensures c < 0 && n < 0
  {
    var brace: FieldOrder.Name, bar: FieldOrder.Name, zero: FieldOrder.Name := [123], [124], [48];
    c := FieldOrder.LexNumCmp(brace, bar);
    n := FieldOrder.LexNumCmp(brace, zero);
  }

  /** A reservation of no pages after the only segment was used up answers an internal error. */
  method NoPagesAsked() returns (first: Rc, second: Rc)
    ensures first == Ok && second == Sys
  {
    hide Manager.Valid, Manager.FirstAskedIsFull;
    var m := OneSegment();
    first := UseUp(m);
    var found;
    second, found := m.ReservePages(0);
  }

  method OneSegment() returns (m: Manager)
    ensures fresh(m) && fresh(m.segments) && fresh(m.freePos) && fresh(m.totalFree) && fresh(m.sme.mask)
    ensures m.Valid() && m.pages == 8 && |m.segments| == 1 && m.freePos.value == 0 && AllFree(m.sme.Free(), 0, 8)
  {
    hide StartOf, FreeRuns.CountFree, Segment.Valid, Segment.Agrees;
    var sme := new SpaceMap.PageMap(1);
    m := new Manager(sme, 8);
    assert AllFree(sme.Free(), 0, 8);
    var rc := m.DepositASegment(0);
  }

  method UseUp(m: Manager) returns (rc: Rc)
    requires m.Valid() && m.pages == 8 && |m.segments| == 1 && m.freePos.value == 0 && AllFree(m.sme.Free(), 0, 8)
    modifies m.segments, m.freePos, m.totalFree, m.sme.mask
    ensures m.Valid() && rc == Ok && m.FirstAskedIsFull()
  {
    hide FreeRuns.CountFree, Segment.Valid, Segment.Agrees, SpaceMap.Marked;
    HasRoom(m);
    assert RunIn(m.sme.Free(), 8, 0, 0, 8);
    var found;
    rc, found := m.ReservePages(8);
    assert found == 0;
    assert m.freePos.value == 0;
    AllTaken(m);
  }

  lemma HasRoom(m: Manager)
    requires m.Valid() && m.pages == 8 && |m.segments| == 1 && AllFree(m.sme.Free(), 0, 8)
    ensures m.segments[0].totalFree != 0
  {
    var s := m.segments[0];
    assert StartOf(0, 8) == 0;
    assert m.sme.Free()[s.startExtent + 0] <==> FreeRuns.Covers(s.freeSpaceList, 0);
  }

  lemma AllTaken(m: Manager)
    requires m.Valid() && m.pages == 8 && |m.segments| == 1 && forall p :: 0 <= p < 8 ==> !m.sme.Free()[p]
    ensures m.segments[0].freeSpaceList == []
  {
    var s := m.segments[0];
    assert StartOf(0, 8) == 0;
    var l := s.freeSpaceList;
    assert l != [] ==> FreeRuns.Covers(l, l[0].start);
  }

  /** Four bytes put into a new unit are refused, and the space found for them is lost. */
  method ShortDataLosesSpace(stale: nat -> ExtentBody.Cell) returns (u: StorageUnit.Unit, rc: RecordStore.Rc)
    ensures rc == RecordStore.InvalidArg && u.Valid() && !u.Whole()
  {
    hide StorageUnit.Unit.Valid, StorageUnit.Unit.Whole, CollectionRuns.Shows;
    assert ExtentChain.Geometry(4096, 32768, 4096, 0x4_0000);
    u := CollectionRuns.NewUnit(4096, 32768, 4096, 0x4_0000);
    NewUnitHasRoom(u);
    var rid;
    ghost var id, n;
    rc, rid, id, n := u.InsertRecord([4, 0, 0, 0], 20, true, stale);
  }

  lemma NewUnitHasRoom(u: StorageUnit.Unit)
    requires u.Valid() && u.mgr.segments == [] && forall p :: 0 <= p < |u.mgr.sme.Free()| ==> u.mgr.sme.Free()[p]
    ensures u.RoomFor(20, true)
  {
  }

  /** Loading half of a segment's pages from a map with all eight free leaves the other half off the list. */
  method HalfSegmentLoaded() returns (m: Manager, rc: Rc)
    ensures rc == Ok && !m.Valid()
  {
    hide Manager.Valid, Manager.LoadedTo;
    var sme := new SpaceMap.PageMap(1);
    m := new Manager(sme, 8);
    EmptyManager(m);
    rc := m.Init(4);
    assert RoundUp(4, 8) == 8;
    assert m.sme.Free()[4];
  }

  lemma EmptyManager(m: Manager)
    requires m.Valid() && m.segments == []
    ensures m.Shape() && m.totalFree.value == 0 && m.freePos.value == 0
  {
    assert StartOf(0, m.pages) == 0;
  }

  /** One byte and then a chunk of the largest length an int can hold is more than appending can take. */
  method LongChunkFails(process: Md5.Block) returns (ok: bool)
    ensures !ok
  {
    var chunks: seq<seq<Md5.Byte>> := [[0], seq(0x7fff_ffff, i => 0)];
    assert chunks[..1] == [[0]] && [[0]][..0] == [];
    assert Md5.Concat(chunks[..1]) == [0];
    var digest;
    ok, digest := Md5.HashChunks(process, chunks);
  }
}

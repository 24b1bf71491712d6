// Scanning a collection: extent by extent along the chain, record by record inside each, with a skip and a limit.
module Scanner {
  import opened DeleteSlots
  import opened ExtentBody
  import opened DeleteLists
  import opened RecordChain
  import opened RecordSpace
  import opened RecordInsert
  import opened RecordStore
  import ExtentChain

  datatype ScanRc = Found | EndOfCollection | BadArg

  type Bytes = seq<Byte>

  function Length(a: int, b: int, c: int): int {
    a + 256 * b + 65536 * c
  }

  /** The first bytes of a record give its length, as BSON objects do. */
  predicate SelfSized(d: Bytes) {
    |d| >= 4 && Length(d[0], d[1], d[2]) == |d|
  }

  /** The three bytes are the length, low byte first. */
  lemma LengthOfBytes(n: nat)
    requires n < 0x100_0000
    ensures Length(n % 256, n / 256 % 256, n / 65536) == n
  {
    assert n / 65536 == n / 256 / 256;
  }

  ghost predicate AllSelfSized(recs: Records) {
    forall id, i :: id in recs && 0 <= i < |recs[id]| ==> SelfSized(recs[id][i].data)
  }

  function Datas(l: seq<Rec>): seq<Bytes> {
    if l == [] then [] else [l[0].data] + Datas(l[1..])
  }

  /** All records of the extents in order. */
  function Contents(order: seq<int>, recs: Records): seq<Bytes> {
    if order == [] then [] else (if order[0] in recs then Datas(recs[order[0]]) else []) + Contents(order[1..], recs)
  }

  /** What is left of s after skipping skip entries and stopping after max; a negative max is no limit. */
  function Window(s: seq<Bytes>, skip: int, max: int): seq<Bytes> {
    if s == [] || max == 0 then []
    else if skip > 0 then Window(s[1..], skip - 1, max)
    else [s[0]] + Window(s[1..], skip, if max > 0 then max - 1 else max)
  }

  /** Skipping and limiting is dropping, then taking. */
  lemma {:induction false} WindowIsDropThenTake(s: seq<Bytes>, skip: int, max: int)
    ensures var n := if skip <= 0 then 0 else if skip < |s| then skip else |s|;
            var rest := s[n..];
            Window(s, skip, max) == if 0 <= max < |rest| then rest[..max] else rest
  {
    if s != [] && max != 0 {
      WindowIsDropThenTake(s[1..], if skip > 0 then skip - 1 else skip, if skip > 0 || max < 0 then max else max - 1);
    }
  }

  lemma WindowSkips(x: Bytes, s: seq<Bytes>, skip: int, max: int)
    requires max != 0
    ensures skip > 0 ==> Window([x] + s, skip, max) == Window(s, skip - 1, max)
    ensures skip <= 0 ==> Window([x] + s, skip, max) == [x] + Window(s, skip, if max > 0 then max - 1 else max)
  {
    assert ([x] + s)[1..] == s;
  }

  lemma DatasStep(l: seq<Rec>, p: nat, tail: seq<Bytes>)
    requires p < |l|
    ensures Datas(l[p..]) + tail == [l[p].data] + (Datas(l[p + 1..]) + tail)
  {
    assert l[p..][1..] == l[p + 1..];
  }

  function OffAt(l: seq<Rec>, p: nat): int {
    if p < |l| then l[p].off else NO_OFFSET
  }

  class ExtScanner {
    const coll: Collection
    var curExt: int
    var extent: int
    var next: int
    var firstRun: bool
    var maxRecords: int
    var skipNum: int
    ghost var passed: nat

    ghost predicate Valid()
      reads this, coll, coll.chain, coll.chain.segFirst, coll.chain.segLast
    {
      && coll.Valid() && curExt in coll.recs && curExt in coll.exts
      && AllSelfSized(coll.recs)
      && (!firstRun ==> extent == curExt && passed <= |coll.recs[curExt]| && next == OffAt(coll.recs[curExt], passed))
    }

    /** The records of the current extent that are still to come. */
    ghost function Rest(): seq<Bytes>
      reads this, coll
    {
      if curExt !in coll.recs then []
      else if firstRun then Datas(coll.recs[curExt])
      else if passed <= |coll.recs[curExt]| then Datas(coll.recs[curExt][passed..])
      else []
    }

    constructor (coll: Collection, start: int, maxRecords: int, skipNum: int)
      ensures this.coll == coll && curExt == start && firstRun && this.maxRecords == maxRecords
      ensures this.skipNum == skipNum
    {
      this.coll, curExt, extent, next := coll, start, ExtentChain.NO_EXTENT, NO_OFFSET;
      firstRun, this.maxRecords, this.skipNum, passed := true, maxRecords, skipNum, 0;
    }

    method FirstInit() returns (rc: ScanRc)
      requires Valid()
      modifies this
      ensures rc == Found && Valid() && !firstRun && Rest() == old(Datas(coll.recs[curExt]))
      ensures curExt == old(curExt) && maxRecords == old(maxRecords) && skipNum == old(skipNum)
    {
      hide Collection.Valid, SelfSized;
      FirstOfExtent(coll, curExt);
      extent := curExt;
      next := coll.exts[extent].first;
      firstRun := false;
      passed := 0;
      assert coll.recs[curExt][0..] == coll.recs[curExt];
      rc := Found;
    }

    /** Reads the record at offset o: its length first, then as many bytes. */
    method Extract(o: int, ghost r: Rec) returns (d: Bytes)
      requires extent in coll.exts && o == r.off && Holds(coll.exts[extent].mem, o, r.data) && SelfSized(r.data)
      ensures d == r.data
    {
      var m := coll.exts[extent].mem;
      var start := o + RECORD_HEADER;
      var len := Length(m[start].b, m[start + 1].b, m[start + 2].b);
      d := [];
      for i := 0 to len
        invariant d == r.data[..i]
      {
        assert m[o + RECORD_HEADER + i] == Data(r.data[i]);
        d := d + [m[start + i].b];
      }
    }

    /** Reads the record at the current offset and moves to the one behind it. */
    method ReadOne() returns (data: Bytes)
      requires Valid() && !firstRun && next != NO_OFFSET
      modifies `next, `passed
      ensures Valid() && passed == old(passed) + 1 && passed <= |coll.recs[curExt]|
      ensures data == coll.recs[curExt][old(passed)].data
    {
      hide Collection.Valid, SelfSized;
      RecordOfExtent(coll, curExt, passed);
      RealOffset(coll, curExt, passed);
      var curOff := next;
      next := coll.exts[extent].mem[curOff].h.next;
      data := Extract(curOff, coll.recs[curExt][passed]);
      passed := passed + 1;
    }

    /** The next record past the skipped ones, within the limit. The tail is what later extents hold. */
    method FetchNext(ghost tail: seq<Bytes>) returns (rc: ScanRc, data: Bytes)
      requires Valid() && !firstRun
      modifies `next, `maxRecords, `skipNum, `passed
      ensures Valid() && rc != BadArg
      ensures rc == Found ==>
                Window(old(Rest()) + tail, old(skipNum), old(maxRecords)) ==
                    [data] + Window(Rest() + tail, skipNum, maxRecords)
      ensures rc == EndOfCollection ==>
                && Window(old(Rest()) + tail, old(skipNum), old(maxRecords)) == Window(tail, skipNum, maxRecords)
                && (maxRecords == 0 || Rest() == [])
      ensures rc == Found ==> passed > old(passed)
    {
      hide Collection.Valid, AllSelfSized, Window, Datas;
      data := [];
      ghost var l := coll.recs[curExt];
      ghost var all := Window(Rest() + tail, skipNum, maxRecords);
      while next != NO_OFFSET && maxRecords != 0
        invariant Valid() && !firstRun && passed >= old(passed)
        invariant all == Window(Datas(l[passed..]) + tail, skipNum, maxRecords)
        decreases |l| - passed
      {
        ghost var p := passed;
        data := ReadOne();
        DatasStep(l, p, tail);
        WindowSkips(data, Datas(l[passed..]) + tail, skipNum, maxRecords);
        if skipNum > 0 {
          skipNum := skipNum - 1;
        } else {
          if maxRecords > 0 {
            maxRecords := maxRecords - 1;
          }
          return Found, data;
        }
      }
      RealOffset(coll, curExt, passed);
      ScanEnds(l, passed, tail, skipNum, maxRecords);
      return EndOfCollection, [];
    }

    method Advance(ghost tail: seq<Bytes>) returns (rc: ScanRc, data: Bytes)
      requires Valid()
      modifies this
      ensures Valid() && !firstRun && rc != BadArg && curExt == old(curExt)
      ensures rc == Found ==>
                Window(old(Rest()) + tail, old(skipNum), old(maxRecords)) ==
                    [data] + Window(Rest() + tail, skipNum, maxRecords)
      ensures rc == EndOfCollection ==>
                && Window(old(Rest()) + tail, old(skipNum), old(maxRecords)) == Window(tail, skipNum, maxRecords)
                && (maxRecords == 0 || Rest() == [])
      ensures rc == Found ==> passed > if old(firstRun) then 0 else old(passed)
    {
      hide Collection.Valid, AllSelfSized, Window, Datas;
      if firstRun {
        rc := FirstInit();
      }
      rc, data := FetchNext(tail);
    }

    /** Moves to the next extent of the chain, unless the limit is used up. */
    method StepToNextExtent() returns (rc: ScanRc)
      requires Valid() && !firstRun
      modifies `curExt, `firstRun
      ensures Valid()
      ensures var more := old(maxRecords) != 0 && NextExtent(coll.chain.links, old(curExt)) != ExtentChain.NO_EXTENT;
              rc == if more then Found else EndOfCollection
      ensures rc == Found ==> firstRun && curExt == NextExtent(coll.chain.links, old(curExt))
      ensures rc == EndOfCollection ==> unchanged(this)
    {
      hide Collection.Valid, AllSelfSized;
      NextIsExtent(coll, extent);
      if maxRecords != 0 && NextExtent(coll.chain.links, extent) != ExtentChain.NO_EXTENT {
        curExt := NextExtent(coll.chain.links, extent);
        firstRun := true;
        return Found;
      }
      return EndOfCollection;
    }
  }

  function NextExtent(links: map<int, ExtentChain.Link>, id: int): int {
    if id in links then links[id].next else ExtentChain.NO_EXTENT
  }

  lemma NextIsExtent(coll: Collection, id: int)
    requires coll.Valid() && id in coll.exts
    ensures var n := NextExtent(coll.chain.links, id); n != ExtentChain.NO_EXTENT ==> n in coll.exts && n in coll.recs
  {
    hide Consistent, ExtentChain.Sorted, ExtentChain.Numbered, ExtentChain.IsFirst, ExtentChain.IsLast,
         ExtentChain.Geometry, Tiled;
    var order := coll.chain.order;
    assert id in coll.chain.links;
    var i :| 0 <= i < |order| && order[i] == id;
    if i + 1 < |order| {
      assert order[i + 1] in coll.chain.links;
    }
  }

  lemma FirstOfExtent(coll: Collection, id: int)
    requires coll.Valid() && id in coll.exts && id in coll.recs
    ensures coll.exts[id].first == OffAt(coll.recs[id], 0)
  {
    hide Tiled, Reaches;
    var e := coll.exts[id];
    assert Limit(coll.exts, Closed(coll.lost), id) == |e.mem|;
    assert RecordsOk(e.mem, |e.mem|, e.first, e.last, e.recCount, coll.recs[id]);
  }

  lemma RecordOfExtent(coll: Collection, id: int, p: nat)
    requires coll.Valid() && id in coll.exts && id in coll.recs && OffAt(coll.recs[id], p) != NO_OFFSET
    ensures p < |coll.recs[id]|
    ensures var r := coll.recs[id][p]; var m := coll.exts[id].mem;
            Holds(m, r.off, r.data) && m[r.off].h.next == OffAt(coll.recs[id], p + 1)
  {
    hide Tiled, Reaches, ChainFrom;
    var e := coll.exts[id];
    assert Limit(coll.exts, Closed(coll.lost), id) == |e.mem|;
    assert RecordsOk(e.mem, |e.mem|, e.first, e.last, e.recCount, coll.recs[id]);
    ChainAt(e.mem, e.first, NO_OFFSET, coll.recs[id], p);
  }

  lemma RealOffset(coll: Collection, id: int, p: nat)
    requires coll.Valid() && id in coll.exts && id in coll.recs && p <= |coll.recs[id]|
    ensures p < |coll.recs[id]| <==> OffAt(coll.recs[id], p) != NO_OFFSET
  {
    hide Tiled, Reaches, ChainFrom;
    var e := coll.exts[id];
    assert Limit(coll.exts, Closed(coll.lost), id) == |e.mem|;
    assert RecordsOk(e.mem, |e.mem|, e.first, e.last, e.recCount, coll.recs[id]);
    if p < |coll.recs[id]| {
      ChainAt(e.mem, e.first, NO_OFFSET, coll.recs[id], p);
    }
  }

  lemma ScanEnds(l: seq<Rec>, p: nat, tail: seq<Bytes>, skip: int, max: int)
    requires p == |l| || (p < |l| && max == 0)
    ensures Window(Datas(l[p..]) + tail, skip, max) == Window(tail, skip, max)
    ensures max == 0 || Datas(l[p..]) == []
  {
    if p == |l| {
      assert Datas(l[p..]) + tail == tail;
    }
  }

  /** Everything the scanner yields from the current extent. */
  method ScanExtent(sc: ExtScanner, ghost tail: seq<Bytes>) returns (out: seq<Bytes>)
    requires sc.Valid()
    modifies sc
    ensures sc.Valid() && !sc.firstRun && sc.curExt == old(sc.curExt)
    ensures old(Window(sc.Rest() + tail, sc.skipNum, sc.maxRecords)) == out + Window(tail, sc.skipNum, sc.maxRecords)
  {
    hide Collection.Valid, AllSelfSized, Window, Datas, ExtScanner.Rest;
    out := [];
    ghost var all := Window(sc.Rest() + tail, sc.skipNum, sc.maxRecords);
    ghost var left := all;
    var more := true;
    while more
      invariant sc.Valid() && sc.curExt == old(sc.curExt) && (!more ==> !sc.firstRun) && all == out + left
      invariant left == if more then Window(sc.Rest() + tail, sc.skipNum, sc.maxRecords)
                  else Window(tail, sc.skipNum, sc.maxRecords)
      decreases more, sc.firstRun, if sc.firstRun then 0 else |sc.coll.recs[sc.curExt]| - sc.passed
    {
      var rc, data := sc.Advance(tail);
      if rc == Found {
        left := Window(sc.Rest() + tail, sc.skipNum, sc.maxRecords);
        assert out + ([data] + left) == (out + [data]) + left;
        out := out + [data];
      } else {
        more := false;
      }
    }
  }

  /** A full scan yields the records of every extent in chain order, less the skipped ones, up to the limit. */
  method ScanCollection(coll: Collection, skip: int, max: int) returns (rc: ScanRc, out: seq<Bytes>)
    requires coll.Valid() && AllSelfSized(coll.recs)
    ensures rc == if coll.chain.order == [] then BadArg else Found
    ensures out == if rc == Found then Window(Contents(coll.chain.order, coll.recs), skip, max) else []
  {
    hide Collection.Valid, AllSelfSized, Window, Datas, Contents;
    out := [];
    ghost var order, recs, i := coll.chain.order, coll.recs, 0;
    ChainOrder(coll, 0);
    if coll.chain.firstExtentID == ExtentChain.NO_EXTENT {
      return BadArg, [];
    }
    var sc := new ExtScanner(coll, coll.chain.firstExtentID, max, skip);
    ContentsStep(order, recs, 0);
    assert order[0..] == order;
    ghost var left := Window(Contents(order, recs), skip, max);
    ghost var all := left;
    var more := true;
    while more
      invariant sc.coll == coll && fresh(sc) && 0 <= i < |order| && order[i] in recs
      invariant sc.Valid() && sc.curExt == order[i] && (more ==> sc.firstRun) && all == out + left
      invariant left ==
                  if more then Window(Datas(recs[order[i]]) + Contents(order[i + 1..], recs), sc.skipNum, sc.maxRecords)
                  else []
      decreases more, |order| - i
    {
      var part := ScanExtent(sc, Contents(order[i + 1..], recs));
      left := Window(Contents(order[i + 1..], recs), sc.skipNum, sc.maxRecords);
      assert out + (part + left) == (out + part) + left;
      out := out + part;
      ChainOrder(coll, i);
      var step := sc.StepToNextExtent();
      if step != Found {
        NothingLeft(order, recs, i + 1, sc.skipNum, sc.maxRecords);
        more := false;
      } else {
        i := i + 1;
        ChainOrder(coll, i);
        ContentsStep(order, recs, i);
      }
    }
    rc := Found;
  }

  lemma ContentsStep(order: seq<int>, recs: Records, i: nat)
    requires i < |order| && order[i] in recs
    ensures Contents(order[i..], recs) == Datas(recs[order[i]]) + Contents(order[i + 1..], recs)
  {
    assert order[i..][1..] == order[i + 1..];
  }

  lemma NothingLeft(order: seq<int>, recs: Records, i: nat, skip: int, max: int)
    requires i <= |order| && (i == |order| || max == 0)
    ensures Window(Contents(order[i..], recs), skip, max) == []
  {
  }

  /** The chain's links follow its order, and every extent on it has records. */
  lemma ChainOrder(coll: Collection, i: nat)
    requires coll.Valid()
    ensures coll.chain.firstExtentID == NO_OFFSET <==> coll.chain.order == []
    ensures coll.chain.order != [] ==> coll.chain.firstExtentID == coll.chain.order[0]
    ensures i < |coll.chain.order| ==>
              var id := coll.chain.order[i];
              && id in coll.recs && id in coll.exts
              && NextExtent(coll.chain.links, id) == if i + 1 < |coll.chain.order| then coll.chain.order[i + 1]
                   else ExtentChain.NO_EXTENT
    ensures i + 1 < |coll.chain.order| ==> coll.chain.order[i + 1] != ExtentChain.NO_EXTENT
  {
    hide Consistent, ExtentChain.Sorted, ExtentChain.Numbered, ExtentChain.IsFirst, ExtentChain.IsLast,
         ExtentChain.Geometry, Tiled;
    var order := coll.chain.order;
    if i < |order| {
      assert order[i] in coll.chain.links;
    }
  }
}

// Whole runs of inserts: a scan shows every inserted record exactly once, in a place that never changes again.
module CollectionRuns {
  import opened ExtentBody
  import opened RecordChain
  import opened RecordInsert
  import opened RecordStore
  import opened Scanner
  import opened StorageUnit
  import opened DeleteSlots
  import PageAllocator
  import SpaceMap
  import SegmentSpace
  import ExtentChain

  lemma {:induction false} DatasAppend(l: seq<Rec>, r: Rec)
    ensures Datas(l + [r]) == Datas(l) + [r.data]
  {
    if l == [] {
      assert ([] + [r])[1..] == [];
    } else {
      assert (l + [r])[1..] == l[1..] + [r];
      DatasAppend(l[1..], r);
    }
  }

  lemma {:induction false} ContentsConcat(a: seq<int>, b: seq<int>, recs: Records)
    ensures Contents(a + b, recs) == Contents(a, recs) + Contents(b, recs)
  {
    if a == [] {
      assert a + b == b;
    } else {
      assert (a + b)[1..] == a[1..] + b;
      ContentsConcat(a[1..], b, recs);
    }
  }

  lemma {:induction false} ContentsElsewhere(order: seq<int>, recs: Records, id: int, l: seq<Rec>)
    requires id !in order
    ensures Contents(order, recs[id := l]) == Contents(order, recs)
  {
    if order != [] {
      assert order[0] in order;
      ContentsElsewhere(order[1..], recs, id, l);
    }
  }

  lemma ContentsAround(order: seq<int>, recs: Records, i: nat)
    requires i < |order| && order[i] in recs
    ensures Contents(order, recs) == Contents(order[..i], recs) + Datas(recs[order[i]]) + Contents(order[i + 1..], recs)
  {
    assert order == order[..i] + order[i..];
    ContentsConcat(order[..i], order[i..], recs);
    ContentsStep(order, recs, i);
  }

  ghost predicate NoRepeats(order: seq<int>) {
    forall i, j :: 0 <= i < j < |order| ==> order[i] != order[j]
  }

  /** s' is s with x put in somewhere. */
  ghost predicate PutIn(s: seq<Bytes>, s': seq<Bytes>, x: Bytes) {
    exists i :: 0 <= i <= |s| && s' == s[..i] + [x] + s[i..]
  }

  /** An empty extent anywhere on the chain shows nothing. */
  lemma EmptyExtentHidden(order: seq<int>, recs: Records, p: nat, id: int)
    requires p <= |order| && id !in order && id !in recs
    ensures Contents(ExtentChain.Inserted(order, p, id), recs[id := []]) == Contents(order, recs)
  {
    var recs' := recs[id := []];
    assert order == order[..p] + order[p..];
    ContentsConcat(order[..p], order[p..], recs);
    ContentsConcat(order[..p] + [id], order[p..], recs');
    ContentsConcat(order[..p], [id], recs');
    ContentsElsewhere(order[..p], recs, id, []);
    ContentsElsewhere(order[p..], recs, id, []);
    assert Contents([id], recs') == [];
  }

  /** A record at the end of one extent's chain shows up once, between records that stay as they were. */
  lemma AppendedShows(order: seq<int>, recs: Records, id: int, r: Rec)
    requires NoRepeats(order) && id in order && id in recs
    ensures PutIn(Contents(order, recs), Contents(order, recs[id := recs[id] + [r]]), r.data)
  {
    hide Contents, Datas;
    var i :| 0 <= i < |order| && order[i] == id;
    var l := recs[id] + [r];
    ContentsAround(order, recs, i);
    ContentsAround(order, recs[id := l], i);
    ContentsElsewhere(order[..i], recs, id, l);
    ContentsElsewhere(order[i + 1..], recs, id, l);
    DatasAppend(recs[id], r);
    var front, back := Contents(order[..i], recs) + Datas(recs[id]), Contents(order[i + 1..], recs);
    SplitBack(front, back);
  }

  lemma SplitBack(front: seq<Bytes>, back: seq<Bytes>)
    ensures (front + back)[..|front|] == front && (front + back)[|front|..] == back
  {
  }

  /** What one successful insert does to the full scan. */
  lemma InsertShowsOnce(order: seq<int>, recs: Records, order': seq<int>, recs': Records, id: int, rid: Rid, d: Bytes)
    requires Inserts(order, recs, order', recs', id, rid, d) && NoRepeats(order) && id !in recs
    requires forall e :: e in order <==> e in recs
    ensures PutIn(Contents(order, recs), Contents(order', recs'), d)
    ensures NoRepeats(order') && forall e :: e in order' <==> e in recs'
  {
    if id in recs' {
      var p :| 0 <= p <= |order| && order' == ExtentChain.Inserted(order, p, id);
      EmptyExtentHidden(order, recs, p, id);
      InsertedMembers(order, p, id);
      AppendedShows(order', recs[id := []], rid.ext, Rec(rid.off, d));
    } else {
      AppendedShows(order, recs, rid.ext, Rec(rid.off, d));
    }
  }

  lemma InsertedMembers(order: seq<int>, p: nat, id: int)
    requires p <= |order| && NoRepeats(order) && id !in order
    ensures NoRepeats(ExtentChain.Inserted(order, p, id))
    ensures forall e :: e in ExtentChain.Inserted(order, p, id) <==> e in order || e == id
  {
    var order' := ExtentChain.Inserted(order, p, id);
    forall e | e in order ensures e in order' {
      var i :| 0 <= i < |order| && order[i] == e;
      assert order'[if i < p then i else i + 1] == e;
    }
    assert order'[p] == id;
  }

  datatype Snapshot = Snapshot(order: seq<int>, recs: Records)

  datatype Insert = Insert(data: Bytes, fresh': int, rid: Rid)

  /** A run of successful inserts into a new collection. */
  ghost predicate IsRun(states: seq<Snapshot>, inserts: seq<Insert>) {
    && |states| == |inserts| + 1 && states[0] == Snapshot([], map[])
    && forall i :: 0 <= i < |inserts| ==>
         && inserts[i].fresh' !in states[i].recs
         && Inserts(states[i].order, states[i].recs, states[i + 1].order, states[i + 1].recs, inserts[i].fresh',
              inserts[i].rid, inserts[i].data)
  }

  function Inserted(inserts: seq<Insert>): multiset<Bytes> {
    if inserts == [] then multiset{} else Inserted(inserts[..|inserts| - 1]) + multiset{inserts[|inserts| - 1].data}
  }

  lemma PutInCounts(s: seq<Bytes>, s': seq<Bytes>, x: Bytes)
    requires PutIn(s, s', x)
    ensures multiset(s') == multiset(s) + multiset{x}
  {
    var i :| 0 <= i <= |s| && s' == s[..i] + [x] + s[i..];
    assert s == s[..i] + s[i..];
  }

  /** After any run of inserts, a full scan yields every inserted record exactly once. */
  lemma {:induction false} ScanYieldsInserted(states: seq<Snapshot>, inserts: seq<Insert>)
    requires IsRun(states, inserts)
    ensures var last := states[|inserts|];
            && NoRepeats(last.order) && (forall e :: e in last.order <==> e in last.recs)
            && multiset(Contents(last.order, last.recs)) == Inserted(inserts)
    decreases |inserts|
  {
    var n := |inserts|;
    if n > 0 {
      ScanYieldsInserted(states[..n], inserts[..n - 1]);
      var s, t, e := states[n - 1], states[n], inserts[n - 1];
      assert states[..n][n - 1] == s;
      InsertShowsOnce(s.order, s.recs, t.order, t.recs, e.fresh', e.rid, e.data);
      PutInCounts(Contents(s.order, s.recs), Contents(t.order, t.recs), e.data);
    }
  }

  // The same for the methods themselves: a new storage unit takes in requests one by one and is then scanned.

  /** An insert as a caller asks for it: the data, the size of the record it is to get, whether the file can grow
      and what new pages hold before. */
  datatype Request = Request(data: Bytes, need: nat, grows: bool, stale: nat -> Cell) {
    predicate Sound() {
      (|data| >= MIN_DATA ==> SelfSized(data)) && RECORD_HEADER + |data| <= need <= MAX_RECORD
    }
  }

  /** The data of the requests that were answered Ok. */
  ghost function Accepted(requests: seq<Request>, answers: seq<Rc>): multiset<Bytes>
    requires |answers| <= |requests|
  {
    if answers == [] then multiset{}
    else
      var n := |answers| - 1;
      Accepted(requests, answers[..n]) + if answers[n] == Ok then multiset{requests[n].data} else multiset{}
  }

  lemma AcceptedNext(requests: seq<Request>, answers: seq<Rc>, rc: Rc)
    requires |answers| < |requests|
    ensures rc == Ok ==>
              Accepted(requests, answers + [rc]) == Accepted(requests, answers) + multiset{requests[|answers|].data}
    ensures rc != Ok ==> Accepted(requests, answers + [rc]) == Accepted(requests, answers)
  {
    assert (answers + [rc])[..|answers|] == answers;
  }

  /** The scan shows exactly the accepted data, in some order. */
  ghost predicate Shows(order: seq<int>, recs: Records, data: multiset<Bytes>) {
    && NoRepeats(order) && (forall e :: e in order <==> e in recs)
    && multiset(Contents(order, recs)) == data && AllSelfSized(recs)
  }

  lemma ShowsOneMore(order: seq<int>, recs: Records, order': seq<int>, recs': Records, id: int, rid: Rid, d: Bytes,
                     data: multiset<Bytes>)
    requires Shows(order, recs, data) && Inserts(order, recs, order', recs', id, rid, d) && id !in recs && SelfSized(d)
    ensures Shows(order', recs', data + multiset{d})
  {
    hide SelfSized, Contents, Grown;
    InsertShowsOnce(order, recs, order', recs', id, rid, d);
    PutInCounts(Contents(order, recs), Contents(order', recs'), d);
  }

  /** A refused insert may leave a new extent behind; it is empty and shows nothing. */
  lemma ShowsStill(keys: set<int>, keys': set<int>, order: seq<int>, recs: Records, order': seq<int>, recs': Records,
                   id: int, data: multiset<Bytes>)
    requires Shows(order, recs, data) && OneMore(keys, keys', recs, recs', order, order', id) && id !in recs
    ensures Shows(order', recs', data)
  {
    hide SelfSized, Contents;
    if id >= 0 {
      var p :| 0 <= p <= |order| && order' == ExtentChain.Inserted(order, p, id);
      EmptyExtentHidden(order, recs, p, id);
      InsertedMembers(order, p, id);
    }
  }

  /** An empty unit of one of the allowed page sizes. */
  method NewUnit(pageSize: nat, pages: nat, segNum: nat, stride: nat) returns (u: Unit)
    requires ExtentChain.Geometry(pageSize, pages, segNum, stride)
    ensures u.Valid() && Shows(u.coll.chain.order, u.coll.recs, multiset{}) && fresh(u) && fresh(u.coll) && fresh(u.mgr)
    ensures fresh(u.coll.chain) && fresh(u.coll.chain.segFirst) && fresh(u.coll.chain.segLast)
    ensures u.Whole() && u.mgr.segments == [] && forall p :: 0 <= p < |u.mgr.sme.Free()| ==> u.mgr.sme.Free()[p]
    ensures fresh(u.mgr.segments) && fresh(u.mgr.freePos) && fresh(u.mgr.totalFree) && fresh(u.mgr.sme.mask)
  {
    hide ExtentChain.Geometry, PageAllocator.StartOf, ExtentChain.ChainOk, Collection.ValidWith;
    WholeMap(pageSize, pages, segNum, stride);
    var sme := new SpaceMap.PageMap(ExtentChain.MAX_PAGES / 8);
    var mgr := new PageAllocator.Manager(sme, pages);
    var chain := new ExtentChain.Chain(pages, segNum, stride);
    var coll := new Collection(pageSize, chain);
    u := new Unit(coll, mgr);
  }

  lemma WholeMap(pageSize: nat, pages: nat, segNum: nat, stride: nat)
    requires ExtentChain.Geometry(pageSize, pages, segNum, stride)
    ensures pages >= 1 && PageAllocator.StartOf(segNum, pages) == ExtentChain.MAX_PAGES
  {
  }

  /** Inserts the requests one after the other. */
  method InsertAll(u: Unit, requests: seq<Request>) returns (answers: seq<Rc>)
    requires u.Valid() && Shows(u.coll.chain.order, u.coll.recs, multiset{}) && forall r :: r in requests ==> r.Sound()
    modifies u, u.coll, u.coll.chain, u.coll.chain.segFirst, u.coll.chain.segLast
    modifies u.mgr, u.mgr.segments, u.mgr.freePos, u.mgr.totalFree, u.mgr.sme.mask
    ensures u.Valid() && |answers| == |requests|
    ensures Shows(u.coll.chain.order, u.coll.recs, Accepted(requests, answers))
  {
    hide Unit.Valid, Unit.ValidWith, Unit.Whole, Unit.RoomFor, Shows, Accepted, Inserts, PagesAnswer, OneMore;
    answers := [];
    NoneAccepted(requests);
    for i := 0 to |requests|
      invariant u.Valid() && |answers| == i && Shows(u.coll.chain.order, u.coll.recs, Accepted(requests, answers))
      invariant Continues(old(u.mgr.segments), u.mgr.segments)
      invariant forall j :: |old(u.mgr.segments)| <= j < |u.mgr.segments| ==> fresh(u.mgr.segments[j])
    {
      var r := requests[i];
      ghost var order, recs, data := u.coll.chain.order, u.coll.recs, Accepted(requests, answers);
      assert r.Sound();
      var rc, rid, id, n := u.InsertRecord(r.data, r.need, r.grows, r.stale);
      AcceptedNext(requests, answers, rc);
      if rc == Ok {
        ShowsOneMore(order, recs, u.coll.chain.order, u.coll.recs, id, rid, r.data, data);
      } else if rc == InvalidArg {
        ShowsStill(recs.Keys, u.coll.recs.Keys, order, recs, u.coll.chain.order, u.coll.recs, id, data);
      }
      answers := answers + [rc];
    }
  }

  lemma NoneAccepted(requests: seq<Request>)
    ensures Accepted(requests, []) == multiset{}
  {
  }

  /** A new unit takes in any requests and is scanned with a skip and a limit: of some sequence of exactly the data that
      was accepted, the scan drops the skipped ones and takes up to the limit. */
  method InsertThenScan(pageSize: nat, pages: nat, segNum: nat, stride: nat, requests: seq<Request>, skip: int,
                        max: int)
    returns (answers: seq<Rc>, rc: ScanRc, out: seq<Bytes>, ghost all: seq<Bytes>)
    requires ExtentChain.Geometry(pageSize, pages, segNum, stride) && forall r :: r in requests ==> r.Sound()
    ensures |answers| == |requests| && multiset(all) == Accepted(requests, answers)
    ensures rc == Found || (rc == BadArg && all == [] && out == [])
    ensures var n := if skip <= 0 then 0 else if skip < |all| then skip else |all|;
            out == if 0 <= max < |all| - n then all[n..][..max] else all[n..]
  {
    hide ExtentChain.Geometry, Accepted, Window, Contents, PageAllocator.Manager.Valid, Placed, Matched,
         Collection.ValidWith;
    var u := NewUnit(pageSize, pages, segNum, stride);
    answers := InsertAll(u, requests);
    all := Contents(u.coll.chain.order, u.coll.recs);
    rc, out := ScanCollection(u.coll, skip, max);
    NothingListed(u.coll.chain.order, u.coll.recs);
    WindowIsDropThenTake(all, skip, max);
  }

  lemma NothingListed(order: seq<int>, recs: Records)
    ensures order == [] ==> Contents(order, recs) == []
  {
  }
}

// The chain of a collection's extents: one doubly linked list in segment order, with the first and the last extent of
// every segment.
module ExtentChain {

  const NO_EXTENT := -1

  datatype Link = Link(prev: int, next: int, logicID: int)

  datatype Rc = Ok | Sys

  /** The segment of an extent. */
  function Seg(id: int, pages: nat): int
    requires pages >= 1
  {
    id / pages
  }

  /** The first logical ID of segment s. */
  function Base(s: int, stride: int): int {
    s * stride
  }

  function Inserted(order: seq<int>, p: nat, id: int): seq<int>
    requires p <= |order|
  {
    order[..p] + [id] + order[p..]
  }

  function At(order: seq<int>, i: int): int {
    if 0 <= i < |order| then order[i] else NO_EXTENT
  }

  /** The links follow order, both ways, and hold exactly its extents. */
  ghost predicate Linked(links: map<int, Link>, order: seq<int>) {
    && (forall i :: 0 <= i < |order| ==>
          order[i] in links && links[order[i]].prev == At(order, i - 1) && links[order[i]].next == At(order, i + 1))
    && (forall id :: id in links ==> id in order)
    && (forall i, j :: 0 <= i < j < |order| ==> order[i] != order[j])
    && (forall i :: 0 <= i < |order| ==> order[i] >= 0)
  }

  ghost predicate Sorted(order: seq<int>, pages: nat)
    requires pages >= 1
  {
    forall i, j :: 0 <= i < j < |order| ==> Seg(order[i], pages) <= Seg(order[j], pages)
  }

  /** e is the first extent of segment s in order, or there is none. */
  ghost predicate IsFirst(order: seq<int>, pages: nat, s: int, e: int)
    requires pages >= 1
  {
    if e == NO_EXTENT then forall i :: 0 <= i < |order| ==> Seg(order[i], pages) != s
    else exists i :: 0 <= i < |order| && order[i] == e && Seg(e, pages) == s &&
           (forall j :: 0 <= j < i ==> Seg(order[j], pages) < s)
  }

  ghost predicate IsLast(order: seq<int>, pages: nat, s: int, e: int)
    requires pages >= 1
  {
    if e == NO_EXTENT then forall i :: 0 <= i < |order| ==> Seg(order[i], pages) != s
    else exists i :: 0 <= i < |order| && order[i] == e && Seg(e, pages) == s &&
           (forall j :: i < j < |order| ==> Seg(order[j], pages) > s)
  }

  function LogicOf(links: map<int, Link>, id: int): int {
    if id in links then links[id].logicID else 0
  }

  /** The logical ID an extent gets behind prev: one more inside the segment, else the segment's base. */
  function NextLogic(links: map<int, Link>, pages: nat, stride: nat, prev: int, s: int): int
    requires pages >= 1
  {
    if prev != NO_EXTENT && Seg(prev, pages) == s then LogicOf(links, prev) + 1 else Base(s, stride)
  }

  ghost predicate NumberedAt(links: map<int, Link>, order: seq<int>, pages: nat, stride: nat, i: int)
    requires pages >= 1 && 0 <= i < |order|
  {
    LogicOf(links, order[i]) == NextLogic(links, pages, stride, At(order, i - 1), Seg(order[i], pages))
  }

  /** Logical IDs start at the segment's base and go up by one inside it. */
  ghost predicate Numbered(links: map<int, Link>, order: seq<int>, pages: nat, stride: nat)
    requires pages >= 1
  {
    forall i :: 0 <= i < |order| ==> NumberedAt(links, order, pages, stride, i)
  }

  /** Segment s ends right before position p. */
  ghost predicate SplitsAt(order: seq<int>, pages: nat, p: int, s: int)
    requires pages >= 1
  {
    && 0 <= p <= |order|
    && (forall i :: 0 <= i < p ==> Seg(order[i], pages) <= s)
    && (forall i :: p <= i < |order| ==> Seg(order[i], pages) > s)
  }

  /** The links after id went in between its neighbours. */
  function NewLinks(links: map<int, Link>, order: seq<int>, p: nat, id: int, logic: int): map<int, Link>
    requires p <= |order| && forall i :: 0 <= i < |order| ==> order[i] in links
  {
    var a := links[id := Link(At(order, p - 1), At(order, p), logic)];
    var b := if p < |order| then a[order[p] := a[order[p]].(prev := id)] else a;
    if p > 0 then b[order[p - 1] := b[order[p - 1]].(next := id)] else b
  }

  lemma AtIs(order: seq<int>, i: int)
    ensures At(order, i) == if 0 <= i < |order| then order[i] else NO_EXTENT
  {
  }

  lemma InsertedAt(order: seq<int>, p: nat, id: int, i: int)
    requires p <= |order| && 0 <= i <= |order|
    ensures |Inserted(order, p, id)| == |order| + 1
    ensures Inserted(order, p, id)[i] == if i < p then order[i] else if i == p then id else order[i - 1]
  {
  }

  lemma NewLinksAt(links: map<int, Link>, order: seq<int>, p: nat, id: int, logic: int, i: int)
    requires Linked(links, order) && p <= |order| && id !in links && 0 <= i < |order|
    ensures var w := NewLinks(links, order, p, id, logic);
            && id in w && w[id] == Link(At(order, p - 1), At(order, p), logic)
            && order[i] in w && w[order[i]].logicID == links[order[i]].logicID
            && w[order[i]].prev == (if i == p then id else At(order, i - 1))
            && w[order[i]].next == (if i == p - 1 then id else At(order, i + 1))
  {
    hide At;
  }

  lemma NewLinksOnly(links: map<int, Link>, order: seq<int>, p: nat, id: int, logic: int, e: int)
    requires Linked(links, order) && p <= |order|
    ensures e in NewLinks(links, order, p, id, logic) <==> e == id || e in links
    ensures NewLinks(links, order, p, id, logic)[id].logicID == logic || id in order
    ensures order == [] ==> NewLinks(links, order, p, id, logic)[id] == Link(NO_EXTENT, NO_EXTENT, logic)
  {
  }

  lemma InsertedNeighbours(order: seq<int>, p: nat, id: int, i: int)
    requires p <= |order| && 0 <= i <= |order|
    ensures At(Inserted(order, p, id), i - 1) ==
              if i == p + 1 then id else if i <= p then At(order, i - 1) else At(order, i - 2)
    ensures At(Inserted(order, p, id), i + 1) ==
              if i == p - 1 then id else if i < p then At(order, i + 1) else At(order, i)
  {
  }

  lemma LinkedInsert(links: map<int, Link>, order: seq<int>, p: nat, id: int, logic: int)
    requires Linked(links, order) && p <= |order| && id !in links && id >= 0
    ensures Linked(NewLinks(links, order, p, id, logic), Inserted(order, p, id))
  {
    hide NewLinks, Inserted, At;
    var links', order' := NewLinks(links, order, p, id, logic), Inserted(order, p, id);
    InsertedAt(order, p, id, p);
    NewLinksOnly(links, order, p, id, logic, id);
    forall i | 0 <= i <= |order|
      ensures order'[i] in links' && order'[i] >= 0
      ensures links'[order'[i]].prev == At(order', i - 1) && links'[order'[i]].next == At(order', i + 1)
    {
      InsertedAt(order, p, id, i);
      InsertedNeighbours(order, p, id, i);
      if i < p { NewLinksAt(links, order, p, id, logic, i); }
      if i > p { NewLinksAt(links, order, p, id, logic, i - 1); }
      if i == p && order != [] { NewLinksAt(links, order, p, id, logic, 0); }
      if order == [] { NothingAround(order); }
    }
    forall e | e in links' ensures e in order' {
      NewLinksOnly(links, order, p, id, logic, e);
      if e != id {
        var i :| 0 <= i < |order| && order[i] == e;
        InsertedAt(order, p, id, if i < p then i else i + 1);
      }
    }
    forall i, j | 0 <= i < j <= |order| ensures order'[i] != order'[j] {
      InsertedAt(order, p, id, i);
      InsertedAt(order, p, id, j);
    }
  }

  lemma NothingAround(order: seq<int>)
    requires order == []
    ensures forall i :: At(order, i) == NO_EXTENT
  {
  }

  lemma SortedInsert(order: seq<int>, pages: nat, p: nat, id: int)
    requires pages >= 1 && Sorted(order, pages) && SplitsAt(order, pages, p, Seg(id, pages))
    ensures Sorted(Inserted(order, p, id), pages)
  {
    hide Seg;
    var order' := Inserted(order, p, id);
    forall i, j | 0 <= i < j < |order'| ensures Seg(order'[i], pages) <= Seg(order'[j], pages) {
      InsertedAt(order, p, id, i);
      InsertedAt(order, p, id, j);
    }
  }

  lemma FirstInsert(order: seq<int>, pages: nat, p: nat, id: int, s: int, e: int)
    requires pages >= 1 && SplitsAt(order, pages, p, Seg(id, pages)) && IsFirst(order, pages, s, e) && id >= 0
    ensures IsFirst(Inserted(order, p, id), pages, s, if s == Seg(id, pages) && e == NO_EXTENT then id else e)
  {
    hide Seg;
    var order' := Inserted(order, p, id);
    assert |order'| == |order| + 1;
    if e == NO_EXTENT {
      if s == Seg(id, pages) {
        assert order'[p] == id;
        forall j | 0 <= j < p ensures Seg(order'[j], pages) < s { InsertedAt(order, p, id, j); }
      } else {
        forall i | 0 <= i < |order'| ensures Seg(order'[i], pages) != s { InsertedAt(order, p, id, i); }
      }
    } else {
      var i :| 0 <= i < |order| && order[i] == e && Seg(e, pages) == s && forall j :: 0 <= j < i ==>
                 Seg(order[j], pages) < s;
      var i' := if i < p then i else i + 1;
      assert order'[i'] == e;
      forall j | 0 <= j < i' ensures Seg(order'[j], pages) < s { InsertedAt(order, p, id, j); }
    }
  }

  lemma LastInsert(order: seq<int>, pages: nat, p: nat, id: int, s: int, e: int)
    requires pages >= 1 && SplitsAt(order, pages, p, Seg(id, pages)) && IsLast(order, pages, s, e) && id >= 0
    ensures IsLast(Inserted(order, p, id), pages, s, if s == Seg(id, pages) then id else e)
  {
    hide Seg;
    var order' := Inserted(order, p, id);
    assert |order'| == |order| + 1;
    if s == Seg(id, pages) {
      assert order'[p] == id;
      forall j | p < j < |order'| ensures Seg(order'[j], pages) > s { InsertedAt(order, p, id, j); }
    } else if e == NO_EXTENT {
      forall i | 0 <= i < |order'| ensures Seg(order'[i], pages) != s { InsertedAt(order, p, id, i); }
    } else {
      var i :| 0 <= i < |order| && order[i] == e && Seg(e, pages) == s &&
               forall j :: i < j < |order| ==> Seg(order[j], pages) > s;
      var i' := if i < p then i else i + 1;
      assert order'[i'] == e;
      forall j | i' < j < |order'| ensures Seg(order'[j], pages) > s { InsertedAt(order, p, id, j); }
    }
  }

  lemma NumberedInsert(links: map<int, Link>, order: seq<int>, pages: nat, stride: nat, p: nat, id: int, logic: int)
    requires pages >= 1 && Linked(links, order) && Numbered(links, order, pages, stride) && id !in links && id >= 0
    requires SplitsAt(order, pages, p, Seg(id, pages))
    requires logic == NextLogic(links, pages, stride, At(order, p - 1), Seg(id, pages))
    ensures Numbered(NewLinks(links, order, p, id, logic), Inserted(order, p, id), pages, stride)
  {
    var order' := Inserted(order, p, id);
    InsertedAt(order, p, id, p);
    forall i | 0 <= i < |order'| ensures NumberedAt(NewLinks(links, order, p, id, logic), order', pages, stride, i) {
      NumberedInsertAt(links, order, pages, stride, p, id, logic, i);
    }
  }

  lemma SameLogic(links: map<int, Link>, order: seq<int>, p: nat, id: int, logic: int, i: int)
    requires Linked(links, order) && p <= |order| && id !in links && i < |order|
    ensures i >= 0 ==> LogicOf(NewLinks(links, order, p, id, logic), order[i]) == LogicOf(links, order[i])
    ensures LogicOf(NewLinks(links, order, p, id, logic), id) == logic
  {
    if i >= 0 {
      NewLinksAt(links, order, p, id, logic, i);
    }
  }

  lemma NumberedInsertAt(links: map<int, Link>, order: seq<int>, pages: nat, stride: nat, p: nat, id: int, logic: int,
                         i: nat)
    requires pages >= 1 && Linked(links, order) && Numbered(links, order, pages, stride) && id !in links && id >= 0
    requires SplitsAt(order, pages, p, Seg(id, pages))
    requires logic == NextLogic(links, pages, stride, At(order, p - 1), Seg(id, pages))
    requires i <= |order| && |Inserted(order, p, id)| == |order| + 1
    ensures NumberedAt(NewLinks(links, order, p, id, logic), Inserted(order, p, id), pages, stride, i)
  {
    hide Seg, Base, NewLinks, Inserted, LogicOf, Linked;
    InsertedAt(order, p, id, i);
    InsertedNeighbours(order, p, id, i);
    SameLogic(links, order, p, id, logic, i - 1);
    if i < p {
      assert NumberedAt(links, order, pages, stride, i);
      SameLogic(links, order, p, id, logic, i);
    } else if i > p {
      assert NumberedAt(links, order, pages, stride, i - 1);
      SameLogic(links, order, p, id, logic, i - 2);
      NotNone(links, order, p - 1);
    }
  }

  lemma NotNone(links: map<int, Link>, order: seq<int>, i: int)
    requires Linked(links, order)
    ensures 0 <= i < |order| ==> order[i] != NO_EXTENT
  {
  }

  /** Behind the last extent of segment s nothing belongs to s or below. */
  lemma BehindLast(order: seq<int>, pages: nat, s: int, e: int) returns (p: nat)
    requires pages >= 1 && Sorted(order, pages) && IsLast(order, pages, s, e) && e != NO_EXTENT
    ensures SplitsAt(order, pages, p, s) && p > 0 && order[p - 1] == e && Seg(e, pages) == s
  {
    hide Seg;
    var i :| 0 <= i < |order| && order[i] == e && Seg(e, pages) == s &&
               forall j :: i < j < |order| ==> Seg(order[j], pages) > s;
    p := i + 1;
  }

  /** If the segments from s up to t hold nothing above s, the split for s is one for t. */
  lemma SplitWidens(order: seq<int>, pages: nat, p: nat, s: int, t: int)
    requires pages >= 1 && SplitsAt(order, pages, p, s) && s <= t
    requires forall i :: 0 <= i < |order| ==> !(s < Seg(order[i], pages) <= t)
    ensures SplitsAt(order, pages, p, t)
  {
    hide Seg;
  }

  /** One chain in segment order, with the ends of every segment's run and the numbering of its extents. */
  ghost predicate ChainOk(links: map<int, Link>, order: seq<int>, first: int, last: int,
                          segFirst: seq<int>, segLast: seq<int>, pages: nat, segNum: nat, stride: nat)
  {
    && pages >= 1 && |segFirst| == |segLast| == segNum
    && Linked(links, order) && Sorted(order, pages) && Numbered(links, order, pages, stride)
    && first == At(order, 0) && last == At(order, |order| - 1)
    && (forall i :: 0 <= i < |order| ==> 0 <= Seg(order[i], pages) < segNum)
    && (forall s :: 0 <= s < segNum ==> IsFirst(order, pages, s, segFirst[s]) && IsLast(order, pages, s, segLast[s]))
  }

  lemma ChainInsert(links: map<int, Link>, order: seq<int>, first: int, last: int,
                    segFirst: seq<int>, segLast: seq<int>,
                    pages: nat, segNum: nat, stride: nat, p: nat, id: int, logic: int)
    requires ChainOk(links, order, first, last, segFirst, segLast, pages, segNum, stride) && id !in links && id >= 0
    requires 0 <= Seg(id, pages) < segNum && SplitsAt(order, pages, p, Seg(id, pages))
    requires logic == NextLogic(links, pages, stride, At(order, p - 1), Seg(id, pages))
    ensures var s := Seg(id, pages);
            ChainOk(NewLinks(links, order, p, id, logic), Inserted(order, p, id),
                    if p == 0 then id else first, if p == |order| then id else last,
                    if segLast[s] == NO_EXTENT then segFirst[s := id] else segFirst, segLast[s := id],
                    pages, segNum, stride)
  {
    hide Linked, Sorted, Numbered, NewLinks, Inserted, At, IsFirst, IsLast, Seg;
    var s, order' := Seg(id, pages), Inserted(order, p, id);
    LinkedInsert(links, order, p, id, logic);
    SortedInsert(order, pages, p, id);
    NumberedInsert(links, order, pages, stride, p, id, logic);
    InsertedEnds(order, p, id);
    BothEmpty(order, pages, s, segFirst[s], segLast[s]);
    forall i | 0 <= i < |order'| ensures 0 <= Seg(order'[i], pages) < segNum {
      InsertedAt(order, p, id, i);
    }
    forall t | 0 <= t < segNum
      ensures IsFirst(order', pages, t, if t == s && segLast[s] == NO_EXTENT then id else segFirst[t])
      ensures IsLast(order', pages, t, if t == s then id else segLast[t])
    {
      FirstInsert(order, pages, p, id, t, segFirst[t]);
      LastInsert(order, pages, p, id, t, segLast[t]);
    }
  }

  lemma InsertedEnds(order: seq<int>, p: nat, id: int)
    requires p <= |order|
    ensures |Inserted(order, p, id)| == |order| + 1
    ensures At(Inserted(order, p, id), 0) == if p == 0 then id else At(order, 0)
    ensures At(Inserted(order, p, id), |order|) == if p == |order| then id else At(order, |order| - 1)
  {
  }

  /** A segment without a first extent has no last one. */
  lemma BothEmpty(order: seq<int>, pages: nat, s: int, e: int, f: int)
    requires pages >= 1 && IsFirst(order, pages, s, e) && IsLast(order, pages, s, f)
    ensures e == NO_EXTENT <==> f == NO_EXTENT
  {
  }

  class Chain {
    const pages: nat
    const segNum: nat
    const stride: nat
    const segFirst: array<int>
    const segLast: array<int>
    var links: map<int, Link>
    var firstExtentID: int
    var lastExtentID: int
    ghost var order: seq<int>

    ghost predicate Valid()
      reads this, segFirst, segLast
    {
      && segFirst != segLast
      && ChainOk(links, order, firstExtentID, lastExtentID, segFirst[..], segLast[..], pages, segNum, stride)
    }

    constructor (pages: nat, segNum: nat, stride: nat)
      requires pages >= 1
      ensures Valid() && order == [] && fresh(segFirst) && fresh(segLast)
      ensures this.pages == pages && this.segNum == segNum && this.stride == stride
    {
      this.pages, this.segNum, this.stride := pages, segNum, stride;
      segFirst := new int[segNum](_ => NO_EXTENT);
      segLast := new int[segNum](_ => NO_EXTENT);
      links, firstExtentID, lastExtentID, order := map[], NO_EXTENT, NO_EXTENT, [];
    }

    /** The extent that goes before the first one of the empty segment segID. */
    method FindPrev(segID: nat) returns (prev: int, ghost p: nat)
      requires Valid() && segID < segNum && forall i :: 0 <= i < |order| ==> Seg(order[i], pages) != segID
      ensures SplitsAt(order, pages, p, segID) && prev == At(order, p - 1)
    {
      hide Seg, Linked, Numbered, IsFirst, Sorted;
      prev, p := NO_EXTENT, 0;
      if firstExtentID == NO_EXTENT {
        assert Linked(links, order);
        EmptyChain(links, order);
        return;
      }
      var tmp: int := segID - 1;
      while tmp >= 0
        invariant -1 <= tmp < segID && prev == NO_EXTENT
        invariant forall i :: 0 <= i < |order| ==> !(tmp < Seg(order[i], pages) <= segID)
      {
        var e := segLast[tmp];
        if e != NO_EXTENT {
          p := BehindLast(order, pages, tmp, e);
          SplitWidens(order, pages, p, tmp, segID);
          return e, p;
        }
        tmp := tmp - 1;
      }
    }

    /** Links id in behind prev, or in front of everything. */
    method LinkBehind(id: int, prev: int, logic: int, ghost p: nat)
      requires Linked(links, order) && p <= |order| && prev == At(order, p - 1) && id !in links && id >= 0
      requires firstExtentID == At(order, 0) && lastExtentID == At(order, |order| - 1)
      modifies `links, `firstExtentID, `lastExtentID
      ensures links == NewLinks(old(links), order, p, id, logic)
      ensures firstExtentID == (if p == 0 then id else old(firstExtentID))
      ensures lastExtentID == (if p == |order| then id else old(lastExtentID))
    {
      hide At;
      AtIs(order, p - 1);
      AtIs(order, p);
      AtIs(order, 0);
      AtIs(order, |order| - 1);
      var next := NO_EXTENT;
      if prev != NO_EXTENT {
        assert p > 0 && links[prev].next == At(order, p);
        if links[prev].next != NO_EXTENT {
          next := links[prev].next;
        } else {
          lastExtentID := id;
        }
      } else {
        if firstExtentID != NO_EXTENT {
          next := firstExtentID;
        }
        firstExtentID := id;
        if lastExtentID == NO_EXTENT {
          lastExtentID := id;
        }
      }
      links := links[id := Link(prev, next, logic)];
      if next != NO_EXTENT {
        links := links[next := links[next].(prev := id)];
      }
      if prev != NO_EXTENT {
        links := links[prev := links[prev].(next := id)];
      }
    }

    /** Adds a new extent at the end of its segment's run. */
    method AddExtent(id: int) returns (rc: Rc)
      requires Valid() && id >= 0 && id !in links
      modifies this, segFirst, segLast
      ensures Valid()
      ensures rc == if Seg(id, pages) < segNum then Ok else Sys
      ensures rc == Sys ==> unchanged(this) && unchanged(segFirst) && unchanged(segLast)
      ensures rc == Ok ==>
                exists p :: 0 <= p <= |old(order)| && order == Inserted(old(order), p, id) &&
                    SplitsAt(old(order), pages, p, Seg(id, pages))
      ensures rc == Ok ==> Joined(old(order), old(links), order, links, pages, stride, id)
      ensures rc == Ok ==> links.Keys == old(links.Keys) + {id}
    {
      hide ChainOk, NewLinks, Inserted, SplitsAt, At, Seg, NextLogic, Linked;
      SegNotNegative(id, pages);
      ChainFacts(links, order, firstExtentID, lastExtentID, segFirst[..], segLast[..], pages, segNum, stride);
      var segID := Seg(id, pages);
      if segID >= segNum {
        return Sys;
      }
      var last := segLast[segID];
      var prev, logic;
      ghost var p, links0 := 0, links;
      prev, logic, p := FindPlace(segID);
      ChainInsert(links, order, firstExtentID, lastExtentID, segFirst[..], segLast[..], pages, segNum, stride, p, id,
                  logic);
      NewLinksKeys(links, order, p, id, logic);
      LinkBehind(id, prev, logic, p);
      if last == NO_EXTENT {
        segFirst[segID] := id;
      }
      segLast[segID] := id;
      JoinedHere(order, links0, pages, stride, p, id, logic);
      order := Inserted(order, p, id);
      rc := Ok;
    }

    /** Where an extent of segment segID goes, and its logical ID. */
    method FindPlace(segID: nat) returns (prev: int, logic: int, ghost p: nat)
      requires Valid() && segID < segNum
      ensures p <= |order| && SplitsAt(order, pages, p, segID) && prev == At(order, p - 1)
      ensures logic == NextLogic(links, pages, stride, prev, segID)
    {
      hide Sorted, Numbered, IsFirst, IsLast, Seg;
      var last := segLast[segID];
      if last == NO_EXTENT {
        logic := Base(segID, stride);
        EmptySegment(order, pages, segID);
        prev, p := FindPrev(segID);
      } else {
        p := BehindLast(order, pages, segID, last);
        prev := last;
        logic := links[last].logicID + 1;
      }
    }
  }

  /** id stands behind every extent of its own and of lower segments and in front of all others; its number is the next
      one of its segment, or the first. */
  ghost predicate Joined(order: seq<int>, links: map<int, Link>, order': seq<int>, links': map<int, Link>,
                         pages: nat, stride: nat, id: int)
    requires pages >= 1
  {
    exists p :: 0 <= p <= |order| && order' == order[..p] + [id] + order[p..]
      && (forall i :: 0 <= i < p ==> order[i] / pages <= id / pages)
      && (forall i :: p <= i < |order| ==> order[i] / pages > id / pages)
      && id in links'
      && (p > 0 && order[p - 1] / pages == id / pages ==>
            order[p - 1] in links && links'[id].logicID == links[order[p - 1]].logicID + 1)
      && (p == 0 || order[p - 1] / pages < id / pages ==> links'[id].logicID == id / pages * stride)
  }

  lemma JoinedHere(order: seq<int>, links: map<int, Link>, pages: nat, stride: nat, p: nat, id: int, logic: int)
    requires pages >= 1 && Linked(links, order) && SplitsAt(order, pages, p, Seg(id, pages)) && id !in links && id >= 0
    requires logic == NextLogic(links, pages, stride, At(order, p - 1), Seg(id, pages))
    ensures Joined(order, links, Inserted(order, p, id), NewLinks(links, order, p, id, logic), pages, stride, id)
  {
    assert id !in order;
    assert NewLinks(links, order, p, id, logic)[id].logicID == logic;
    assert Inserted(order, p, id) == order[..p] + [id] + order[p..];
    if p > 0 {
      assert At(order, p - 1) == order[p - 1];
    }
  }

  lemma ChainFacts(links: map<int, Link>, order: seq<int>, first: int, last: int, segFirst: seq<int>, segLast: seq<int>,
                   pages: nat, segNum: nat, stride: nat)
    requires ChainOk(links, order, first, last, segFirst, segLast, pages, segNum, stride)
    ensures pages >= 1 && |segFirst| == |segLast| == segNum && Linked(links, order)
    ensures first == At(order, 0) && last == At(order, |order| - 1)
  {
  }

  lemma NewLinksKeys(links: map<int, Link>, order: seq<int>, p: nat, id: int, logic: int)
    requires Linked(links, order) && p <= |order|
    ensures NewLinks(links, order, p, id, logic).Keys == links.Keys + {id}
  {
    hide At;
    var a := links[id := Link(At(order, p - 1), At(order, p), logic)];
    KeyAdded(links, id, a[id]);
    var b := a;
    if p < |order| {
      b := a[order[p] := a[order[p]].(prev := id)];
      KeyAdded(a, order[p], b[order[p]]);
    }
    if p > 0 {
      KeyAdded(b, order[p - 1], b[order[p - 1]].(next := id));
    }
  }

  lemma KeyAdded(links: map<int, Link>, id: int, l: Link)
    ensures links[id := l].Keys == links.Keys + {id}
    ensures id in links ==> links[id := l].Keys == links.Keys
  {
  }

  lemma SegNotNegative(id: nat, pages: nat)
    ensures pages >= 1 ==> Seg(id, pages) >= 0
  {
  }

  lemma EmptySegment(order: seq<int>, pages: nat, s: int)
    requires pages >= 1 && IsLast(order, pages, s, NO_EXTENT)
    ensures forall i :: 0 <= i < |order| ==> Seg(order[i], pages) != s
  {
  }

  lemma EmptyChain(links: map<int, Link>, order: seq<int>)
    requires Linked(links, order) && At(order, 0) == NO_EXTENT
    ensures order == []
  {
  }

  /** How far i is into its segment's run. */
  function Depth(order: seq<int>, pages: nat, i: nat): nat
    requires pages >= 1 && i < |order|
  {
    if i > 0 && Seg(order[i - 1], pages) == Seg(order[i], pages) then Depth(order, pages, i - 1) + 1 else 0
  }

  lemma {:induction false} LogicIsDepth(links: map<int, Link>, order: seq<int>, pages: nat, stride: nat, i: nat)
    requires pages >= 1 && Linked(links, order) && Numbered(links, order, pages, stride) && i < |order|
    ensures LogicOf(links, order[i]) == Base(Seg(order[i], pages), stride) + Depth(order, pages, i)
  {
    hide Seg, Base, LogicOf, Linked;
    assert NumberedAt(links, order, pages, stride, i);
    NotNone(links, order, i - 1);
    if i > 0 && Seg(order[i - 1], pages) == Seg(order[i], pages) {
      LogicIsDepth(links, order, pages, stride, i - 1);
    }
  }

  /** The run of a segment up to i consists of different extents of that segment. */
  lemma {:induction false} RunIds(order: seq<int>, pages: nat, i: nat) returns (ids: set<int>)
    requires pages >= 1 && i < |order| && forall a, b :: 0 <= a < b < |order| ==> order[a] != order[b]
    ensures |ids| == Depth(order, pages, i) + 1
    ensures forall e :: e in ids ==> Seg(e, pages) == Seg(order[i], pages) && exists a :: 0 <= a <= i && order[a] == e
  {
    hide Seg;
    if i > 0 && Seg(order[i - 1], pages) == Seg(order[i], pages) {
      var rest := RunIds(order, pages, i - 1);
      ids := rest + {order[i]};
      assert order[i] !in rest;
    } else {
      ids := {order[i]};
    }
  }

  lemma {:induction false} AtMost(ids: set<int>, lo: int, n: nat)
    requires forall e :: e in ids ==> lo <= e < lo + n
    ensures |ids| <= n
  {
    if n > 0 {
      var rest := ids - {lo + n - 1};
      AtMost(rest, lo, n - 1);
      assert |ids| <= |rest| + 1;
    } else {
      assert forall e :: e !in ids;
    }
  }

  /** A segment has room for no more extents than it has pages. */
  lemma DepthBound(order: seq<int>, pages: nat, i: nat)
    requires pages >= 1 && i < |order| && forall a, b :: 0 <= a < b < |order| ==> order[a] != order[b]
    ensures Depth(order, pages, i) < pages
  {
    var ids := RunIds(order, pages, i);
    var s := Seg(order[i], pages);
    forall e | e in ids ensures s * pages <= e < s * pages + pages {
      assert e == (e / pages) * pages + e % pages;
    }
    AtMost(ids, s * pages, pages);
  }

  /** Logical IDs go up along the chain and stay inside the segment's block of stride numbers. */
  lemma LogicalIdsIncrease(links: map<int, Link>, order: seq<int>, pages: nat, stride: nat, i: nat, j: nat)
    requires pages >= 1 && Linked(links, order) && Sorted(order, pages) && Numbered(links, order, pages, stride)
    requires pages <= stride && i < j < |order|
    ensures LogicOf(links, order[i]) < LogicOf(links, order[j])
  {
    hide Seg, Base, Numbered, LogicOf;
    LogicIsDepth(links, order, pages, stride, i);
    LogicIsDepth(links, order, pages, stride, j);
    DepthBound(order, pages, i);
    if Seg(order[i], pages) == Seg(order[j], pages) {
      SameRunDeeper(order, pages, i, j);
    } else {
      BlocksApart(Seg(order[i], pages), Seg(order[j], pages), stride);
    }
  }

  lemma {:induction false} SameRunDeeper(order: seq<int>, pages: nat, i: nat, j: nat)
    requires pages >= 1 && Sorted(order, pages) && i < j < |order| && Seg(order[i], pages) == Seg(order[j], pages)
    ensures Depth(order, pages, i) < Depth(order, pages, j)
    decreases j
  {
    hide Seg;
    assert Seg(order[j - 1], pages) == Seg(order[j], pages);
    if i < j - 1 {
      SameRunDeeper(order, pages, i, j - 1);
    }
  }

  lemma {:induction false} BlocksApart(a: int, b: int, stride: nat)
    requires a < b
    ensures Base(a, stride) + stride <= Base(b, stride) && (a >= 0 ==> Base(a, stride) >= 0)
    decreases b - a
  {
    hide Base;
    NextBlock(b - 1, stride);
    NextBlock(a, stride);
    if a + 1 < b {
      BlocksApart(a, b - 1, stride);
    }
  }

  lemma NextBlock(s: int, stride: nat)
    ensures Base(s + 1, stride) == Base(s, stride) + stride && (s >= 0 ==> Base(s, stride) >= 0)
  {
  }

  const MAX_PAGES: nat := 0x800_0000
  const SEGMENT_SIZE: nat := 0x800_0000

  /** The page sizes in use; each gives the pages of a segment, the number of segments and 2^(30 - log2 of the page
      size). */
  predicate Geometry(pageSize: nat, pages: nat, segNum: nat, stride: nat) {
    && pageSize in {4096, 8192, 16384, 32768, 65536}
    && pages == SEGMENT_SIZE / pageSize && segNum == MAX_PAGES / pages && stride == 0x4000_0000 / pageSize
  }

  /** For every page size a logical ID is below 2^30. */
  lemma LogicalIdsFit(links: map<int, Link>, order: seq<int>, pageSize: nat, pages: nat, segNum: nat, stride: nat,
                      i: nat)
    requires Geometry(pageSize, pages, segNum, stride) && pages >= 1 && i < |order| && Linked(links, order)
    requires Numbered(links, order, pages, stride) && 0 <= Seg(order[i], pages) < segNum
    ensures 0 <= LogicOf(links, order[i]) < 0x4000_0000
  {
    hide Seg, Base, Numbered, LogicOf, Geometry;
    LogicIsDepth(links, order, pages, stride, i);
    DepthBound(order, pages, i);
    BlocksApart(Seg(order[i], pages), segNum, stride);
    WholeRange(pageSize, pages, segNum, stride);
  }

  lemma WholeRange(pageSize: nat, pages: nat, segNum: nat, stride: nat)
    requires Geometry(pageSize, pages, segNum, stride)
    ensures Base(segNum, stride) == 0x4000_0000 && pages <= stride
  {
  }
}

// The delete lists of a collection: singly linked through the headers of deleted records, across extents.
module DeleteLists {
  import opened DeleteSlots
  import opened ExtentBody

  datatype Extent = Extent(mem: Memory, freeSpace: int, first: int, last: int, recCount: int)

  type Extents = map<int, Extent>

  function Look(exts: Extents, r: Rid): Cell {
    if r.ext in exts && 0 <= r.off < |exts[r.ext].mem| then exts[r.ext].mem[r.off] else Junk
  }

  predicate IsDeadHead(exts: Extents, r: Rid) {
    Look(exts, r).Head? && Look(exts, r).h.Dead?
  }

  function SizeOf(exts: Extents, r: Rid): nat
    requires Look(exts, r).Head?
  {
    Look(exts, r).h.size
  }

  function NextOf(exts: Extents, r: Rid): Rid
    requires IsDeadHead(exts, r)
  {
    Look(exts, r).h.nextRid
  }

  /** Following the list from head visits exactly l. */
  predicate Linked(exts: Extents, head: Rid, l: seq<Rid>)
    decreases |l|
  {
    if l == [] then head == NULL_RID
    else head == l[0] && IsDeadHead(exts, l[0]) && Linked(exts, NextOf(exts, l[0]), l[1..])
  }

  lemma {:induction false} LinkedFrame(exts: Extents, exts': Extents, head: Rid, l: seq<Rid>)
    requires Linked(exts, head, l) && forall r :: r in l ==> Look(exts', r) == Look(exts, r)
    ensures Linked(exts', head, l)
    decreases |l|
  {
    if l != [] {
      LinkedFrame(exts, exts', NextOf(exts, l[0]), l[1..]);
    }
  }

  predicate Distinct(l: seq<Rid>) {
    l == [] || (l[0] !in l[1..] && Distinct(l[1..]))
  }

  function Without(l: seq<Rid>, i: nat): seq<Rid>
    requires i < |l|
  {
    l[..i] + l[i + 1..]
  }

  lemma {:induction false} WithoutKeeps(l: seq<Rid>, i: nat, r: Rid)
    requires i < |l| && Distinct(l)
    ensures Distinct(Without(l, i)) && (r in Without(l, i) <==> r in l && r != l[i])
  {
    var w := Without(l, i);
    if i == 0 {
      assert w == l[1..];
    } else {
      WithoutKeeps(l[1..], i - 1, r);
      WithoutKeeps(l[1..], i - 1, l[0]);
      assert w[1..] == Without(l[1..], i - 1) && w[0] == l[0];
    }
  }

  /** The records that stand before and after the one taken out are linked to each other. */
  lemma {:induction false} UnlinkInside(exts: Extents, exts': Extents, head: Rid, l: seq<Rid>, i: nat)
    requires Linked(exts, head, l) && Distinct(l) && 0 < i < |l|
    requires IsDeadHead(exts, l[i]) && IsDeadHead(exts', l[i - 1]) && NextOf(exts', l[i - 1]) == NextOf(exts, l[i])
    requires forall r :: r in l && r != l[i - 1] ==> Look(exts', r) == Look(exts, r)
    ensures Linked(exts', head, Without(l, i))
    decreases |l|
  {
    var w := Without(l, i);
    if i == 1 {
      assert l[1..][1..] == l[2..] && w[1..] == l[2..] && w[0] == l[0];
      assert Linked(exts, l[1], l[1..]);
      forall r | r in l[2..] ensures Look(exts', r) == Look(exts, r) {
        assert r in l[1..] && r in l;
      }
      LinkedFrame(exts, exts', NextOf(exts, l[1]), l[2..]);
    } else {
      var t := l[1..];
      assert w[1..] == Without(t, i - 1) && w[0] == l[0] && t[i - 2] == l[i - 1];
      assert l[0] != l[i - 1];
      UnlinkInside(exts, exts', NextOf(exts, l[0]), t, i - 1);
    }
  }

  /** Entry i of a list holds the link to entry i + 1. */
  lemma {:induction false} LinkedAt(exts: Extents, head: Rid, l: seq<Rid>, i: nat)
    requires Linked(exts, head, l) && i < |l|
    ensures IsDeadHead(exts, l[i]) && NextOf(exts, l[i]) == if i + 1 < |l| then l[i + 1] else NULL_RID
    decreases |l|
  {
    if i > 0 {
      LinkedAt(exts, NextOf(exts, l[0]), l[1..], i - 1);
    }
  }
}

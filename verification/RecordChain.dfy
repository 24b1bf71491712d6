// The doubly linked chain of an extent's live records, in the order they were inserted.
module RecordChain {
  import opened DeleteSlots
  import opened ExtentBody

  datatype Rec = Rec(off: int, data: seq<Byte>)

  /** A live record at o holds the bytes d. */
  predicate Holds(m: Memory, o: int, d: seq<Byte>) {
    && IsHead(m, o) && m[o].h.Live? && RECORD_HEADER + |d| <= m[o].h.size && o + m[o].h.size <= |m|
    && forall i :: 0 <= i < |d| ==> m[o + RECORD_HEADER + i] == Data(d[i])
  }

  /** Following next from off visits exactly l; prev points back. */
  predicate ChainFrom(m: Memory, off: int, prev: int, l: seq<Rec>)
    decreases |l|
  {
    if l == [] then off == NO_OFFSET
    else off == l[0].off && Holds(m, off, l[0].data) && m[off].h.prev == prev &&
           ChainFrom(m, m[off].h.next, off, l[1..])
  }

  function LastOff(l: seq<Rec>): int {
    if l == [] then NO_OFFSET else l[|l| - 1].off
  }

  /** Nothing of the record at o, header or data, differs between m and w. */
  ghost predicate SameRecord(m: Memory, w: Memory, o: int, n: int) {
    && |w| == |m| && 0 <= o < |m| && w[o] == m[o]
    && forall i :: o + RECORD_HEADER <= i < o + n && i < |m| ==> w[i] == m[i]
  }

  lemma HoldsFrame(m: Memory, w: Memory, o: int, d: seq<Byte>)
    requires Holds(m, o, d) && SameRecord(m, w, o, m[o].h.size)
    ensures Holds(w, o, d)
  {
  }

  lemma {:induction false} ChainFrame(m: Memory, w: Memory, off: int, prev: int, l: seq<Rec>)
    requires ChainFrom(m, off, prev, l)
    requires forall i :: 0 <= i < |l| ==> IsHead(m, l[i].off) && SameRecord(m, w, l[i].off, m[l[i].off].h.size)
    ensures ChainFrom(w, off, prev, l)
    decreases |l|
  {
    if l != [] {
      HoldsFrame(m, w, off, l[0].data);
      forall i | 0 <= i < |l| - 1
        ensures IsHead(m, l[1..][i].off) && SameRecord(m, w, l[1..][i].off, m[l[1..][i].off].h.size)
      {
        assert l[1..][i] == l[i + 1];
      }
      ChainFrame(m, w, m[off].h.next, off, l[1..]);
    }
  }

  /** Only the next offset of the record at o changes. */
  ghost predicate NextSet(m: Memory, w: Memory, o: int, next: int) {
    && |w| == |m| && IsHead(m, o) && m[o].h.Live? && w[o] == Head(m[o].h.(next := next))
    && forall i :: o + RECORD_HEADER <= i < o + m[o].h.size && i < |m| ==> w[i] == m[i]
  }

  /** Linking a new record behind the last one lengthens the chain by it. */
  lemma {:induction false} ChainAppend(m: Memory, w: Memory, off: int, prev: int, l: seq<Rec>, r: Rec)
    requires ChainFrom(m, off, prev, l) && l != []
    requires forall i :: 0 <= i < |l| - 1 ==> IsHead(m, l[i].off) && SameRecord(m, w, l[i].off, m[l[i].off].h.size)
    requires NextSet(m, w, LastOff(l), r.off)
    requires Holds(w, r.off, r.data) && w[r.off].h.prev == LastOff(l) && w[r.off].h.next == NO_OFFSET
    ensures ChainFrom(w, off, prev, l + [r])
    decreases |l|
  {
    var t := l[1..];
    assert (l + [r])[1..] == t + [r];
    if t == [] {
      assert LastOff(l) == off;
      assert Holds(w, off, l[0].data);
      assert ChainFrom(w, r.off, off, [r]);
    } else {
      HoldsFrame(m, w, off, l[0].data);
      assert LastOff(t) == LastOff(l);
      forall i | 0 <= i < |t| - 1 ensures IsHead(m, t[i].off) && SameRecord(m, w, t[i].off, m[t[i].off].h.size) {
        assert t[i] == l[i + 1];
      }
      ChainAppend(m, w, m[off].h.next, off, t, r);
    }
  }

  lemma {:induction false} ChainAt(m: Memory, off: int, prev: int, l: seq<Rec>, i: nat)
    requires ChainFrom(m, off, prev, l) && i < |l|
    ensures Holds(m, l[i].off, l[i].data)
    ensures m[l[i].off].h.next == if i + 1 < |l| then l[i + 1].off else NO_OFFSET
    ensures m[l[i].off].h.prev == if i == 0 then prev else l[i - 1].off
    decreases |l|
  {
    if i > 0 {
      ChainAt(m, m[off].h.next, off, l[1..], i - 1);
    }
  }

  /** The chain holds every live record of [36, limit) once, first and last are its ends, and the count is its
      length. */
  ghost predicate RecordsOk(m: Memory, limit: int, first: int, last: int, count: int, l: seq<Rec>)
    requires Tiled(m, EXTENT_HEADER, limit)
  {
    && ChainFrom(m, first, NO_OFFSET, l) && last == LastOff(l) && count == |l|
    && (forall i :: 0 <= i < |l| ==> Reaches(m, EXTENT_HEADER, limit, l[i].off))
    && (forall i, j :: 0 <= i < j < |l| ==> l[i].off != l[j].off)
    && (forall o :: Reaches(m, EXTENT_HEADER, limit, o) && IsHead(m, o) && m[o].h.Live? ==>
         exists i :: 0 <= i < |l| && l[i].off == o)
  }

  ghost predicate LiveAt(m: Memory, limit: int, o: int)
    requires Tiled(m, EXTENT_HEADER, limit)
  {
    Reaches(m, EXTENT_HEADER, limit, o) && IsHead(m, o) && m[o].h.Live?
  }

  /** A change that touches no live record keeps the chain. */
  lemma RecordsFrame(m: Memory, w: Memory, limit: int, limit': int, first: int, last: int, count: int, l: seq<Rec>)
    requires Tiled(m, EXTENT_HEADER, limit) && Tiled(w, EXTENT_HEADER, limit')
    requires RecordsOk(m, limit, first, last, count, l)
    requires forall o :: LiveAt(m, limit, o) ==> SameRecord(m, w, o, m[o].h.size)
    requires forall o :: LiveAt(w, limit', o) <==> LiveAt(m, limit, o)
    ensures RecordsOk(w, limit', first, last, count, l)
  {
    hide Tiled, Reaches, ChainFrom;
    forall i | 0 <= i < |l| ensures LiveAt(m, limit, l[i].off) {
      ChainAt(m, first, NO_OFFSET, l, i);
    }
    ChainFrame(m, w, first, NO_OFFSET, l);
    forall o | Reaches(w, EXTENT_HEADER, limit', o) && IsHead(w, o) && w[o].h.Live?
      ensures exists i :: 0 <= i < |l| && l[i].off == o
    {
      assert LiveAt(w, limit', o);
    }
    forall i | 0 <= i < |l| ensures Reaches(w, EXTENT_HEADER, limit', l[i].off) {
      assert LiveAt(w, limit', l[i].off);
    }
  }

  /** Rewriting the header of a deleted record touches no live one. */
  lemma DeadHeaderKeepsRecords(m: Memory, w: Memory, limit: int, o: int, first: int, last: int, count: int, l: seq<Rec>)
    requires Tiled(m, EXTENT_HEADER, limit) && RecordsOk(m, limit, first, last, count, l)
    requires Reaches(m, EXTENT_HEADER, limit, o) && IsHead(m, o) && m[o].h.Dead? && |w| == |m| && w[o].Head?
    requires w[o].h.Dead?
    requires forall i :: 0 <= i < |m| && i != o ==> w[i] == m[i]
    requires Tiled(w, EXTENT_HEADER, limit) && forall a :: Reaches(w, EXTENT_HEADER, limit, a) <==>
               Reaches(m, EXTENT_HEADER, limit, a)
    ensures RecordsOk(w, limit, first, last, count, l)
  {
    hide Tiled, Reaches, ChainFrom;
    forall a | LiveAt(m, limit, a) ensures SameRecord(m, w, a, m[a].h.size) {
      TileAt(m, EXTENT_HEADER, limit, a);
      if a < o { TilesApart(m, EXTENT_HEADER, limit, a, o); }
    }
    RecordsFrame(m, w, limit, limit, first, last, count, l);
  }

  /** A new header beyond the carved part touches no live record. */
  lemma CarveKeepsRecords(m: Memory, w: Memory, upto: int, size: nat, first: int, last: int, count: int, l: seq<Rec>)
    requires Tiled(m, EXTENT_HEADER, upto) && RecordsOk(m, upto, first, last, count, l)
    requires EXTENT_HEADER <= upto && MIN_RECORD <= size && upto + size <= |m|
    requires w == WriteHead(m, upto, Dead(size, upto, NULL_RID))
    requires Tiled(w, EXTENT_HEADER, upto + size)
    requires forall a :: Reaches(w, EXTENT_HEADER, upto + size, a) <==> Reaches(m, EXTENT_HEADER, upto, a) || a == upto
    ensures RecordsOk(w, upto + size, first, last, count, l)
  {
    hide Tiled, Reaches, ChainFrom;
    forall a | Reaches(m, EXTENT_HEADER, upto, a) ensures IsHead(m, a) && SameRecord(m, w, a, m[a].h.size) {
      TileAt(m, EXTENT_HEADER, upto, a);
    }
    if Reaches(m, EXTENT_HEADER, upto, upto) { TileAt(m, EXTENT_HEADER, upto, upto); }
    RecordsFrame(m, w, upto, upto + size, first, last, count, l);
  }

  /** Memory w after a record with data d took the deleted record at o, of which it keeps need bytes, and went behind
      q. */
  ghost predicate Taken(m: Memory, w: Memory, limit: int, o: int, need: int, d: seq<Byte>, q: int) {
    && Tile(m, o, limit) && m[o].h.Dead? && |w| == |m| && RECORD_HEADER + |d| <= need <= m[o].h.size
    && (need < m[o].h.size ==> need + MIN_RECORD <= m[o].h.size)
    && w[o] == Head(Live(need, o, q, NO_OFFSET))
    && (forall i :: 0 <= i < |d| ==> w[o + RECORD_HEADER + i] == Data(d[i]))
    && (need < m[o].h.size ==>
          && w[o + need].Head? && w[o + need].h.Dead?
          && w[o + need].h.size == m[o].h.size - need && w[o + need].h.my == o + need)
    && (q != NO_OFFSET ==> q != o && IsHead(m, q) && m[q].h.Live? && w[q] == Head(m[q].h.(next := o)))
    && (forall i :: 0 <= i < |m| && !(o <= i < o + m[o].h.size) && i != q ==> w[i] == m[i])
  }

  lemma TakenElsewhere(m: Memory, w: Memory, limit: int, o: int, need: int, d: seq<Byte>, q: int, a: int)
    requires Tiled(m, EXTENT_HEADER, limit) && Taken(m, w, limit, o, need, d, q)
    requires Reaches(m, EXTENT_HEADER, limit, o) && Reaches(m, EXTENT_HEADER, limit, a) && a != o
    requires q != NO_OFFSET ==> Reaches(m, EXTENT_HEADER, limit, q)
    ensures Tile(w, a, limit) && Tile(m, a, limit) && w[a].h.size == m[a].h.size && (w[a].h.Dead? <==> m[a].h.Dead?)
    ensures a != q ==> SameRecord(m, w, a, m[a].h.size)
    ensures a == q ==> NextSet(m, w, q, o)
    ensures m[a].h.Dead? ==> w[a] == m[a]
  {
    hide Tiled, Reaches;
    TileAt(m, EXTENT_HEADER, limit, a);
    if a < o { TilesApart(m, EXTENT_HEADER, limit, a, o); } else { TilesApart(m, EXTENT_HEADER, limit, o, a); }
    if q != NO_OFFSET && q != a {
      if a < q { TilesApart(m, EXTENT_HEADER, limit, a, q); } else { TilesApart(m, EXTENT_HEADER, limit, q, a); }
    }
  }

  lemma TakenBody(m: Memory, w: Memory, limit: int, o: int, need: int, d: seq<Byte>, q: int)
    requires Tiled(m, EXTENT_HEADER, limit) && Taken(m, w, limit, o, need, d, q) && Reaches(m, EXTENT_HEADER, limit, o)
    requires q != NO_OFFSET ==> Reaches(m, EXTENT_HEADER, limit, q)
    ensures Tiled(w, EXTENT_HEADER, limit)
    ensures DeadSum(w, EXTENT_HEADER, limit) == DeadSum(m, EXTENT_HEADER, limit) - need
    ensures forall a :: Reaches(w, EXTENT_HEADER, limit, a) <==>
                          Reaches(m, EXTENT_HEADER, limit, a) || (need < m[o].h.size && a == o + need)
  {
    hide Tiled, Reaches, DeadSum;
    forall a | Reaches(m, EXTENT_HEADER, limit, a) && a != o
      ensures Tile(w, a, limit) && IsHead(m, a) && w[a].h.size == m[a].h.size && (w[a].h.Dead? <==> m[a].h.Dead?)
    {
      TakenElsewhere(m, w, limit, o, need, d, q, a);
    }
    SplitKeeps(m, w, EXTENT_HEADER, limit, o, need, o);
    forall a ensures Reaches(w, EXTENT_HEADER, limit, a) <==>
                       Reaches(m, EXTENT_HEADER, limit, a) || (need < m[o].h.size && a == o + need)
    {
      SplitKeeps(m, w, EXTENT_HEADER, limit, o, need, a);
    }
  }

  /** The new record is the last of the chain, and every older record keeps its bytes. */
  lemma TakenRecords(m: Memory, w: Memory, limit: int, o: int, need: int, d: seq<Byte>, first: int, last: int,
                     count: int, l: seq<Rec>)
    requires Tiled(m, EXTENT_HEADER, limit) && RecordsOk(m, limit, first, last, count, l)
    requires Reaches(m, EXTENT_HEADER, limit, o)
    requires Taken(m, w, limit, o, need, d, last) && Tiled(w, EXTENT_HEADER, limit)
    requires forall a :: Reaches(w, EXTENT_HEADER, limit, a) <==>
                           Reaches(m, EXTENT_HEADER, limit, a) || (need < m[o].h.size && a == o + need)
    ensures RecordsOk(w, limit, if first == NO_OFFSET then o else first, o, count + 1, l + [Rec(o, d)])
  {
    hide Tiled, Reaches, ChainFrom;
    var l' := l + [Rec(o, d)];
    forall i | 0 <= i < |l|
      ensures Reaches(m, EXTENT_HEADER, limit, l[i].off) && l[i].off != o && IsHead(m, l[i].off)
      ensures l[i].off != last ==> SameRecord(m, w, l[i].off, m[l[i].off].h.size)
      ensures l[i].off == last ==> NextSet(m, w, last, o)
    {
      ChainAt(m, first, NO_OFFSET, l, i);
      TakenElsewhere(m, w, limit, o, need, d, last, l[i].off);
    }
    assert Holds(w, o, d) && (l != [] ==> l[|l| - 1].off == last);
    TakenChain(m, w, limit, o, need, d, first, last, l);
    forall a | Reaches(w, EXTENT_HEADER, limit, a) && IsHead(w, a) && w[a].h.Live?
      ensures exists i :: 0 <= i < |l'| && l'[i].off == a
    {
      if a == o {
        assert l'[|l|].off == o;
      } else {
        assert Reaches(m, EXTENT_HEADER, limit, a);
        TakenElsewhere(m, w, limit, o, need, d, last, a);
        var i :| 0 <= i < |l| && l[i].off == a;
        assert l'[i].off == a;
      }
    }
  }

  lemma TakenChain(m: Memory, w: Memory, limit: int, o: int, need: int, d: seq<Byte>, first: int, last: int,
                   l: seq<Rec>)
    requires ChainFrom(m, first, NO_OFFSET, l) && last == LastOff(l) && Taken(m, w, limit, o, need, d, last)
    requires Holds(w, o, d)
    requires forall i, j :: 0 <= i < j < |l| ==> l[i].off != l[j].off
    requires forall i :: 0 <= i < |l| ==>
               IsHead(m, l[i].off) && (l[i].off != last ==> SameRecord(m, w, l[i].off, m[l[i].off].h.size))
    requires l != [] ==> NextSet(m, w, last, o)
    ensures ChainFrom(w, if first == NO_OFFSET then o else first, NO_OFFSET, l + [Rec(o, d)])
  {
    if l == [] {
      assert (l + [Rec(o, d)])[1..] == [];
    } else {
      ChainAppend(m, w, first, NO_OFFSET, l, Rec(o, d));
    }
  }
}

// The body of an extent as memory: record headers sixteen bytes wide, data bytes, and whatever else lies around.
// A write over another record's header or data destroys it, so keeping records apart is something to prove.
module ExtentBody {
  import opened DeleteSlots

  type Byte = x: int | 0 <= x < 256

  const NO_OFFSET := -1

  datatype Rid = Rid(ext: int, off: int)

  const NULL_RID := Rid(-1, -1)

  datatype Header =
    | Live(size: nat, my: int, prev: int, next: int)
    | Dead(size: nat, my: int, nextRid: Rid)

  /** Junk is any byte that is not known to be the start of a header or a byte of data. */
  datatype Cell = Data(b: Byte) | Head(h: Header) | Junk

  type Memory = seq<Cell>

  predicate IsHead(m: Memory, o: int) {
    0 <= o < |m| && m[o].Head?
  }

  /** Writes a whole header at o. */
  function WriteHead(m: Memory, o: nat, h: Header): (w: Memory)
    requires o + RECORD_HEADER <= |m|
    ensures |w| == |m| && w[o] == Head(h)
    ensures forall i :: 0 <= i < |m| && !(o <= i < o + RECORD_HEADER) ==> w[i] == m[i]
  {
    seq(|m|, i requires 0 <= i < |m| => if i == o then Head(h) else if o < i < o + RECORD_HEADER then Junk else m[i])
  }

  /** Copies data behind the header at o. */
  function WriteData(m: Memory, o: nat, d: seq<Byte>): (w: Memory)
    requires o + RECORD_HEADER + |d| <= |m|
    ensures |w| == |m|
    ensures forall i :: 0 <= i < |d| ==> w[o + RECORD_HEADER + i] == Data(d[i])
    ensures forall i :: 0 <= i < |m| && !(o + RECORD_HEADER <= i < o + RECORD_HEADER + |d|) ==> w[i] == m[i]
  {
    seq(|m|, i requires 0 <= i < |m| =>
      if o + RECORD_HEADER <= i < o + RECORD_HEADER + |d| then Data(d[i - o - RECORD_HEADER]) else m[i])
  }

  /** A header at o that names itself, has a legal size and ends by limit. */
  predicate Tile(m: Memory, o: int, limit: int) {
    && IsHead(m, o) && m[o].h.my == o && limit <= |m|
    && (if m[o].h.Dead? then MIN_RECORD else RECORD_HEADER) <= m[o].h.size <= MAX_RECORD
    && o + m[o].h.size <= limit
  }

  /** Records cover [o, limit) end to end. */
  predicate Tiled(m: Memory, o: int, limit: int)
    decreases limit - o
  {
    o == limit || (o < limit && Tile(m, o, limit) && Tiled(m, o + m[o].h.size, limit))
  }

  /** Walking the records from o arrives at r. */
  predicate Reaches(m: Memory, o: int, limit: int, r: int)
    requires Tiled(m, o, limit)
    decreases limit - o
  {
    o < limit && (o == r || Reaches(m, o + m[o].h.size, limit, r))
  }

  function DeadSize(m: Memory, o: int): nat
    requires IsHead(m, o)
  {
    if m[o].h.Dead? then m[o].h.size else 0
  }

  /** The sizes of the deleted records of [o, limit) together. */
  function DeadSum(m: Memory, o: int, limit: int): nat
    requires Tiled(m, o, limit)
    decreases limit - o
  {
    if o == limit then 0 else DeadSize(m, o) + DeadSum(m, o + m[o].h.size, limit)
  }

  lemma {:induction false} TileAt(m: Memory, o: int, limit: int, r: int)
    requires Tiled(m, o, limit) && Reaches(m, o, limit, r)
    ensures o <= r < limit && Tile(m, r, limit)
    decreases limit - o
  {
    if o != r {
      TileAt(m, o + m[o].h.size, limit, r);
    }
  }

  /** Two records never overlap. */
  lemma {:induction false} TilesApart(m: Memory, o: int, limit: int, a: int, b: int)
    requires Tiled(m, o, limit) && Reaches(m, o, limit, a) && Reaches(m, o, limit, b) && a < b
    ensures Tile(m, a, limit) && a + m[a].h.size <= b
    decreases limit - o
  {
    var next := o + m[o].h.size;
    TileAt(m, o, limit, a);
    if o == a {
      TileAt(m, next, limit, b);
    } else {
      if o == b { TileAt(m, next, limit, a); }
      TilesApart(m, next, limit, a, b);
    }
  }

  /** No gap: every byte of [o, limit) lies in some record. */
  lemma {:induction false} TileOf(m: Memory, o: int, limit: int, p: int) returns (r: int)
    requires Tiled(m, o, limit) && o <= p < limit
    ensures Reaches(m, o, limit, r) && Tile(m, r, limit) && r <= p < r + m[r].h.size
    decreases limit - o
  {
    if p < o + m[o].h.size {
      r := o;
    } else {
      r := TileOf(m, o + m[o].h.size, limit, p);
    }
  }

  /** Every record of [o, limit) but the one at r kept its place, size and kind from m to w. */
  ghost predicate KeptBut(m: Memory, w: Memory, o: int, limit: int, r: int)
    requires Tiled(m, o, limit)
  {
    forall a :: Reaches(m, o, limit, a) && a != r ==>
      Tile(w, a, limit) && IsHead(m, a) && w[a].h.size == m[a].h.size && (w[a].h.Dead? <==> m[a].h.Dead?)
  }

  lemma {:induction false} Kept(m: Memory, w: Memory, o: int, limit: int, r: int, a: int)
    requires Tiled(m, o, limit) && KeptBut(m, w, o, limit, r) && !Reaches(m, o, limit, r)
    ensures Tiled(w, o, limit) && DeadSum(w, o, limit) == DeadSum(m, o, limit)
    ensures Reaches(w, o, limit, a) <==> Reaches(m, o, limit, a)
    decreases limit - o
  {
    if o < limit {
      assert Reaches(m, o, limit, o);
      Kept(m, w, o + m[o].h.size, limit, r, a);
    }
  }

  /** The record at r shrinks to need bytes and a new record takes the rest, if there is a rest. */
  ghost predicate SplitAt(m: Memory, w: Memory, limit: int, r: int, need: int) {
    && Tile(m, r, limit) && Tile(w, r, limit) && w[r].h.size == need <= m[r].h.size
    && (need < m[r].h.size ==> Tile(w, r + need, limit) && w[r + need].h.size == m[r].h.size - need)
  }

  function RestSize(m: Memory, w: Memory, r: int, need: int): nat
    requires IsHead(m, r)
  {
    if need < m[r].h.size && IsHead(w, r + need) then DeadSize(w, r + need) else 0
  }

  lemma {:induction false} SplitKeeps(m: Memory, w: Memory, o: int, limit: int, r: int, need: int, a: int)
    requires Tiled(m, o, limit) && Reaches(m, o, limit, r) && KeptBut(m, w, o, limit, r)
    requires SplitAt(m, w, limit, r, need)
    ensures Tiled(w, o, limit)
    ensures Reaches(w, o, limit, a) <==> Reaches(m, o, limit, a) || (need < m[r].h.size && a == r + need)
    ensures DeadSum(w, o, limit) == DeadSum(m, o, limit) - DeadSize(m, r) + DeadSize(w, r) + RestSize(m, w, r, need)
    decreases limit - o
  {
    var next := o + m[o].h.size;
    if o == r {
      if Reaches(m, next, limit, r) { TileAt(m, next, limit, r); }
      Kept(m, w, next, limit, r, a);
    } else {
      assert Reaches(m, o, limit, o);
      SplitKeeps(m, w, next, limit, r, need, a);
      assert Tile(w, o, limit) && Tiled(w, next, limit);
    }
  }

  /** A new record written right behind the last one. */
  lemma {:induction false} Appended(m: Memory, w: Memory, o: int, upto: int, limit: int, a: int)
    requires Tiled(m, o, upto) && KeptBut(m, w, o, upto, NO_OFFSET) && 0 <= o <= upto < limit
    requires Tile(w, upto, limit) && upto + w[upto].h.size == limit
    ensures Tiled(w, o, limit)
    ensures Reaches(w, o, limit, a) <==> Reaches(m, o, upto, a) || a == upto
    ensures DeadSum(w, o, limit) == DeadSum(m, o, upto) + DeadSize(w, upto)
    decreases upto - o
  {
    if o < upto {
      assert Reaches(m, o, upto, o);
      Appended(m, w, o + m[o].h.size, upto, limit, a);
      assert Tile(w, o, limit);
    } else {
      assert Tiled(w, limit, limit);
    }
  }
}

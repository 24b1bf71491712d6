// Free lists as sorted, fully merged runs of pages.
module FreeRuns {

  datatype Run = Run(start: nat, size: nat) {
    function End(): nat {
      start + size
    }
  }

  /** Sorted nonempty runs between lo and limit, with at least one page between neighbours. */
  predicate Coalesced(l: seq<Run>, lo: int, limit: int) {
    l != [] ==> lo <= l[0].start && l[0].size >= 1 && l[0].End() <= limit && Coalesced(l[1..], l[0].End() + 1, limit)
  }

  predicate Covers(l: seq<Run>, p: int) {
    l != [] && (l[0].start <= p < l[0].End() || Covers(l[1..], p))
  }

  function TotalSize(l: seq<Run>): nat {
    if l == [] then 0 else l[0].size + TotalSize(l[1..])
  }

  function Max(a: nat, b: nat): nat {
    if a > b then a else b
  }

  function MaxSize(l: seq<Run>): nat {
    if l == [] then 0 else Max(l[0].size, MaxSize(l[1..]))
  }

  /** Whether some page of [s, s + n) lies in a run. */
  ghost predicate Overlaps(l: seq<Run>, s: int, n: nat) {
    exists p :: s <= p < s + n && Covers(l, p)
  }

  lemma {:induction false} CoversBound(l: seq<Run>, lo: int, limit: int, p: int)
    requires Coalesced(l, lo, limit) && Covers(l, p)
    ensures lo <= p < limit
  {
    if !(l[0].start <= p < l[0].End()) {
      CoversBound(l[1..], l[0].End() + 1, limit, p);
    }
  }

  lemma {:induction false} CoalescedFrom(l: seq<Run>, lo: int, lo': int, limit: int)
    requires Coalesced(l, lo, limit) && lo' <= lo
    ensures Coalesced(l, lo', limit)
  {
  }

  // Taking pages from the front of run i.

  function Take(l: seq<Run>, i: nat, n: nat): seq<Run>
    requires i < |l| && n <= l[i].size
  {
    if i > 0 then [l[0]] + Take(l[1..], i - 1, n)
    else if l[0].size == n then l[1..]
    else [Run(l[0].start + n, l[0].size - n)] + l[1..]
  }

  lemma {:induction false} TakeIsEdit(l: seq<Run>, i: nat, n: nat)
    requires i < |l| && n <= l[i].size
    ensures Take(l, i, n) ==
            if l[i].size == n then l[..i] + l[i + 1..] else l[i := Run(l[i].start + n, l[i].size - n)]
  {
    if i > 0 {
      TakeIsEdit(l[1..], i - 1, n);
    }
  }

  /** Taking pages keeps the list merged and uncovers exactly the pages taken. */
  lemma {:induction false} TakeKeeps(l: seq<Run>, lo: int, limit: int, i: nat, n: nat)
    requires Coalesced(l, lo, limit) && i < |l| && n <= l[i].size
    ensures Coalesced(Take(l, i, n), lo, limit)
    ensures TotalSize(Take(l, i, n)) == TotalSize(l) - n
    ensures lo <= l[i].start && l[i].End() <= limit
  {
    if i > 0 {
      TakeKeeps(l[1..], l[0].End() + 1, limit, i - 1, n);
    } else if l[0].size == n {
      CoalescedFrom(l[1..], l[0].End() + 1, lo, limit);
    }
  }

  lemma {:induction false} TakeCovers(l: seq<Run>, lo: int, limit: int, i: nat, n: nat, p: int)
    requires Coalesced(l, lo, limit) && i < |l| && n <= l[i].size
    ensures Covers(Take(l, i, n), p) <==> Covers(l, p) && !(l[i].start <= p < l[i].start + n)
  {
    var rest, next := l[1..], l[0].End() + 1;
    if Covers(rest, p) {
      CoversBound(rest, next, limit, p);
    }
    if i > 0 {
      TakeCovers(rest, next, limit, i - 1, n, p);
      TakeKeeps(rest, next, limit, i - 1, n);
    }
  }

  /** Pages in a run can be taken. */
  lemma {:induction false} RunCovers(l: seq<Run>, i: nat, p: int)
    requires i < |l| && l[i].start <= p < l[i].End()
    ensures Covers(l, p)
  {
    if i > 0 {
      RunCovers(l[1..], i - 1, p);
    }
  }

  /** Taking from a run shorter than the longest keeps the longest; otherwise look again. */
  lemma {:induction false} TakeMax(l: seq<Run>, i: nat, n: nat)
    requires i < |l| && n <= l[i].size
    ensures l[i].size <= MaxSize(l) && MaxSize(Take(l, i, n)) <= MaxSize(l)
    ensures l[i].size != MaxSize(l) ==> MaxSize(Take(l, i, n)) == MaxSize(l)
  {
    if i > 0 {
      TakeMax(l[1..], i - 1, n);
    }
  }

  // Giving pages back.

  function Put(l: seq<Run>, s: nat, n: nat): seq<Run> {
    if l == [] then [Run(s, n)]
    else if s + n < l[0].start then [Run(s, n)] + l
    else if s + n == l[0].start then [Run(s, n + l[0].size)] + l[1..]
    else if l[0].End() == s then
      if |l| > 1 && s + n == l[1].start then [Run(l[0].start, l[0].size + n + l[1].size)] + l[2..]
      else [Run(l[0].start, l[0].size + n)] + l[1..]
    else [l[0]] + Put(l[1..], s, n)
  }

  /** A range that overlaps no run lies in front of the first run or behind it. */
  lemma HeadApart(l: seq<Run>, s: nat, n: nat)
    requires l != [] && l[0].size >= 1 && n >= 1 && !Overlaps(l, s, n)
    ensures s + n <= l[0].start || l[0].End() <= s
    ensures !Overlaps(l[1..], s, n)
  {
    assert !Covers(l, s);
    if s < l[0].start < s + n {
      assert Covers(l, l[0].start);
    }
    assert forall p :: Covers(l[1..], p) ==> Covers(l, p);
  }

  lemma {:induction false} PutKeeps(l: seq<Run>, lo: int, limit: int, s: nat, n: nat)
    requires Coalesced(l, lo, limit) && n >= 1 && lo <= s && s + n <= limit && !Overlaps(l, s, n)
    ensures Coalesced(Put(l, s, n), lo, limit)
    ensures TotalSize(Put(l, s, n)) == TotalSize(l) + n
  {
    hide Overlaps;
    if l != [] {
      HeadApart(l, s, n);
      if l[0].End() < s {
        PutKeeps(l[1..], l[0].End() + 1, limit, s, n);
      } else if l[0].End() == s && |l| > 1 {
        HeadApart(l[1..], s, n);
        assert l[1..][1..] == l[2..];
      }
    }
  }

  lemma {:induction false} PutCovers(l: seq<Run>, lo: int, limit: int, s: nat, n: nat, p: int)
    requires Coalesced(l, lo, limit) && n >= 1 && lo <= s && s + n <= limit && !Overlaps(l, s, n)
    ensures Covers(Put(l, s, n), p) <==> Covers(l, p) || s <= p < s + n
  {
    hide Overlaps;
    if l != [] {
      HeadApart(l, s, n);
      if l[0].End() < s {
        PutCovers(l[1..], l[0].End() + 1, limit, s, n, p);
      } else if l[0].End() == s && |l| > 1 {
        HeadApart(l[1..], s, n);
        assert l[1..][1..] == l[2..];
      }
    }
  }

  // What the list says about the pages.

  /** The runs are maximal: their pages are covered, the pages next to them are not. */
  lemma {:induction false} RunsAreMaximal(l: seq<Run>, lo: int, limit: int, i: nat, p: int)
    requires Coalesced(l, lo, limit) && i < |l|
    ensures l[i].start <= p < l[i].End() ==> Covers(l, p)
    ensures p == l[i].start - 1 || p == l[i].End() ==> !Covers(l, p)
    ensures lo <= l[i].start && l[i].size >= 1
  {
    var rest, next := l[1..], l[0].End() + 1;
    if Covers(rest, p) {
      CoversBound(rest, next, limit, p);
    }
    if i > 0 {
      RunsAreMaximal(rest, next, limit, i - 1, p);
    }
  }

  /** A merged list is determined by the pages it covers. */
  lemma {:induction false} CoalescedUnique(a: seq<Run>, b: seq<Run>, lo: int, limit: int)
    requires Coalesced(a, lo, limit) && Coalesced(b, lo, limit)
    requires forall p :: Covers(a, p) <==> Covers(b, p)
    ensures a == b
  {
    if a != [] && b != [] {
      SameHead(a, b, lo, limit);
      SameHead(b, a, lo, limit);
      var next := a[0].End() + 1;
      forall p ensures Covers(a[1..], p) <==> Covers(b[1..], p) {
        if Covers(a[1..], p) { CoversBound(a[1..], next, limit, p); assert Covers(a, p); }
        if Covers(b[1..], p) { CoversBound(b[1..], next, limit, p); assert Covers(b, p); }
      }
      CoalescedUnique(a[1..], b[1..], lo + 1, limit);
    } else if a != [] {
      assert Covers(a, a[0].start);
    } else if b != [] {
      assert Covers(b, b[0].start);
    }
  }

  lemma SameHead(a: seq<Run>, b: seq<Run>, lo: int, limit: int)
    requires Coalesced(a, lo, limit) && Coalesced(b, lo, limit) && a != [] && b != []
    requires forall p :: Covers(a, p) <==> Covers(b, p)
    ensures b[0].start <= a[0].start && (a[0].start == b[0].start ==> a[0].End() <= b[0].End())
  {
    assert Covers(a, a[0].start);
    if Covers(b[1..], a[0].start) {
      CoversBound(b[1..], b[0].End() + 1, limit, a[0].start);
    }
    if a[0].start == b[0].start && b[0].End() < a[0].End() {
      assert Covers(a, b[0].End());
      CoversBound(b[1..], b[0].End() + 1, limit, b[0].End());
    }
  }

  /** n contiguous free pages from p on. */
  ghost predicate Fits(l: seq<Run>, p: int, n: nat) {
    forall q :: p <= q < p + n ==> Covers(l, q)
  }

  /** Contiguous free pages lie in one run. */
  lemma {:induction false} FitsInRun(l: seq<Run>, lo: int, limit: int, p: int, n: nat) returns (i: nat)
    requires Coalesced(l, lo, limit) && n >= 1 && Fits(l, p, n)
    ensures i < |l| && l[i].start <= p && p + n <= l[i].End()
  {
    assert Covers(l, p);
    RunsAreMaximal(l, lo, limit, 0, l[0].End());
    if p < l[0].End() {
      if Covers(l[1..], p) { CoversBound(l[1..], l[0].End() + 1, limit, p); }
      i := 0;
    } else {
      forall q | p <= q < p + n ensures Covers(l[1..], q) { assert Covers(l, q); }
      var j := FitsInRun(l[1..], l[0].End() + 1, limit, p, n);
      i := j + 1;
    }
  }

  lemma {:induction false} RunStartsOrdered(l: seq<Run>, lo: int, limit: int, i: nat, j: nat)
    requires Coalesced(l, lo, limit) && i <= j < |l|
    ensures l[i].start <= l[j].start && (i < j ==> l[i].End() < l[j].start)
  {
    if i > 0 {
      RunStartsOrdered(l[1..], l[0].End() + 1, limit, i - 1, j - 1);
    } else if j > 0 {
      RunsAreMaximal(l[1..], l[0].End() + 1, limit, j - 1, 0);
    }
  }

  /** The first run that is long enough starts at the lowest page where n pages fit. */
  lemma FirstFitIsLowest(l: seq<Run>, lo: int, limit: int, i: nat, n: nat, p: int)
    requires Coalesced(l, lo, limit) && n >= 1 && i < |l| && l[i].size >= n
    requires forall j :: 0 <= j < i ==> l[j].size < n
    ensures Fits(l, l[i].start, n)
    ensures Fits(l, p, n) ==> l[i].start <= p
  {
    forall q | l[i].start <= q < l[i].start + n ensures Covers(l, q) {
      RunsAreMaximal(l, lo, limit, i, q);
    }
    if Fits(l, p, n) {
      var j := FitsInRun(l, lo, limit, p, n);
      RunStartsOrdered(l, lo, limit, i, if j < i then i else j);
    }
  }

  lemma {:induction false} MaxSizeIsMax(l: seq<Run>, i: nat)
    requires i < |l|
    ensures l[i].size <= MaxSize(l)
  {
    if i > 0 {
      MaxSizeIsMax(l[1..], i - 1);
    }
  }

  lemma {:induction false} MaxSizeIsReached(l: seq<Run>) returns (i: nat)
    requires l != []
    ensures i < |l| && l[i].size == MaxSize(l)
  {
    i := 0;
    if l[0].size < MaxSize(l) {
      MaxSizeEmpty(l[1..]);
      var j := MaxSizeIsReached(l[1..]);
      i := j + 1;
    }
  }

  lemma MaxSizeEmpty(l: seq<Run>)
    ensures l == [] ==> MaxSize(l) == 0
  {
  }

  /** Nothing longer than the longest run fits anywhere. */
  lemma NothingFits(l: seq<Run>, lo: int, limit: int, n: nat, p: int)
    requires Coalesced(l, lo, limit) && n >= 1 && MaxSize(l) < n
    ensures !Fits(l, p, n)
  {
    if Fits(l, p, n) {
      var i := FitsInRun(l, lo, limit, p, n);
      MaxSizeIsMax(l, i);
    }
  }

  // Counting.

  /** The number of true entries of free[lo..hi]. */
  function CountFree(free: seq<bool>, lo: nat, hi: nat): nat
    requires lo <= hi <= |free|
    decreases hi - lo
  {
    if lo == hi then 0 else (if free[lo] then 1 else 0) + CountFree(free, lo + 1, hi)
  }

  lemma {:induction false} CountConstant(free: seq<bool>, lo: nat, hi: nat, b: bool)
    requires lo <= hi <= |free| && forall p :: lo <= p < hi ==> free[p] == b
    ensures CountFree(free, lo, hi) == if b then hi - lo else 0
    decreases hi - lo
  {
    if lo < hi {
      CountConstant(free, lo + 1, hi, b);
    }
  }

  lemma {:induction false} CountSplit(free: seq<bool>, lo: nat, mid: nat, hi: nat)
    requires lo <= mid <= hi <= |free|
    ensures CountFree(free, lo, hi) == CountFree(free, lo, mid) + CountFree(free, mid, hi)
    decreases mid - lo
  {
    if lo < mid {
      CountSplit(free, lo + 1, mid, hi);
    }
  }

  /** The runs hold as many pages as there are free ones. */
  lemma {:induction false} TotalIsCount(l: seq<Run>, free: seq<bool>, lo: nat, limit: nat)
    requires lo <= limit <= |free| && Coalesced(l, lo, limit)
    requires forall p :: lo <= p < limit ==> (free[p] <==> Covers(l, p))
    ensures TotalSize(l) == CountFree(free, lo, limit)
    decreases |l|
  {
    if l == [] {
      CountConstant(free, lo, limit, false);
    } else {
      var a, b := l[0].start, l[0].End();
      forall p | lo <= p < limit ensures free[p] <==> (a <= p < b || Covers(l[1..], p)) {
      }
      forall p | lo <= p < a ensures !free[p] {
        if Covers(l[1..], p) { CoversBound(l[1..], b + 1, limit, p); }
      }
      CountConstant(free, lo, a, false);
      CountConstant(free, a, b, true);
      CountSplit(free, lo, a, limit);
      CountSplit(free, a, b, limit);
      if b < limit {
        if Covers(l[1..], b) { CoversBound(l[1..], b + 1, limit, b); }
        TotalIsCount(l[1..], free, b + 1, limit);
      } else {
        assert l[1..] == [];
      }
    }
  }

  // The release loop.

  /** The length of the run that [s, s + n) ends up in. */
  function PutSize(l: seq<Run>, s: nat, n: nat): nat {
    if l == [] then n
    else if s + n < l[0].start then n
    else if s + n == l[0].start then n + l[0].size
    else if l[0].End() == s then
      if |l| > 1 && s + n == l[1].start then l[0].size + n + l[1].size else l[0].size + n
    else PutSize(l[1..], s, n)
  }

  lemma {:induction false} PutMax(l: seq<Run>, s: nat, n: nat)
    ensures MaxSize(Put(l, s, n)) == Max(MaxSize(l), PutSize(l, s, n))
  {
    if l != [] {
      if |l| > 1 {
        assert l[1..][1..] == l[2..];
      }
      PutMax(l[1..], s, n);
    }
  }

  lemma PutBehind(l: seq<Run>, s: nat, n: nat)
    requires l != [] && l[0].End() < s
    ensures Put(l, s, n) == [l[0]] + Put(l[1..], s, n) && PutSize(l, s, n) == PutSize(l[1..], s, n)
  {
  }

  /** Runs that end before s stay as they are. */
  lemma {:induction false} PutSkips(l: seq<Run>, k: nat, s: nat, n: nat)
    requires k <= |l| && forall j :: 0 <= j < k ==> l[j].End() < s
    ensures Put(l, s, n) == l[..k] + Put(l[k..], s, n) && PutSize(l, s, n) == PutSize(l[k..], s, n)
  {
    hide Put, PutSize;
    if k > 0 {
      PutBehind(l, s, n);
      assert l[1..][k - 1..] == l[k..];
      forall j | 0 <= j < k - 1 ensures l[1..][j].End() < s { assert l[1..][j] == l[j + 1]; }
      PutSkips(l[1..], k - 1, s, n);
      assert l[..k] == [l[0]] + l[1..][..k - 1];
      assert [l[0]] + (l[1..][..k - 1] + Put(l[k..], s, n)) == l[..k] + Put(l[k..], s, n);
    } else {
      assert l[0..] == l;
    }
  }

  /** Nothing overlaps when the runs before position k end by s and the next one starts at s + n or later. */
  lemma {:induction false} NoOverlap(l: seq<Run>, lo: int, limit: int, k: nat, s: nat, n: nat)
    requires Coalesced(l, lo, limit) && k <= |l|
    requires forall j :: 0 <= j < k ==> l[j].End() <= s
    requires k < |l| ==> s + n <= l[k].start
    ensures !Overlaps(l, s, n)
  {
    if k > 0 {
      forall j | 0 <= j < k - 1 ensures l[1..][j].End() <= s { assert l[1..][j] == l[j + 1]; }
      NoOverlap(l[1..], l[0].End() + 1, limit, k - 1, s, n);
      assert l[0].End() <= s;
      forall p | s <= p < s + n ensures !Covers(l, p) { assert !Covers(l[1..], p); }
    } else if l != [] {
      forall p | s <= p < s + n ensures !Covers(l, p) {
        if Covers(l[1..], p) { CoversBound(l[1..], l[0].End() + 1, limit, p); }
      }
    }
  }

  /** Where the walk stops: `it` is the first run behind s, and the runs before it end by s. */
  ghost predicate StopsAt(l: seq<Run>, it: nat, s: nat, n: nat) {
    && it <= |l|
    && (forall j :: 0 <= j < it ==> l[j].End() <= s)
    && (it < |l| ==> s + n <= l[it].start)
  }

  /** Only the run just before the stop can touch s. */
  lemma EarlierRunsApart(l: seq<Run>, limit: int, it: nat, s: nat)
    requires Coalesced(l, 0, limit) && it <= |l| && forall j :: 0 <= j < it ==> l[j].End() <= s
    ensures forall j :: 0 <= j < it - 1 ==> l[j].End() < s
  {
    forall j | 0 <= j < it - 1 ensures l[j].End() < s {
      RunStartsOrdered(l, 0, limit, j, it - 1);
      assert l[it - 1].End() <= s;
    }
  }

  /** Put, when the previous run does not touch the pages given back. */
  lemma PutApart(l: seq<Run>, limit: int, it: nat, s: nat, n: nat)
    requires Coalesced(l, 0, limit) && StopsAt(l, it, s, n) && n >= 1
    requires it > 0 ==> l[it - 1].End() < s
    ensures it == |l| ==> Put(l, s, n) == l + [Run(s, n)] && PutSize(l, s, n) == n
    ensures it < |l| && s + n == l[it].start ==>
              Put(l, s, n) == l[it := Run(s, l[it].size + n)] && PutSize(l, s, n) == l[it].size + n
    ensures it < |l| && s + n < l[it].start ==>
              Put(l, s, n) == l[..it] + [Run(s, n)] + l[it..] && PutSize(l, s, n) == n
  {
    hide Coalesced, Covers;
    EarlierRunsApart(l, limit, it, s);
    PutSkips(l, it, s, n);
    if it < |l| {
      assert l[it..][0] == l[it] && l[it..][1..] == l[it + 1..];
    }
  }

  /** Put, when the previous run ends where the pages given back begin. */
  lemma PutTouching(l: seq<Run>, limit: int, it: nat, s: nat, n: nat)
    requires Coalesced(l, 0, limit) && StopsAt(l, it, s, n) && n >= 1
    requires it > 0 && l[it - 1].End() == s
    ensures var prev := l[it - 1];
            var joins := it < |l| && s + n == l[it].start;
            var size := prev.size + n + if joins then l[it].size else 0;
            Put(l, s, n) == l[..it - 1] + [Run(prev.start, size)] + l[if joins then it + 1 else it..]
            && PutSize(l, s, n) == size
  {
    hide Coalesced, Covers;
    EarlierRunsApart(l, limit, it, s);
    PutSkips(l, it - 1, s, n);
    var t := l[it - 1..];
    assert t[0] == l[it - 1] && t[1..] == l[it..];
    RunsAreMaximal(l, 0, limit, it - 1, 0);
    if it < |l| {
      assert t[1] == l[it] && t[2..] == l[it + 1..];
    }
  }

  /** Gives back [rela, rela + n): walks to the first run behind it and merges with the neighbours. */
  method ReleaseRun(list: seq<Run>, limit: nat, rela: nat, n: nat, max: nat)
    returns (ok: bool, list': seq<Run>, max': nat)
    requires Coalesced(list, 0, limit) && n >= 1 && rela + n <= limit && max == MaxSize(list)
    ensures ok <==> !Overlaps(list, rela, n)
    ensures ok ==> list' == Put(list, rela, n) && max' == MaxSize(list')
    ensures !ok ==> list' == list && max' == max
  {
    hide Overlaps, MaxSize, PutSize, Put, Coalesced;
    list', max' := list, max;
    var it := 0;
    while it < |list| && list[it].start <= rela
      invariant 0 <= it <= |list| && list' == list && max' == max
      invariant forall j :: 0 <= j < it ==> list[j].End() <= rela
    {
      if list[it].End() > rela {
        RunCovers(list, it, rela);
        OverlapAt(list, rela, n, rela);
        return false, list, max;
      }
      it := it + 1;
    }
    if it < |list| && rela + n > list[it].start {
      RunsAreMaximal(list, 0, limit, it, list[it].start);
      OverlapAt(list, rela, n, list[it].start);
      return false, list, max;
    }
    ok := true;
    NoOverlap(list, 0, limit, it, rela, n);
    PutMax(list, rela, n);
    var newSize := n;
    if it == |list| {
      list' := list + [Run(rela, n)];
    } else if rela + n == list[it].start {
      newSize := list[it].size + n;
      list' := list[it := Run(rela, newSize)];
    } else {
      list' := list[..it] + [Run(rela, n)] + list[it..];
    }
    if newSize > max' {
      max' := newSize;
    }
    if it > 0 && list'[it - 1].End() == rela {
      PutTouching(list, limit, it, rela, n);
      list' := list'[..it - 1] + [Run(list'[it - 1].start, newSize + list'[it - 1].size)] + list'[it + 1..];
      if newSize + list[it - 1].size > max' {
        max' := newSize + list[it - 1].size;
      }
    } else {
      PutApart(list, limit, it, rela, n);
    }
  }

  lemma OverlapAt(l: seq<Run>, s: int, n: nat, p: int)
    requires s <= p < s + n && Covers(l, p)
    ensures Overlaps(l, s, n)
  {
  }
}

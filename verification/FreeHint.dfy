// The first-free hint shared by concurrent reserve and release calls, as interleaved atomic steps.
module FreeHint {

  /** Where a thread stands. */
  datatype Pc =
    | Idle
    | AtSegment(pos: nat)                 // reserve: about to lock segment pos
    | Locked(pos: nat)                    // reserve: holds the mutex of segment pos
    | FoundEmpty(pos: nat)                // reserve: holds the mutex, saw no free page, about to swap the hint
    | Taking(pos: nat)                    // reserve: holds the mutex, about to search the list
    | Releasing(id: nat, n: nat)          // release: about to lock segment id and link n pages
    | Lowering(id: nat)                   // release: list updated and mutex dropped, hint not read yet
    | Swapping(id: nat, prev: int)        // release: about to compare and swap against prev

  /** Free pages of each segment, the hint, who holds each segment's mutex, and the threads. */
  datatype State = State(free: seq<nat>, hint: int, owner: seq<int>, pcs: seq<Pc>)

  const NOBODY := -1

  ghost predicate Init(s: State) {
    && s.hint == 0 && |s.owner| == |s.free|
    && (forall j :: 0 <= j < |s.owner| ==> s.owner[j] == NOBODY)
    && (forall t :: 0 <= t < |s.pcs| ==> s.pcs[t] == Idle)
  }

  /** A compare and swap of the hint. */
  function Swapped(hint: int, expected: int, desired: int): int {
    if hint == expected then desired else hint
  }

  function Goto(s: State, t: nat, pc: Pc): State
    requires t < |s.pcs|
  {
    s.(pcs := s.pcs[t := pc])
  }

  /** What an idle thread sets out to do, and how many pages a step moves. */
  datatype Choice = Reserve | Release(id: nat, n: nat) | Deposit(n: nat) | Take(n: nat) | Go | Refuse

  ghost predicate AllIdle(s: State) {
    forall u :: 0 <= u < |s.pcs| ==> s.pcs[u] == Idle
  }

  /** One atomic step of thread t. */
  ghost predicate Step(s: State, t: nat, c: Choice, s': State)
    requires t < |s.pcs| && |s.owner| == |s.free|
  {
    match s.pcs[t]
    case Idle =>
      (match c
       case Reserve => s.hint >= 0 && s' == Goto(s, t, AtSegment(s.hint))
       // a release beyond the last segment is refused at once
       case Release(id, n) => s' == if id < |s.free| then Goto(s, t, Releasing(id, n)) else s
       // extending the file takes the lock exclusively, so every other thread is out
       case Deposit(n) => AllIdle(s) && s' == s.(free := s.free + [n], owner := s.owner + [NOBODY])
       case _ => false)
    case AtSegment(pos) =>
      if pos >= |s.free| then s' == Goto(s, t, Idle)
      else s.owner[pos] == NOBODY && s' == Goto(s, t, Locked(pos)).(owner := s.owner[pos := t])
    case Locked(pos) =>
      pos < |s.free| && s' == Goto(s, t, if s.free[pos] == 0 then FoundEmpty(pos) else Taking(pos))
    case FoundEmpty(pos) =>
      s' == Goto(s, t, Taking(pos)).(hint := Swapped(s.hint, pos, pos + 1))
    case Taking(pos) =>
      && c.Take? && pos < |s.free| && c.n <= s.free[pos]
      && s' == Goto(s, t, if c.n > 0 then Idle else AtSegment(pos + 1))
               .(free := s.free[pos := s.free[pos] - c.n], owner := s.owner[pos := NOBODY])
    case Releasing(id, n) =>
      // lock, link and unlock: possible while nobody holds the mutex; the segment may refuse and change nothing
      && id < |s.free| && s.owner[id] == NOBODY
      && s' == if c.Refuse? then Goto(s, t, Idle) else Goto(s, t, Lowering(id)).(free := s.free[id := s.free[id] + n])
    case Lowering(id) =>
      s' == Goto(s, t, Swapping(id, s.hint))
    case Swapping(id, prev) =>
      if s.hint == prev then s' == Goto(s, t, Idle).(hint := if id < prev then id else prev)
      else s' == Goto(s, t, Swapping(id, s.hint))
  }

  /** A release on segment j lies between its list update and the end of its atomic minimum. */
  predicate Pending(pc: Pc, j: int) {
    (pc.Lowering? || pc.Swapping?) && pc.id == j
  }

  predicate Holds(pc: Pc, j: int) {
    (pc.Locked? || pc.FoundEmpty? || pc.Taking?) && pc.pos == j
  }

  ghost predicate Covered(s: State, j: nat)
    requires j < |s.free|
  {
    s.free[j] == 0 || exists t :: 0 <= t < |s.pcs| && Pending(s.pcs[t], j)
  }

  /** A thread inside a segment's critical section owns its mutex, and a segment it saw empty stays empty meanwhile. */
  ghost predicate Exclusive(s: State, t: nat)
    requires t < |s.pcs| && |s.owner| == |s.free|
  {
    var pc := s.pcs[t];
    && (pc.Locked? || pc.FoundEmpty? || pc.Taking? ==> pc.pos < |s.free| && s.owner[pc.pos] == t)
    && (pc.FoundEmpty? ==> s.free[pc.pos] == 0) && (pc.Releasing? ==> pc.id < |s.free|)
  }

  /** Whoever owns the mutex of segment j is inside its critical section. */
  ghost predicate Owned(s: State, j: nat)
    requires j < |s.owner|
  {
    s.owner[j] == NOBODY || (0 <= s.owner[j] < |s.pcs| && Holds(s.pcs[s.owner[j]], j))
  }

  ghost predicate Inv(s: State) {
    && |s.owner| == |s.free| && 0 <= s.hint <= |s.free|
    && (forall j :: 0 <= j < |s.owner| ==> Owned(s, j))
    && (forall t :: 0 <= t < |s.pcs| ==> Exclusive(s, t))
    && (forall j :: 0 <= j < s.hint ==> Covered(s, j))
  }

  lemma BoundsKept(s: State, t: nat, c: Choice, s': State)
    requires Inv(s) && t < |s.pcs| && Step(s, t, c, s')
    ensures |s'.owner| == |s'.free| && |s'.pcs| == |s.pcs| && 0 <= s'.hint <= |s'.free|
  {
    assert Exclusive(s, t);
  }

  /** Mutual exclusion: the step of t leaves every other thread's critical section alone. */
  lemma ExclusionKept(s: State, t: nat, c: Choice, s': State, u: nat)
    requires Inv(s) && t < |s.pcs| && Step(s, t, c, s') && u < |s.pcs|
    requires |s'.owner| == |s'.free| && |s'.pcs| == |s.pcs|
    ensures Exclusive(s', u)
  {
    if u == t {
      OwnSection(s, t, c, s');
    } else {
      OtherSection(s, t, c, s', u);
    }
  }

  lemma OwnSection(s: State, t: nat, c: Choice, s': State)
    requires Inv(s) && t < |s.pcs| && Step(s, t, c, s') && |s'.owner| == |s'.free| && |s'.pcs| == |s.pcs|
    ensures Exclusive(s', t)
  {
    assert Exclusive(s, t);
  }

  lemma OtherSection(s: State, t: nat, c: Choice, s': State, u: nat)
    requires Inv(s) && t < |s.pcs| && Step(s, t, c, s') && |s'.owner| == |s'.free| && |s'.pcs| == |s.pcs|
    requires u < |s.pcs| && u != t
    ensures Exclusive(s', u)
  {
    assert Exclusive(s, t) && Exclusive(s, u);
    assert s'.pcs[u] == s.pcs[u];
  }

  lemma OwnersKept(s: State, t: nat, c: Choice, s': State, j: nat)
    requires Inv(s) && t < |s.pcs| && Step(s, t, c, s') && |s'.owner| == |s'.free| && |s'.pcs| == |s.pcs|
    requires j < |s'.owner|
    ensures Owned(s', j)
  {
    assert Exclusive(s, t);
    if j < |s.owner| {
      assert Owned(s, j);
    }
  }

  /** A segment below the new hint is empty or has a pending release. */
  lemma CoverageKept(s: State, t: nat, c: Choice, s': State, j: nat)
    requires Inv(s) && t < |s.pcs| && Step(s, t, c, s') && |s'.pcs| == |s.pcs|
    requires j < s'.hint <= |s'.free|
    ensures Covered(s', j)
  {
    assert Exclusive(s, t);
    if s.pcs[t].Releasing? && s.pcs[t].id == j && !c.Refuse? {
      assert Pending(s'.pcs[t], j);
    } else if j < s.hint {
      assert Covered(s, j);
      if s.free[j] != 0 {
        var u :| 0 <= u < |s.pcs| && Pending(s.pcs[u], j);
        assert Pending(s'.pcs[u], j);
      }
    }
  }

  lemma StepKeepsInv(s: State, t: nat, c: Choice, s': State)
    requires Inv(s) && t < |s.pcs| && Step(s, t, c, s')
    ensures Inv(s')
  {
    hide Step, Exclusive, Covered, Owned;
    BoundsKept(s, t, c, s');
    forall j | 0 <= j < |s'.owner| ensures Owned(s', j) {
      OwnersKept(s, t, c, s', j);
    }
    forall u | 0 <= u < |s'.pcs| ensures Exclusive(s', u) {
      ExclusionKept(s, t, c, s', u);
    }
    forall j | 0 <= j < s'.hint ensures Covered(s', j) {
      CoverageKept(s, t, c, s', j);
    }
  }

  datatype Move = Move(thread: nat, choice: Choice)

  ghost predicate IsRun(states: seq<State>, moves: seq<Move>) {
    && |states| == |moves| + 1 && Init(states[0])
    && forall i :: 0 <= i < |moves| ==>
         && |states[i].owner| == |states[i].free| && moves[i].thread < |states[i].pcs|
         && Step(states[i], moves[i].thread, moves[i].choice, states[i + 1])
  }

  /** Under every interleaving, a segment below the hint is empty or has a release still on its way to lower the
      hint. */
  lemma {:induction false} EveryInterleaving(states: seq<State>, moves: seq<Move>, i: nat)
    requires IsRun(states, moves) && i < |states|
    ensures Inv(states[i])
  {
    if i > 0 {
      EveryInterleaving(states, moves, i - 1);
      StepKeepsInv(states[i - 1], moves[i - 1].thread, moves[i - 1].choice, states[i]);
    }
  }

  /** With no release on its way, the hint hides no free page. */
  lemma QuietHintHidesNothing(states: seq<State>, moves: seq<Move>, i: nat, j: nat)
    requires IsRun(states, moves) && i < |states| && j < states[i].hint
    requires forall t :: 0 <= t < |states[i].pcs| ==> !states[i].pcs[t].Lowering? && !states[i].pcs[t].Swapping?
    ensures j < |states[i].free| && states[i].free[j] == 0
  {
    EveryInterleaving(states, moves, i);
    assert Covered(states[i], j);
  }

  /** The segment whose mutex a thread waits for, or -1. */
  function WaitsFor(s: State, t: nat): int
    requires t < |s.pcs|
  {
    match s.pcs[t]
    case AtSegment(pos) => if pos < |s.free| then pos else -1
    case Releasing(id, _) => id
    case _ => -1
  }

  /** A thread that waits for no mutex can step, and so can one whose mutex nobody holds. */
  lemma CanStep(s: State, t: nat) returns (c: Choice, s': State)
    requires Inv(s) && t < |s.pcs|
    requires var j := WaitsFor(s, t); j == -1 || (j < |s.free| && s.owner[j] == NOBODY)
    ensures Step(s, t, c, s')
  {
    assert Exclusive(s, t);
    c := Go;
    match s.pcs[t]
    case Idle =>
      c := Reserve;
      s' := Goto(s, t, AtSegment(s.hint));
    case AtSegment(pos) =>
      s' := if pos >= |s.free| then Goto(s, t, Idle) else Goto(s, t, Locked(pos)).(owner := s.owner[pos := t]);
    case Locked(pos) =>
      s' := Goto(s, t, if s.free[pos] == 0 then FoundEmpty(pos) else Taking(pos));
    case FoundEmpty(pos) =>
      s' := Goto(s, t, Taking(pos)).(hint := Swapped(s.hint, pos, pos + 1));
    case Taking(pos) =>
      c := Take(0);
      s' := Goto(s, t, AtSegment(pos + 1)).(free := s.free[pos := s.free[pos]], owner := s.owner[pos := NOBODY]);
    case Releasing(id, n) =>
      s' := Goto(s, t, Lowering(id)).(free := s.free[id := s.free[id] + n]);
    case Lowering(id) =>
      s' := Goto(s, t, Swapping(id, s.hint));
    case Swapping(id, prev) =>
      s' := if s.hint == prev then Goto(s, t, Idle).(hint := if id < prev then id else prev)
            else Goto(s, t, Swapping(id, s.hint));
  }

  /** No deadlock: a thread that waits for a mutex waits for one that is not waiting itself. */
  lemma NeverStuck(s: State, t: nat) returns (u: nat, c: Choice, s': State)
    requires Inv(s) && t < |s.pcs|
    ensures u < |s.pcs| && Step(s, u, c, s')
  {
    assert Exclusive(s, t);
    var j := WaitsFor(s, t);
    u := t;
    if j != -1 && s.owner[j] != NOBODY {
      assert Owned(s, j);
      u := s.owner[j];
    }
    c, s' := CanStep(s, u);
  }

  /** A release that nobody disturbs adds its pages and lowers the hint to its segment if that is lower. */
  lemma ReleaseAlone(s: State, t: nat, id: nat, n: nat, s1: State, s2: State, s3: State, s4: State)
    requires Inv(s) && t < |s.pcs| && s.pcs[t] == Idle && id < |s.free| && Step(s, t, Release(id, n), s1)
    requires |s1.owner| == |s1.free| && t < |s1.pcs| && Step(s1, t, Go, s2)
    requires |s2.owner| == |s2.free| && t < |s2.pcs| && Step(s2, t, Go, s3)
    requires |s3.owner| == |s3.free| && t < |s3.pcs| && Step(s3, t, Go, s4)
    ensures t < |s4.pcs| && s4.pcs[t] == Idle && s4.free == s.free[id := s.free[id] + n] && s4.owner == s.owner
    ensures s4.hint == if id < s.hint then id else s.hint
  {
    assert s1 == Goto(s, t, Releasing(id, n));
    assert s2 == Goto(s1, t, Lowering(id)).(free := s1.free[id := s1.free[id] + n]);
    assert s3 == Goto(s2, t, Swapping(id, s2.hint));
  }

  /** A reservation that finds the segment at the hint empty moves the hint past it and goes on to the next segment. */
  lemma ReserveAlone(s: State, t: nat, s1: State, s2: State, s3: State, s4: State, s5: State)
    requires Inv(s) && t < |s.pcs| && s.pcs[t] == Idle && s.hint < |s.free| && s.free[s.hint] == 0
    requires Step(s, t, Reserve, s1)
    requires |s1.owner| == |s1.free| && t < |s1.pcs| && Step(s1, t, Go, s2)
    requires |s2.owner| == |s2.free| && t < |s2.pcs| && Step(s2, t, Go, s3)
    requires |s3.owner| == |s3.free| && t < |s3.pcs| && Step(s3, t, Go, s4)
    requires |s4.owner| == |s4.free| && t < |s4.pcs| && Step(s4, t, Take(0), s5)
    ensures t < |s5.pcs| && s5.pcs[t] == AtSegment(s.hint + 1) && s5.hint == s.hint + 1 && s5.free == s.free
  {
    assert s1 == Goto(s, t, AtSegment(s.hint));
    assert s2 == Goto(s1, t, Locked(s.hint)).(owner := s1.owner[s.hint := t]);
    assert s3 == Goto(s2, t, FoundEmpty(s.hint));
    assert s4 == Goto(s3, t, Taking(s.hint)).(hint := s.hint + 1);
  }

  function HidingStates(): seq<State> {
    [
      State([0], 0, [NOBODY], [Idle]), State([0], 0, [NOBODY], [AtSegment(0)]), State([0], 0, [0], [Locked(0)]),
      State([0], 0, [0], [FoundEmpty(0)]), State([0], 1, [0], [Taking(0)]), State([0], 1, [NOBODY], [AtSegment(1)]),
      State([0], 1, [NOBODY], [Idle]), State([0], 1, [NOBODY], [Releasing(0, 1)]),
      State([1], 1, [NOBODY], [Lowering(0)])
    ]
  }

  function HidingMoves(): seq<Move> {
    [
      Move(0, Reserve), Move(0, Go), Move(0, Go), Move(0, Go),
      Move(0, Take(0)), Move(0, Go), Move(0, Release(0, 1)), Move(0, Go)
    ]
  }

  /** Between the list update and the atomic minimum the hint may hide free pages: one release is enough. */
  lemma PendingReleaseHides()
    ensures IsRun(HidingStates(), HidingMoves())
    ensures |HidingStates()| == 9 && var last := HidingStates()[8]; last.hint == 1 && last.free == [1]
  {
    hide HidingStates, HidingMoves, Step;
    HidingShape();
    forall i | 0 <= i < 8
      ensures OneThread(HidingStates()[i]) && Step(HidingStates()[i], 0, HidingMoves()[i].choice, HidingStates()[i + 1])
    {
      HidingStep(i);
    }
  }

  ghost predicate OneThread(s: State) {
    |s.owner| == |s.free| == |s.pcs| == 1
  }

  lemma HidingShape()
    ensures |HidingStates()| == 9 && |HidingMoves()| == 8 && Init(HidingStates()[0])
    ensures HidingStates()[8] == State([1], 1, [NOBODY], [Lowering(0)])
    ensures forall i :: 0 <= i < 8 ==> HidingMoves()[i].thread == 0
  {
  }

  lemma HidingStep(i: nat)
    requires i < 8
    ensures |HidingStates()| == 9 && |HidingMoves()| == 8 && OneThread(HidingStates()[i])
    ensures Step(HidingStates()[i], 0, HidingMoves()[i].choice, HidingStates()[i + 1])
  {
    var s, t, c := HidingStates()[i], HidingStates()[i + 1], HidingMoves()[i].choice;
    assert s.owner[0 := 0] == [0] && s.owner[0 := NOBODY] == [NOBODY] && s.free[0 := 0] == [0] && s.free[0 := 1] == [1];
    assert s.pcs[0 := t.pcs[0]] == t.pcs;
    match i
    case 0 => assert s == State([0], 0, [NOBODY], [Idle]);
    case 1 => assert s == State([0], 0, [NOBODY], [AtSegment(0)]);
    case 2 => assert s == State([0], 0, [0], [Locked(0)]);
    case 3 => assert s == State([0], 0, [0], [FoundEmpty(0)]);
    case 4 => assert s == State([0], 1, [0], [Taking(0)]);
    case 5 => assert s == State([0], 1, [NOBODY], [AtSegment(1)]);
    case 6 => assert s == State([0], 1, [NOBODY], [Idle]);
    case _ => assert s == State([0], 1, [NOBODY], [Releasing(0, 1)]);
  }
}

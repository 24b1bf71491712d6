// The packed word at the front of every record: one flag byte, then the size less one in 24 bits.
// Masks of whole bytes and shifts by eight bits are written as remainder and division by 256.
module RecordHeader {
  import opened DeleteSlots
  import opened ExtentBody
  import opened DeleteLists
  import opened RecordSpace

  type Word = w: int | 0 <= w < 0x1_0000_0000

  const NORMAL: Byte := 0x00
  const DELETED: Byte := 0x04
  const SIZES := 0x100_0000

  function GetFlag(w: Word): Byte {
    w % 256
  }

  function GetState(w: Word): Byte {
    GetFlag(w) % 16
  }

  function GetSize(w: Word): int {
    w / 256 + 1
  }

  function SetFlag(w: Word, flag: Byte): Word {
    w - w % 256 + flag
  }

  /** Keeps the attribute bits of the flag. */
  function SetState(w: Word, state: Byte): Word
    requires state < 16
  {
    SetFlag(w, state + GetFlag(w) - GetState(w))
  }

  function ResetAttr(w: Word): Word {
    SetFlag(w, GetState(w))
  }

  /** The size less one, cut to 24 bits, moves above the flag. */
  function SetSize(w: Word, size: int): Word {
    GetFlag(w) + (size - 1) % SIZES * 256
  }

  /** A size survives packing beside any flag if and only if it is between 1 and 2^24; neither part disturbs the
      other. */
  lemma SizeAndFlagAreIndependent(w: Word, size: int, flag: Byte)
    ensures GetSize(SetSize(w, size)) == size <==> 1 <= size <= SIZES
    ensures GetFlag(SetSize(w, size)) == GetFlag(w)
    ensures GetSize(SetFlag(w, flag)) == GetSize(w) && GetFlag(SetFlag(w, flag)) == flag
  {
  }

  /** A size of 2^24 + 1 reads back as 1. */
  lemma OversizeWraps(w: Word)
    ensures GetSize(SetSize(w, SIZES + 1)) == 1
  {
  }

  /** The word says what the header says. */
  ghost predicate Represents(w: Word, h: Header) {
    GetSize(w) == h.size && GetFlag(w) == if h.Dead? then DELETED else NORMAL
  }

  /** Saving a deleted record over any old bytes leaves its header. */
  lemma DeletedWritten(old': Word, h: Header)
    requires h.Dead? && 1 <= h.size <= MAX_RECORD
    ensures Represents(SetSize(SetFlag(old', DELETED), h.size), h)
    ensures GetFlag(SetSize(SetFlag(old', DELETED), h.size)) == 4
  {
    hide GetFlag, GetSize, SetFlag, SetSize;
    SizeAndFlagAreIndependent(old', h.size, DELETED);
    SizeAndFlagAreIndependent(SetFlag(old', DELETED), h.size, DELETED);
  }

  /** Turning a deleted record normal keeps its size and clears the whole flag. */
  lemma Revives(w: Word, dead: Header, live: Header)
    requires Represents(w, dead) && dead.Dead? && live.Live? && live.size == dead.size
    ensures Represents(ResetAttr(SetState(w, NORMAL)), live) && GetFlag(ResetAttr(SetState(w, NORMAL))) == 0
  {
  }

  /** Cutting a live record to the size it needs keeps it live. */
  lemma Resizes(w: Word, live: Header, cut: Header)
    requires Represents(w, live) && live.Live? && cut.Live? && 1 <= cut.size <= MAX_RECORD
    ensures Represents(SetSize(w, cut.size), cut)
  {
    hide GetFlag, GetSize, SetFlag, SetSize;
    SizeAndFlagAreIndependent(w, cut.size, NORMAL);
  }

  /** Some word says what the header says if and only if its size is between 1 and 2^24. */
  lemma RepresentableExactly(h: Header)
    ensures (exists w: Word :: Represents(w, h)) <==> 1 <= h.size <= MAX_RECORD
  {
    if 1 <= h.size <= MAX_RECORD {
      var flag := if h.Dead? then DELETED else NORMAL;
      var w: Word := flag;
      assert Represents(SetSize(w, h.size), h);
    }
  }

  /** Every record of a consistent space fits its packed header. */
  lemma EveryHeaderFits(exts: Extents, heads: seq<Rid>, lists: seq<seq<Rid>>, g: Gap, r: Rid)
    requires Consistent(exts, heads, lists, g) && RecordAt(exts, g, r)
    ensures Look(exts, r).Head? && exists w: Word :: Represents(w, Look(exts, r).h)
  {
    hide Represents, Tiled, Reaches;
    RecordIsTile(exts, g, r);
    RepresentableExactly(Look(exts, r).h);
  }
}

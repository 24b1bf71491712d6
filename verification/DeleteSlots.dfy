// The power-of-two slots of the delete lists, and how an extent's free space is carved into deleted records.
module DeleteSlots {

  const SLOTS: nat := 20
  const RECORD_HEADER: nat := 16
  const EXTENT_HEADER: nat := 36
  const MIN_RECORD: nat := 36
  const MIN_DATA: nat := 5
  const MAX_RECORD: nat := 0x100_0000
  const PAGE_4K: nat := 4096

  function Pow2(k: nat): nat {
    if k == 0 then 1 else 2 * Pow2(k - 1)
  }

  /** How many bits x needs. */
  function Bits(x: nat): nat {
    if x == 0 then 0 else 1 + Bits(x / 2)
  }

  /** Slot k takes the sizes above 32 * 2^(k-1), up to 32 * 2^k; slot 0 takes everything up to 32. */
  function Slot(size: nat): nat
    requires size >= 1
  {
    Bits((size - 1) / 32)
  }

  lemma {:induction false} BitsBound(x: nat)
    ensures x < Pow2(Bits(x)) && (x > 0 ==> Bits(x) >= 1 && Pow2(Bits(x) - 1) <= x)
  {
    if x > 0 {
      BitsBound(x / 2);
    }
  }

  lemma SlotBound(size: nat)
    requires size >= 1
    ensures size <= 32 * Pow2(Slot(size)) && (Slot(size) > 0 ==> 32 * Pow2(Slot(size) - 1) < size)
  {
    BitsBound((size - 1) / 32);
  }

  lemma {:induction false} BitsMonotone(x: nat, y: nat)
    requires x <= y
    ensures Bits(x) <= Bits(y)
  {
    if x > 0 {
      BitsMonotone(x / 2, y / 2);
    }
  }

  /** Whatever sits on a higher slot than the request's is large enough. */
  lemma HigherSlotFits(size: nat, request: nat)
    requires size >= 1 && request >= 1
    ensures Slot(size) > Slot(request) ==> size > request
    ensures size >= request ==> Slot(size) >= Slot(request)
  {
    if size <= request {
      BitsMonotone((size - 1) / 32, (request - 1) / 32);
    } else {
      BitsMonotone((request - 1) / 32, (size - 1) / 32);
    }
  }

  lemma {:induction false} Pow2Monotone(j: nat, k: nat)
    requires j <= k
    ensures Pow2(j) <= Pow2(k)
    decreases k - j
  {
    if j < k {
      Pow2Monotone(j, k - 1);
    }
  }

  lemma LastPowers()
    ensures Pow2(18) == 0x4_0000 && Pow2(19) == 0x8_0000
  {
    assert Pow2(4) == 16;
    assert Pow2(8) == 16 * Pow2(4);
    assert Pow2(12) == 16 * Pow2(8);
    assert Pow2(16) == 16 * Pow2(12);
  }

  /** The twenty slots serve exactly the sizes up to 16 MB. */
  lemma SlotsSuffice(size: nat)
    requires size >= 1
    ensures Slot(size) < SLOTS <==> size <= MAX_RECORD
  {
    hide Slot, Pow2;
    LastPowers();
    SlotBound(size);
    if Slot(size) < SLOTS {
      Pow2Monotone(Slot(size), 19);
    } else {
      Pow2Monotone(19, Slot(size) - 1);
    }
  }

  /** The largest size goes to the last slot, a 4 KB page to an earlier one. */
  lemma SlotValues()
    ensures Slot(MAX_RECORD) == SLOTS - 1 && Slot(PAGE_4K) < SLOTS - 1
  {
    hide Slot, Pow2;
    LastPowers();
    SlotsSuffice(MAX_RECORD);
    SlotBound(MAX_RECORD);
    SlotBound(PAGE_4K);
    if Slot(MAX_RECORD) < 19 {
      Pow2Monotone(Slot(MAX_RECORD), 18);
    }
    if Slot(PAGE_4K) >= 19 {
      Pow2Monotone(18, Slot(PAGE_4K) - 1);
    }
  }

  /** Counts the halvings, as the allocator does. */
  method SlotOf(size: nat) returns (slot: nat)
    requires size >= 1
    ensures slot == Slot(size)
  {
    var rest: nat := (size - 1) / 32;
    slot := 0;
    while rest != 0
      invariant slot + Bits(rest) == Slot(size)
    {
      slot := slot + 1;
      rest := rest / 2;
    }
  }
}

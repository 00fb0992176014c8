/** The sequential typed bump allocator of the first generation: one
    anonymous mapping of a fixed length, handed out in `size_of::<T>()`-byte
    slots from an offset that only grows. A slot is named by its byte offset
    in the mapping. */
module BumpArena {
  import opened Base

  /** The "OOM" panic of `alloc`, surfaced as an error value. */
  datatype ArenaError = OutOfMemory

  /** The byte range [start, start + size) of slot `i` when every slot is
      `size` bytes long and the first one sits at offset 0. */
  function SlotStart(size: nat, i: nat): (r: nat)
    ensures r + size == (i + 1) * size
  {
    i * size
  }

  /** Slots handed out in order never overlap: slot i ends no later than
      slot j begins whenever i < j. */
  lemma {:induction false} SlotsDisjoint(size: nat, i: nat, j: nat)
    requires i < j
    ensures SlotStart(size, i) + size <= SlotStart(size, j)
    decreases j - i
  {
    assert j * size == (j - 1) * size + size;
    if i < j - 1 {
      SlotsDisjoint(size, i, j - 1);
    }
  }

  class Arena {
    /** Length of the mapping, fixed at construction. */
    const mappedLen: nat
    /** `size_of::<T>()`: the size of every slot. */
    const tSize: nat
    /** Offset of the next slot. */
    var offset: nat
    /** Offsets of the slots handed out so far, oldest first. */
    ghost var slots: seq<nat>

    ghost predicate Valid()
      reads this
    {
      && offset == |slots| * tSize
      && (forall i | 0 <= i < |slots| :: slots[i] == SlotStart(tSize, i))
      && (slots != [] ==> offset < mappedLen)
    }

    /** `Arena::new`: a fresh mapping of `size` bytes with the offset at 0. */
    constructor (size: nat, tSize: nat)
      ensures Valid()
      ensures mappedLen == size && this.tSize == tSize
      ensures offset == 0 && slots == []
    {
      mappedLen := size;
      this.tSize := tSize;
      offset := 0;
      slots := [];
    }

    /** `alloc`: refuses (the source panics) exactly when the slot would reach
        the end of the mapping, leaving the offset where it was; otherwise
        hands out the slot at the current offset and moves past it. */
    method Alloc() returns (r: Result<nat, ArenaError>)
      requires Valid()
      modifies this
      ensures Valid()
      ensures r.Ok? <==> old(offset) + tSize < mappedLen
      ensures r.Ok? ==> r.value == old(offset) && r.value == SlotStart(tSize, |old(slots)|)
      ensures r.Ok? ==> offset == old(offset) + tSize && slots == old(slots) + [r.value]
      ensures r.Err? ==> offset == old(offset) && slots == old(slots)
    {
      if offset + tSize >= mappedLen {
        return Err(OutOfMemory);
      }
      r := Ok(offset);
      assert (|slots| + 1) * tSize == |slots| * tSize + tSize;
      offset := offset + tSize;
      slots := slots + [r.value];
    }
  }

  /** Every pair of slots an arena has handed out is disjoint, and each lies
      below the current offset. */
  lemma HandedOutDisjoint(a: Arena, i: nat, j: nat)
    requires a.Valid()
    requires i < j < |a.slots|
    ensures a.slots[i] + a.tSize <= a.slots[j]
    ensures a.slots[j] + a.tSize <= a.offset
  {
    SlotsDisjoint(a.tSize, i, j);
    SlotsDisjoint(a.tSize, j, |a.slots|);
  }
}

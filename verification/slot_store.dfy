/** The fixed slot store of the first generation: an anonymous mapping of
    `len * size_of::<T>()` bytes in which slot `i` occupies the `size_of`
    bytes starting at offset `i * size_of`. A slot's value is modelled as its
    bytes. */
module SlotStore {
  import opened Base

  /** `offset(index)`: where slot `index` starts. */
  function Offset(sizeOf: nat, index: nat): (r: nat)
    ensures sizeOf > 0 ==> r % sizeOf == 0 && r / sizeOf == index
  {
    if sizeOf > 0 then MulDivExact(index, sizeOf); index * sizeOf
    else index * sizeOf
  }

  /** A multiple of `b` divides back exactly. */
  lemma {:induction false} MulDivExact(q: nat, b: nat)
    requires b > 0
    ensures (q * b) % b == 0 && (q * b) / b == q
  {
    var x := q * b;
    var d := x / b - q;
    assert b * d == -(x % b) by {
      assert x == b * (x / b) + x % b;
      assert b * (x / b) == b * d + b * q;
    }
    if d >= 1 {
      MulAtLeast(b, d);
    } else if d <= -1 {
      MulAtLeast(b, -d);
    }
  }

  lemma {:induction false} MulAtLeast(b: nat, k: int)
    requires k >= 1
    ensures b * k >= b
  {
    if k > 1 {
      MulAtLeast(b, k - 1);
      assert b * k == b * (k - 1) + b;
    }
  }

  lemma {:induction false} MulMonotonic(a: nat, b: nat, c: nat)
    requires a <= b
    ensures a * c <= b * c
    decreases b - a
  {
    if a < b {
      MulMonotonic(a, b - 1, c);
      assert b * c == (b - 1) * c + c;
    }
  }

  /** Every slot below `len` lies inside the `len * size_of`-byte mapping. */
  lemma SlotInBounds(sizeOf: nat, len: nat, index: nat)
    requires index < len
    ensures Offset(sizeOf, index) + sizeOf <= len * sizeOf
  {
    MulMonotonic(index + 1, len, sizeOf);
    assert (index + 1) * sizeOf == index * sizeOf + sizeOf;
  }

  /** Distinct slots occupy disjoint byte ranges. */
  lemma SlotsDisjoint(sizeOf: nat, i: nat, j: nat)
    requires i < j
    ensures Offset(sizeOf, i) + sizeOf <= Offset(sizeOf, j)
  {
    MulMonotonic(i + 1, j, sizeOf);
    assert (i + 1) * sizeOf == i * sizeOf + sizeOf;
  }

  /** The bytes of slot `index` in a `len`-slot mapping whose contents are
      `region`. */
  function ChunkAt(region: seq<Byte>, sizeOf: nat, len: nat, index: nat): (r: seq<Byte>)
    requires |region| == len * sizeOf && index < len
    ensures |r| == sizeOf
  {
    SlotInBounds(sizeOf, len, index);
    region[Offset(sizeOf, index)..Offset(sizeOf, index) + sizeOf]
  }

  /** The contents of the mapping after `value` is written through
      `chunk_mut(index)`. */
  function WriteAt(region: seq<Byte>, sizeOf: nat, len: nat, index: nat, value: seq<Byte>): (r: seq<Byte>)
    requires |region| == len * sizeOf && index < len && |value| == sizeOf
    ensures |r| == |region|
  {
    SlotInBounds(sizeOf, len, index);
    Splice(region, Offset(sizeOf, index), value)
  }

  /** Reading slot `i` after writing `value` through it gives back `value`,
      and every other slot reads as before. */
  lemma WriteThenRead(region: seq<Byte>, sizeOf: nat, len: nat, i: nat, j: nat, value: seq<Byte>)
    requires |region| == len * sizeOf && i < len && j < len && |value| == sizeOf
    ensures ChunkAt(WriteAt(region, sizeOf, len, i, value), sizeOf, len, i) == value
    ensures i != j ==> ChunkAt(WriteAt(region, sizeOf, len, i, value), sizeOf, len, j) == ChunkAt(region, sizeOf, len, j)
  {
    SlotInBounds(sizeOf, len, i);
    SlotInBounds(sizeOf, len, j);
    if i < j {
      SlotsDisjoint(sizeOf, i, j);
    } else if j < i {
      SlotsDisjoint(sizeOf, j, i);
    }
    var after := WriteAt(region, sizeOf, len, i, value);
    if i != j {
      var start := Offset(sizeOf, j);
      assert forall k | start <= k < start + sizeOf :: after[k] == region[k];
    }
  }

  class Store {
    /** `size_of::<T>()`. */
    const sizeOf: nat
    /** Number of slots the mapping was sized for (the source keeps only the
        mapping, whose length is `len * size_of`). */
    const len: nat
    const mmap: array<Byte>

    ghost predicate Valid()
      reads this
    {
      mmap.Length == len * sizeOf
    }

    /** `Store::new(len)`: a zero-filled mapping of `len * size_of` bytes. */
    constructor (len: nat, sizeOf: nat)
      ensures Valid() && fresh(mmap)
      ensures this.len == len && this.sizeOf == sizeOf
      ensures forall i | 0 <= i < mmap.Length :: mmap[i] == 0
    {
      this.sizeOf := sizeOf;
      this.len := len;
      mmap := new Byte[len * sizeOf](_ => 0);
    }

    /** `chunk(index)`: the bytes of slot `index`. The source performs no
        bounds check, so an index below `len` is the caller's duty. */
    function Chunk(index: nat): (r: seq<Byte>)
      reads this, mmap
      requires Valid() && index < len
      ensures |r| == sizeOf
    {
      ChunkAt(mmap[..], sizeOf, len, index)
    }

    /** A write of `value` through `chunk_mut(index)`: the slot's bytes are
        overwritten in place and the rest of the mapping is untouched. */
    method WriteChunk(index: nat, value: seq<Byte>)
      requires Valid() && index < len && |value| == sizeOf
      modifies mmap
      ensures Valid()
      ensures mmap[..] == WriteAt(old(mmap[..]), sizeOf, len, index, value)
      ensures Chunk(index) == value
      ensures forall j | 0 <= j < len && j != index :: Chunk(j) == old(Chunk(j))
    {
      SlotInBounds(sizeOf, len, index);
      var start := Offset(sizeOf, index);
      forall k | 0 <= k < sizeOf {
        mmap[start + k] := value[k];
      }
      assert mmap[..] == WriteAt(old(mmap[..]), sizeOf, len, index, value);
      forall j | 0 <= j < len
        ensures j != index ==> Chunk(j) == old(Chunk(j))
        ensures j == index ==> Chunk(j) == value
      {
        WriteThenRead(old(mmap[..]), sizeOf, len, index, j, value);
      }
    }
  }
}

/** The byte arena of the second generation: one anonymous mapping of a fixed
    length and a cursor that every request moves forward by its size, whether
    or not the request is granted (the cursor is advanced with a fetch-and-add
    before the bounds check). A grant is named by its byte offset in the
    mapping. The atomic cursor is modelled sequentially. */
module AtomicArena {
  import opened Base

  /** `ArenaError("Out of memory")`. */
  datatype ArenaError = OutOfMemory

  /** The outcome of one `advance_offset`: the grant (the previous cursor, or
      out of memory) and the cursor afterwards. */
  datatype Advance = Advance(grant: Result<nat, ArenaError>, cursor: nat)

  /** `advance_offset(step)` against `cursor` in a mapping of `len` bytes:
      the request is granted iff it ends strictly before the end of the
      mapping, and the cursor moves by `step` either way. */
  function Step(cursor: nat, step: nat, len: nat): (a: Advance)
    ensures a.cursor == cursor + step
    ensures a.grant.Ok? <==> cursor + step < len
    ensures a.grant.Ok? ==> a.grant.value == cursor
  {
    Advance(if cursor + step >= len then Err(OutOfMemory) else Ok(cursor), cursor + step)
  }

  /** The grants of a sequence of requests issued one after the other. */
  function Run(cursor: nat, steps: seq<nat>, len: nat): (r: seq<Result<nat, ArenaError>>)
    ensures |r| == |steps|
    decreases |steps|
  {
    if steps == [] then []
    else
      var a := Step(cursor, steps[0], len);
      [a.grant] + Run(a.cursor, steps[1..], len)
  }

  /** Total size of a sequence of requests. */
  function Sum(steps: seq<nat>): nat
  {
    if steps == [] then 0 else Sum(steps[..|steps| - 1]) + steps[|steps| - 1]
  }

  lemma {:induction false} SumCons(x: nat, steps: seq<nat>)
    ensures Sum([x] + steps) == x + Sum(steps)
  {
    if steps != [] {
      var last := |steps| - 1;
      assert ([x] + steps)[..|steps|] == [x] + steps[..last];
      SumCons(x, steps[..last]);
    }
  }

  lemma {:induction false} SumMonotonic(steps: seq<nat>, i: nat, j: nat)
    requires i <= j <= |steps|
    ensures Sum(steps[..i]) <= Sum(steps[..j])
    decreases j - i
  {
    if i < j {
      assert steps[..j][..j - 1] == steps[..j - 1];
      SumMonotonic(steps, i, j - 1);
    }
  }

  /** The exact outcome of request `i` of a run: it is granted iff the
      requests up to and including it end strictly before the end of the
      mapping, and its grant is the starting cursor plus the sizes of all the
      requests before it (failed ones included). */
  lemma {:induction false} RunGrants(cursor: nat, steps: seq<nat>, len: nat, i: nat)
    requires i < |steps|
    ensures Run(cursor, steps, len)[i].Ok? <==> cursor + Sum(steps[..i + 1]) < len
    ensures Run(cursor, steps, len)[i].Ok? ==> Run(cursor, steps, len)[i].value == cursor + Sum(steps[..i])
    decreases i
  {
    assert steps[..1] == [steps[0]] + [];
    if i == 0 {
      SumCons(steps[0], []);
    } else {
      var a := Step(cursor, steps[0], len);
      RunGrants(a.cursor, steps[1..], len, i - 1);
      assert steps[..i + 1] == [steps[0]] + steps[1..][..i];
      assert steps[..i] == [steps[0]] + steps[1..][..i - 1];
      SumCons(steps[0], steps[1..][..i]);
      SumCons(steps[0], steps[1..][..i - 1]);
    }
  }

  /** Once a request is refused, every later request is refused too: the
      refused request has already pushed the cursor past the mapping. */
  lemma FailureIsSticky(cursor: nat, steps: seq<nat>, len: nat, i: nat, j: nat)
    requires i < j < |steps|
    requires Run(cursor, steps, len)[i].Err?
    ensures Run(cursor, steps, len)[j].Err?
  {
    RunGrants(cursor, steps, len, i);
    RunGrants(cursor, steps, len, j);
    SumMonotonic(steps, i + 1, j + 1);
  }

  /** Grants never overlap and come in increasing order: the range granted to
      an earlier request ends no later than the start of any later grant, and
      every granted range lies inside the mapping. */
  lemma GrantsDisjoint(cursor: nat, steps: seq<nat>, len: nat, i: nat, j: nat)
    requires i < j < |steps|
    requires Run(cursor, steps, len)[i].Ok? && Run(cursor, steps, len)[j].Ok?
    ensures Run(cursor, steps, len)[i].value + steps[i] <= Run(cursor, steps, len)[j].value
    ensures Run(cursor, steps, len)[j].value + steps[j] < len
  {
    RunGrants(cursor, steps, len, i);
    RunGrants(cursor, steps, len, j);
    assert steps[..i + 1][..i] == steps[..i];
    assert steps[..j + 1][..j] == steps[..j];
    SumMonotonic(steps, i + 1, j);
  }

  lemma {:induction false} SumRepeat(t: nat, n: nat)
    ensures Sum(seq(n, _ => t)) == n * t
  {
    if n > 0 {
      assert seq(n, _ => t)[..n - 1] == seq(n - 1, _ => t);
      SumRepeat(t, n - 1);
    }
  }

  /** A typed arena that only ever requests `t`-byte slots from a fresh
      cursor: request i is granted iff (i + 1) * t < len, at offset i * t. */
  lemma TypedLayout(t: nat, n: nat, len: nat, i: nat)
    requires i < n
    ensures Run(0, seq(n, _ => t), len)[i].Ok? <==> (i + 1) * t < len
    ensures Run(0, seq(n, _ => t), len)[i].Ok? ==> Run(0, seq(n, _ => t), len)[i].value == i * t
  {
    var steps := seq(n, _ => t);
    RunGrants(0, steps, len, i);
    assert steps[..i + 1] == seq(i + 1, _ => t);
    assert steps[..i] == seq(i, _ => t);
    SumRepeat(t, i + 1);
    SumRepeat(t, i);
  }

  class Arena {
    /** The mapping, fixed in length at construction. */
    const mmap: array<Byte>
    /** The cursor: the sum of the sizes of every request so far. */
    var offset: nat

    /** `Arena::new(size)`: a zero-filled mapping of `size` bytes with the
        cursor at 0 (no sentinel allocation: the first grant is offset 0). */
    constructor (size: nat)
      ensures fresh(mmap) && mmap.Length == size
      ensures forall i | 0 <= i < size :: mmap[i] == 0
      ensures offset == 0
    {
      mmap := new Byte[size](_ => 0);
      offset := 0;
    }

    /** `advance_offset(step)`: one step of `Step`. */
    method AdvanceOffset(step: nat) returns (r: Result<nat, ArenaError>)
      modifies this
      ensures Advance(r, offset) == Step(old(offset), step, mmap.Length)
    {
      var previous := offset;
      offset := offset + step;
      if previous + step >= mmap.Length {
        return Err(OutOfMemory);
      }
      return Ok(previous);
    }

    /** `alloc(size)`: the offset of a fresh `size`-byte range. */
    method Alloc(size: nat) returns (r: Result<nat, ArenaError>)
      modifies this
      ensures Advance(r, offset) == Step(old(offset), size, mmap.Length)
      ensures r.Ok? ==> r.value + size < mmap.Length
    {
      r := AdvanceOffset(size);
    }

    /** `store(bytes)`: copies `bytes` into a fresh range and returns its
        bounds; no byte outside the range changes, and a refused request
        changes no byte at all (only the cursor). */
    method Store(bytes: seq<Byte>) returns (r: Result<(nat, nat), ArenaError>)
      modifies this, mmap
      ensures offset == old(offset) + |bytes|
      ensures r.Ok? <==> old(offset) + |bytes| < mmap.Length
      ensures r.Ok? ==> r.value == (old(offset), old(offset) + |bytes|)
      ensures r.Ok? ==> mmap[..] == Splice(old(mmap[..]), old(offset), bytes)
      ensures r.Ok? ==> mmap[r.value.0..r.value.1] == bytes
      ensures r.Err? ==> mmap[..] == old(mmap[..])
    {
      var len := |bytes|;
      var advanced := AdvanceOffset(len);
      if advanced.Err? {
        return Err(advanced.error);
      }
      var start := advanced.value;
      forall i | 0 <= i < len {
        mmap[start + i] := bytes[i];
      }
      assert mmap[..] == Splice(old(mmap[..]), start, bytes);
      return Ok((start, start + len));
    }
  }

  class TypedArena {
    const arena: Arena
    /** `size_of::<T>()`. */
    const tSize: nat
    /** Number of `alloc` calls so far, granted or not. */
    ghost var count: nat

    ghost predicate Valid()
      reads this, arena
    {
      arena.offset == count * tSize
    }

    /** `TypedArena::new(size)`. */
    constructor (size: nat, tSize: nat)
      ensures Valid() && fresh(arena)
      ensures arena.mmap.Length == size && this.tSize == tSize && count == 0
    {
      arena := new Arena(size);
      this.tSize := tSize;
      count := 0;
    }

    /** `alloc`: the k-th call (from 0) is granted iff (k + 1) * t_size is
        below the mapping's length, and then sits at offset k * t_size. */
    method Alloc() returns (r: Result<nat, ArenaError>)
      requires Valid()
      modifies this, arena
      ensures Valid() && count == old(count) + 1
      ensures r.Ok? <==> (old(count) + 1) * tSize < arena.mmap.Length
      ensures r.Ok? ==> r.value == old(count) * tSize
    {
      r := arena.Alloc(tSize);
      count := count + 1;
      assert (old(count) + 1) * tSize == old(count) * tSize + tSize;
    }
  }
}

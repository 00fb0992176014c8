/** Small value types shared by every module of the model. */
module Base {

  /** A nullable value: the model's stand-in for a null handle or pointer. */
  datatype Option<+T> = None | Some(value: T)

  /** The outcome of an operation that can fail. */
  datatype Result<+T, +E> = Ok(value: T) | Err(error: E)

  /** An attribute value of a record: only strings are indexed. */
  datatype Value = Str(s: string) | Other

  /** A record as the indexes see it: its id and its attribute values (the
      JSON document it is parsed from is not modelled). */
  datatype Record = Record(id: nat, values: seq<Value>)

  /** One byte of a memory-mapped region or of a token. */
  type Byte = b: int | 0 <= b < 256

  /** `buf` with `bytes` copied over the range [off, off + |bytes|): what
      `copy_from_slice` into a mapped region, or a write through a mutable
      reference into one, does to the region's bytes. */
  function Splice(buf: seq<Byte>, off: nat, bytes: seq<Byte>): (r: seq<Byte>)
    requires off + |bytes| <= |buf|
    ensures |r| == |buf|
    ensures r[off..off + |bytes|] == bytes
    ensures forall i | 0 <= i < |buf| && !(off <= i < off + |bytes|) :: r[i] == buf[i]
  {
    buf[..off] + bytes + buf[off + |bytes|..]
  }

  // Facts about sequences that the solver is slow to find on its own when
  // the operands are large terms.

  lemma AppendAssoc<T>(a: seq<T>, b: seq<T>, c: seq<T>)
    ensures a + (b + c) == (a + b) + c
  {
  }

  lemma InLeft<T>(a: seq<T>, b: seq<T>)
    ensures forall x | x in a :: x in a + b
  {
  }

  lemma InRight<T>(a: seq<T>, b: seq<T>)
    ensures forall x | x in b :: x in a + b
  {
  }
}

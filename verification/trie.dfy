/** The pure side of the second-generation index: a byte-keyed 256-ary trie
    whose nodes live in an arena and name each other by key. A node holds 256
    child keys, one per byte value, and a bucket of 256 stored-record keys.
    Key 0 is the null key. A node table `nodes` maps each key to the node
    stored under it; `stored` holds the records whose bytes were copied into
    the arena, record key k naming `stored[k - 1]`. */
module Trie {
  import opened Base

  /** An arena key: a node's key in the node table, or a stored record's
      key; `NULL` means absent. */
  type Key = nat

  const NULL: Key := 0
  /** Child slots per node: one per byte value. */
  const FANOUT: nat := 256
  /** Record slots per node. */
  const BUCKET: nat := 256

  datatype Node = Node(children: seq<Key>, records: seq<Key>)

  /** A freshly allocated, zero-filled node: no children, empty bucket. */
  const EMPTY_NODE: Node := Node(seq(FANOUT, _ => NULL), seq(BUCKET, _ => NULL))

  /** Every node has its 256 child slots and 256 record slots, and every
      non-null child key names a node allocated after its parent, so the
      child links form no cycle. */
  ghost predicate Linked(nodes: seq<Node>)
  {
    forall k | 0 <= k < |nodes| ::
      && |nodes[k].children| == FANOUT
      && |nodes[k].records| == BUCKET
      && forall b | 0 <= b < FANOUT :: nodes[k].children[b] == NULL || k < nodes[k].children[b] < |nodes|
  }

  /** The populated part of a bucket is a prefix: no gaps. */
  ghost predicate GapFree(bucket: seq<Key>)
  {
    forall i, j | 0 <= i < j < |bucket| && bucket[i] == NULL :: bucket[j] == NULL
  }

  /** No record key occurs twice in a bucket. */
  ghost predicate Distinct(bucket: seq<Key>)
  {
    forall i, j | 0 <= i < j < |bucket| && bucket[j] != NULL :: bucket[i] != bucket[j]
  }

  /** The well-formed node and record tables. */
  ghost predicate Valid(nodes: seq<Node>, stored: seq<Record>)
  {
    && Linked(nodes)
    && (forall k | 0 <= k < |nodes| :: GapFree(nodes[k].records) && Distinct(nodes[k].records))
    && (forall k, i | 0 <= k < |nodes| && 0 <= i < BUCKET :: nodes[k].records[i] <= |stored|)
  }

  // ---------------------------------------------------------------------
  // Children

  /** `child(key)`: the child under byte `b`, absent when the slot is null. */
  function Child(nodes: seq<Node>, n: Key, b: Byte): (r: Option<Key>)
    requires Linked(nodes) && n < |nodes|
    ensures r.Some? <==> nodes[n].children[b] != NULL
    ensures r.Some? ==> r.value == nodes[n].children[b] && n < r.value < |nodes|
  {
    var c := nodes[n].children[b];
    if c == NULL then None else Some(c)
  }

  /** `child_deep(keys)`: follows `path` one byte at a time from node `n`
      and is absent as soon as one byte has no child. */
  function ChildDeep(nodes: seq<Node>, n: Key, path: seq<Byte>): (r: Option<Key>)
    requires Linked(nodes) && n < |nodes|
    ensures r.Some? ==> n <= r.value < |nodes|
    ensures r.Some? && path != [] ==> n < r.value
    decreases |path|
  {
    if path == [] then Some(n)
    else
      match Child(nodes, n, path[0])
      case None => None
      case Some(c) => ChildDeep(nodes, c, path[1..])
  }

  /** Walking `a + b` is walking `a`, then walking `b` from where `a` ends. */
  lemma {:induction false} ChildDeepAppend(nodes: seq<Node>, n: Key, a: seq<Byte>, b: seq<Byte>)
    requires Linked(nodes) && n < |nodes|
    ensures ChildDeep(nodes, n, a + b) ==
      match ChildDeep(nodes, n, a)
      case None => None
      case Some(m) => ChildDeep(nodes, m, b)
    decreases |a|
  {
    if a == [] {
      assert a + b == b;
    } else {
      assert (a + b)[0] == a[0];
      assert (a + b)[1..] == a[1..] + b;
      match Child(nodes, n, a[0])
      case None =>
      case Some(c) => ChildDeepAppend(nodes, c, a[1..], b);
    }
  }

  /** The walk fails as soon as one byte of the path has no child, whatever
      follows it. */
  lemma ChildDeepStopsAtMissing(nodes: seq<Node>, n: Key, path: seq<Byte>, i: nat, m: Key)
    requires Linked(nodes) && n < |nodes| && i < |path|
    requires ChildDeep(nodes, n, path[..i]) == Some(m)
    requires Child(nodes, m, path[i]) == None
    ensures ChildDeep(nodes, n, path) == None
  {
    assert path == path[..i] + path[i..];
    ChildDeepAppend(nodes, n, path[..i], path[i..]);
  }

  /** The children of node `n` under the slots from `i` on, in ascending
      byte order. */
  function ChildrenFrom(nodes: seq<Node>, n: Key, i: nat): (r: seq<(Byte, Key)>)
    requires Linked(nodes) && n < |nodes| && i <= FANOUT
    ensures forall e | e in r :: i <= e.0 && nodes[n].children[e.0] == e.1 != NULL && n < e.1 < |nodes|
    ensures forall b: Byte | i <= b && nodes[n].children[b] != NULL :: (b, nodes[n].children[b]) in r
    ensures forall p, q | 0 <= p < q < |r| :: r[p].0 < r[q].0
    decreases FANOUT - i
  {
    if i == FANOUT then []
    else
      var rest := ChildrenFrom(nodes, n, i + 1);
      match Child(nodes, n, i)
      case None => rest
      case Some(c) => [(i as Byte, c)] + rest
  }

  /** `children()`: exactly the non-null child slots of `n`, each once, in
      ascending byte order. */
  function Children(nodes: seq<Node>, n: Key): (r: seq<(Byte, Key)>)
    requires Linked(nodes) && n < |nodes|
    ensures forall e | e in r :: nodes[n].children[e.0] == e.1 != NULL && n < e.1 < |nodes|
    ensures forall b: Byte | nodes[n].children[b] != NULL :: (b, nodes[n].children[b]) in r
    ensures forall p, q | 0 <= p < q < |r| :: r[p].0 < r[q].0
  {
    ChildrenFrom(nodes, n, 0)
  }

  /** `children_deep()`: every descendant of `n` with the byte of its last
      edge, in pre-order (each child, then that child's descendants). */
  function ChildrenDeep(nodes: seq<Node>, n: Key): (r: seq<(Byte, Key)>)
    requires Linked(nodes) && n < |nodes|
    ensures forall e | e in r :: n < e.1 < |nodes|
    decreases |nodes| - n, 1
  {
    DeepOf(nodes, n, Children(nodes, n))
  }

  /** The entries of `cs` (children of `n`), each followed by its own
      descendants. */
  function DeepOf(nodes: seq<Node>, n: Key, cs: seq<(Byte, Key)>): (r: seq<(Byte, Key)>)
    requires Linked(nodes) && n < |nodes|
    requires forall e | e in cs :: n < e.1 < |nodes|
    ensures forall e | e in r :: n < e.1 < |nodes|
    decreases |nodes| - n, 0, |cs|
  {
    if cs == [] then []
    else [cs[0]] + ChildrenDeep(nodes, cs[0].1) + DeepOf(nodes, n, cs[1..])
  }

  lemma {:induction false} DeepOfContains(nodes: seq<Node>, n: Key, cs: seq<(Byte, Key)>, i: nat)
    requires Linked(nodes) && n < |nodes|
    requires forall e | e in cs :: n < e.1 < |nodes|
    requires i < |cs|
    ensures cs[i] in DeepOf(nodes, n, cs)
    ensures forall x | x in ChildrenDeep(nodes, cs[i].1) :: x in DeepOf(nodes, n, cs)
    decreases i
  {
    var head := [cs[0]] + ChildrenDeep(nodes, cs[0].1);
    assert forall e | e in cs[1..] :: e in cs;
    var rest := DeepOf(nodes, n, cs[1..]);
    assert DeepOf(nodes, n, cs) == head + rest;
    if i > 0 {
      DeepOfContains(nodes, n, cs[1..], i - 1);
      assert cs[1..][i - 1] == cs[i];
      InRight(head, rest);
    } else {
      InLeft(head, rest);
    }
  }

  /** Every node reached by a non-empty path from `n` is among `n`'s
      descendants, with the path's last byte. */
  lemma {:induction false} ReachableIsDescendant(nodes: seq<Node>, n: Key, path: seq<Byte>)
    requires Linked(nodes) && n < |nodes|
    requires path != [] && ChildDeep(nodes, n, path).Some?
    ensures (path[|path| - 1], ChildDeep(nodes, n, path).value) in ChildrenDeep(nodes, n)
    decreases |path|
  {
    var b, rest := path[0], path[1..];
    var c := Child(nodes, n, b).value;
    assert ChildDeep(nodes, n, path) == ChildDeep(nodes, c, rest);
    var cs := Children(nodes, n);
    assert (b, c) in cs;
    var i :| 0 <= i < |cs| && cs[i] == (b, c);
    DeepOfContains(nodes, n, cs, i);
    if rest == [] {
      assert ChildDeep(nodes, c, rest) == Some(c);
    } else {
      ReachableIsDescendant(nodes, c, rest);
      assert rest[|rest| - 1] == path[|path| - 1];
    }
  }

  /** Every descendant of `n` is reached from `n` by some non-empty path
      ending in the descendant's byte. */
  lemma {:induction false} DescendantIsReachable(nodes: seq<Node>, n: Key, e: (Byte, Key))
    requires Linked(nodes) && n < |nodes|
    requires e in ChildrenDeep(nodes, n)
    ensures exists p: seq<Byte> :: p != [] && ChildDeep(nodes, n, p) == Some(e.1) && p[|p| - 1] == e.0
    decreases |nodes| - n, 1
  {
    DeepOfReachable(nodes, n, Children(nodes, n), e);
  }

  lemma {:induction false} DeepOfReachable(nodes: seq<Node>, n: Key, cs: seq<(Byte, Key)>, e: (Byte, Key))
    requires Linked(nodes) && n < |nodes|
    requires forall x | x in cs :: nodes[n].children[x.0] == x.1 != NULL
    requires e in DeepOf(nodes, n, cs)
    ensures exists p: seq<Byte> :: p != [] && ChildDeep(nodes, n, p) == Some(e.1) && p[|p| - 1] == e.0
    decreases |nodes| - n, 0, |cs|
  {
    var head, tail := cs[0], cs[1..];
    assert head in cs;
    assert DeepOf(nodes, n, cs) == [head] + ChildrenDeep(nodes, head.1) + DeepOf(nodes, n, tail);
    if e == head {
      StepDown(nodes, n, head.0, []);
      assert [head.0] + [] == [head.0];
      Witness(nodes, n, [head.0], e);
    } else if e in ChildrenDeep(nodes, head.1) {
      BelowChildReachable(nodes, n, head, e);
    } else {
      assert forall x | x in tail :: x in cs;
      DeepOfReachable(nodes, n, tail, e);
    }
  }

  /** A descendant of child `c` of `n` is reached from `n` through `c`. */
  lemma {:induction false} BelowChildReachable(nodes: seq<Node>, n: Key, c: (Byte, Key), e: (Byte, Key))
    requires Linked(nodes) && n < |nodes|
    requires nodes[n].children[c.0] == c.1 != NULL
    requires e in ChildrenDeep(nodes, c.1)
    ensures exists p: seq<Byte> :: p != [] && ChildDeep(nodes, n, p) == Some(e.1) && p[|p| - 1] == e.0
    decreases |nodes| - n, 0, 0
  {
    DescendantIsReachable(nodes, c.1, e);
    var p :| p != [] && ChildDeep(nodes, c.1, p) == Some(e.1) && p[|p| - 1] == e.0;
    StepDown(nodes, n, c.0, p);
    Witness(nodes, n, [c.0] + p, e);
  }

  lemma Witness(nodes: seq<Node>, n: Key, q: seq<Byte>, e: (Byte, Key))
    requires Linked(nodes) && n < |nodes|
    requires q != [] && ChildDeep(nodes, n, q) == Some(e.1) && q[|q| - 1] == e.0
    ensures exists p: seq<Byte> :: p != [] && ChildDeep(nodes, n, p) == Some(e.1) && p[|p| - 1] == e.0
  {
  }

  /** One step down an existing edge. */
  lemma StepDown(nodes: seq<Node>, n: Key, b: Byte, p: seq<Byte>)
    requires Linked(nodes) && n < |nodes| && nodes[n].children[b] != NULL
    ensures ChildDeep(nodes, n, [b] + p) == ChildDeep(nodes, nodes[n].children[b], p)
  {
    var q := [b] + p;
    assert q[0] == b && q[1..] == p;
  }

  // ---------------------------------------------------------------------
  // Records

  /** The populated prefix of a bucket: its slots up to the first null. */
  function Populated(bucket: seq<Key>): (r: seq<Key>)
    ensures |r| <= |bucket| && r == bucket[..|r|]
    ensures forall i | 0 <= i < |r| :: r[i] != NULL
    ensures |r| < |bucket| ==> bucket[|r|] == NULL
  {
    if bucket == [] || bucket[0] == NULL then []
    else [bucket[0]] + Populated(bucket[1..])
  }

  /** In a gap-free bucket the populated prefix is exactly the non-null
      slots. */
  lemma PopulatedIsNonNull(bucket: seq<Key>, i: nat)
    requires GapFree(bucket) && i < |bucket|
    ensures bucket[i] != NULL <==> i < |Populated(bucket)|
  {
  }

  /** `records()`: the records named by the populated prefix of `n`'s
      bucket, in slot order. */
  function Records(nodes: seq<Node>, stored: seq<Record>, n: Key): (r: seq<Record>)
    requires Valid(nodes, stored) && n < |nodes|
    ensures |r| == |Populated(nodes[n].records)| <= BUCKET
    ensures forall x | x in r :: x in stored
  {
    Lookup(stored, Populated(nodes[n].records))
  }

  /** The stored records named by `keys`, in order: record key k names
      `stored[k - 1]`. */
  function Lookup(stored: seq<Record>, keys: seq<Key>): (r: seq<Record>)
    requires forall i | 0 <= i < |keys| :: 0 < keys[i] <= |stored|
    ensures |r| == |keys|
    ensures forall x | x in r :: x in stored
  {
    seq(|keys|, i requires 0 <= i < |keys| => stored[keys[i] - 1])
  }

  lemma LookupSnoc(stored: seq<Record>, keys: seq<Key>, key: Key)
    requires forall i | 0 <= i < |keys| :: 0 < keys[i] <= |stored|
    requires 0 < key <= |stored|
    ensures Lookup(stored, keys + [key]) == Lookup(stored, keys) + [stored[key - 1]]
  {
  }

  /** The records of every entry of `cs`, entry by entry. */
  function RecordsOf(nodes: seq<Node>, stored: seq<Record>, cs: seq<(Byte, Key)>): (r: seq<Record>)
    requires Valid(nodes, stored)
    requires forall e | e in cs :: e.1 < |nodes|
    ensures forall x | x in r :: x in stored
  {
    if cs == [] then [] else Records(nodes, stored, cs[0].1) + RecordsOf(nodes, stored, cs[1..])
  }

  /** `records_deep()`: `n`'s own records followed by those of each of its
      descendants. */
  function RecordsDeep(nodes: seq<Node>, stored: seq<Record>, n: Key): (r: seq<Record>)
    requires Valid(nodes, stored) && n < |nodes|
    ensures |Records(nodes, stored, n)| <= |r| && r[..|Records(nodes, stored, n)|] == Records(nodes, stored, n)
    ensures forall x | x in r :: x in stored
  {
    Records(nodes, stored, n) + RecordsOf(nodes, stored, ChildrenDeep(nodes, n))
  }

  lemma {:induction false} RecordsOfContains(nodes: seq<Node>, stored: seq<Record>, cs: seq<(Byte, Key)>, e: (Byte, Key))
    requires Valid(nodes, stored)
    requires forall x | x in cs :: x.1 < |nodes|
    requires e in cs
    ensures forall x | x in Records(nodes, stored, e.1) :: x in RecordsOf(nodes, stored, cs)
  {
    if cs[0] != e {
      RecordsOfContains(nodes, stored, cs[1..], e);
    }
  }

  lemma {:induction false} RecordsOfFrom(nodes: seq<Node>, stored: seq<Record>, cs: seq<(Byte, Key)>, x: Record)
    requires Valid(nodes, stored)
    requires forall e | e in cs :: e.1 < |nodes|
    requires x in RecordsOf(nodes, stored, cs)
    ensures exists e :: e in cs && x in Records(nodes, stored, e.1)
  {
    if x !in Records(nodes, stored, cs[0].1) {
      RecordsOfFrom(nodes, stored, cs[1..], x);
    }
  }

  /** Every record held by a node reached from `n` is among `n`'s deep
      records. */
  lemma SubtreeRecords(nodes: seq<Node>, stored: seq<Record>, n: Key, path: seq<Byte>)
    requires Valid(nodes, stored) && n < |nodes|
    requires ChildDeep(nodes, n, path).Some?
    ensures forall x | x in Records(nodes, stored, ChildDeep(nodes, n, path).value) :: x in RecordsDeep(nodes, stored, n)
  {
    if path != [] {
      ReachableIsDescendant(nodes, n, path);
      RecordsOfContains(nodes, stored, ChildrenDeep(nodes, n), (path[|path| - 1], ChildDeep(nodes, n, path).value));
    }
  }

  /** The records held somewhere below `n`, `n` itself included. */
  ghost predicate HeldBelow(nodes: seq<Node>, stored: seq<Record>, n: Key, x: Record)
    requires Valid(nodes, stored) && n < |nodes|
  {
    exists p: seq<Byte> :: ChildDeep(nodes, n, p).Some? && x in Records(nodes, stored, ChildDeep(nodes, n, p).value)
  }

  /** `records_deep` yields nothing but records held below `n`. */
  lemma RecordsDeepSound(nodes: seq<Node>, stored: seq<Record>, n: Key, x: Record)
    requires Valid(nodes, stored) && n < |nodes|
    requires x in RecordsDeep(nodes, stored, n)
    ensures HeldBelow(nodes, stored, n, x)
  {
    if x in Records(nodes, stored, n) {
      assert ChildDeep(nodes, n, []) == Some(n);
    } else {
      RecordsOfFrom(nodes, stored, ChildrenDeep(nodes, n), x);
      var e :| e in ChildrenDeep(nodes, n) && x in Records(nodes, stored, e.1);
      DescendantIsReachable(nodes, n, e);
      var p :| p != [] && ChildDeep(nodes, n, p) == Some(e.1) && p[|p| - 1] == e.0;
      assert ChildDeep(nodes, n, p).Some?;
    }
  }

  // ---------------------------------------------------------------------
  // Adding a record key to a bucket

  /** The first slot from `i` on that already holds `key` or is null, or
      the bucket's length when there is none: where the scan of `add_record`
      stops. */
  function StopAt(bucket: seq<Key>, key: Key, i: nat): (r: nat)
    requires i <= |bucket|
    ensures i <= r <= |bucket|
    ensures forall j | i <= j < r :: bucket[j] != key && bucket[j] != NULL
    ensures r < |bucket| ==> bucket[r] == key || bucket[r] == NULL
    decreases |bucket| - i
  {
    if i == |bucket| || bucket[i] == key || bucket[i] == NULL then i
    else StopAt(bucket, key, i + 1)
  }

  /** The bucket after `add_record(key)`: the scan stops at the first slot
      holding `key` (no change) or at the first null slot, which is claimed
      by compare-and-swap; a full bucket drops the key. */
  function AddToBucket(bucket: seq<Key>, key: Key): (r: seq<Key>)
    ensures |r| == |bucket|
  {
    var i := StopAt(bucket, key, 0);
    if i < |bucket| && bucket[i] != key then bucket[i := key] else bucket
  }

  /** A key already in the populated prefix leaves the bucket unchanged. */
  lemma AddPresent(bucket: seq<Key>, key: Key)
    requires GapFree(bucket)
    requires key in Populated(bucket)
    ensures AddToBucket(bucket, key) == bucket
  {
  }

  /** A new key goes into the first null slot, no other slot changes, and
      the populated prefix grows by exactly that key. */
  lemma AddAbsent(bucket: seq<Key>, key: Key)
    requires GapFree(bucket)
    requires key != NULL && key !in Populated(bucket) && |Populated(bucket)| < |bucket|
    ensures AddToBucket(bucket, key) == bucket[|Populated(bucket)| := key]
    ensures Populated(AddToBucket(bucket, key)) == Populated(bucket) + [key]
  {
    ScanStopsAtFirstNull(bucket, key);
    ClaimFirstNull(bucket, key);
  }

  /** The scan for a key absent from the populated prefix stops at the
      first null slot. */
  lemma ScanStopsAtFirstNull(bucket: seq<Key>, key: Key)
    requires key !in Populated(bucket) && |Populated(bucket)| < |bucket|
    ensures StopAt(bucket, key, 0) == |Populated(bucket)|
  {
    var p := Populated(bucket);
    var i := StopAt(bucket, key, 0);
    assert forall j | 0 <= j < |p| :: bucket[j] == p[j] && p[j] in p;
  }

  /** Writing a key into the first null slot of a gap-free bucket appends
      it to the populated prefix. */
  lemma ClaimFirstNull(bucket: seq<Key>, key: Key)
    requires GapFree(bucket)
    requires key != NULL && |Populated(bucket)| < |bucket|
    ensures Populated(bucket[|Populated(bucket)| := key]) == Populated(bucket) + [key]
  {
    var p := Populated(bucket);
    var r := bucket[|p| := key];
    assert forall j | 0 <= j < |p| :: r[j] == p[j] != NULL;
    assert |p| + 1 < |r| ==> r[|p| + 1] == bucket[|p| + 1] == NULL;
    PopulatedPrefix(r, |p| + 1);
    assert r[..|p| + 1] == p + [key];
  }

  /** A full bucket silently drops the key. */
  lemma AddToFull(bucket: seq<Key>, key: Key)
    requires |Populated(bucket)| == |bucket|
    ensures AddToBucket(bucket, key) == bucket
  {
  }

  /** A bucket whose first `n` slots are non-null and whose slot `n` (if
      any) is null has exactly those `n` slots as populated prefix. */
  lemma {:induction false} PopulatedPrefix(bucket: seq<Key>, n: nat)
    requires n <= |bucket|
    requires forall i | 0 <= i < n :: bucket[i] != NULL
    requires n < |bucket| ==> bucket[n] == NULL
    ensures Populated(bucket) == bucket[..n]
  {
    if n > 0 {
      PopulatedPrefix(bucket[1..], n - 1);
    }
  }

  /** Adding a key keeps a bucket gap-free, free of duplicates and made of
      keys of stored records. */
  lemma AddKeepsBucketValid(bucket: seq<Key>, key: Key, count: nat)
    requires GapFree(bucket) && Distinct(bucket)
    requires forall i | 0 <= i < |bucket| :: bucket[i] <= count
    requires key <= count
    ensures GapFree(AddToBucket(bucket, key)) && Distinct(AddToBucket(bucket, key))
    ensures forall i | 0 <= i < |bucket| :: AddToBucket(bucket, key)[i] <= count
  {
    var i := StopAt(bucket, key, 0);
    if i < |bucket| && bucket[i] != key {
      assert bucket[i] == NULL;
      var r := bucket[i := key];
      forall p, q | 0 <= p < q < |r| && r[q] != NULL
        ensures r[p] != r[q]
      {
        if q == i {
          assert bucket[p] != key;
        }
      }
    }
  }

  /** Adding a key only ever extends the populated prefix, and afterwards
      the key is there unless the bucket is full. */
  lemma AddExtends(bucket: seq<Key>, key: Key)
    requires GapFree(bucket)
    ensures Populated(bucket) <= Populated(AddToBucket(bucket, key))
    ensures key != NULL ==>
      key in Populated(AddToBucket(bucket, key)) || |Populated(AddToBucket(bucket, key))| == |bucket|
    ensures key in Populated(AddToBucket(bucket, key)) || AddToBucket(bucket, key) == bucket
  {
    var p := Populated(bucket);
    if key != NULL && key !in p && |p| < |bucket| {
      AddAbsent(bucket, key);
    } else {
      assert AddToBucket(bucket, key) == bucket by {
        if key == NULL || key in p {
          var i := StopAt(bucket, key, 0);
          if i < |p| {
            assert bucket[i] == p[i];
          }
        }
      }
    }
  }

  /** After `add_record(key)` into a node holding `old` records, the node
      holds `old` followed by `key`'s record: insertion order. */
  lemma RecordsAfterAdd(nodes: seq<Node>, stored: seq<Record>, n: Key, key: Key)
    requires Valid(nodes, stored) && n < |nodes|
    requires 0 < key <= |stored| && key !in Populated(nodes[n].records)
    requires |Populated(nodes[n].records)| < BUCKET
    ensures Valid(nodes[n := nodes[n].(records := AddToBucket(nodes[n].records, key))], stored)
    ensures Records(nodes[n := nodes[n].(records := AddToBucket(nodes[n].records, key))], stored, n)
         == Records(nodes, stored, n) + [stored[key - 1]]
  {
    var bucket := nodes[n].records;
    var added := AddToBucket(bucket, key);
    AddAbsent(bucket, key);
    AddKeepsBucketValid(bucket, key, |stored|);
    AddExtends(bucket, key);
    SetBucketExtends(nodes, stored, n, added);
    var after := nodes[n := nodes[n].(records := added)];
    assert after[n].records == added;
    LookupSnoc(stored, Populated(bucket), key);
  }

  // ---------------------------------------------------------------------
  // How insertion changes the tables

  /** `after` only grows `before`: nodes may be appended, null child slots
      may be filled, buckets may gain entries; no existing edge or record
      key changes. */
  ghost predicate Extends(before: seq<Node>, after: seq<Node>)
  {
    && Linked(before) && Linked(after) && |before| <= |after|
    && forall k | 0 <= k < |before| ::
         && (forall b | 0 <= b < FANOUT && before[k].children[b] != NULL ::
               after[k].children[b] == before[k].children[b])
         && Populated(before[k].records) <= Populated(after[k].records)
  }

  lemma ExtendsTransitive(a: seq<Node>, b: seq<Node>, c: seq<Node>)
    requires Extends(a, b) && Extends(b, c)
    ensures Extends(a, c)
  {
    forall k | 0 <= k < |a|
      ensures Populated(a[k].records) <= Populated(c[k].records)
    {
      var pa, pb, pc := Populated(a[k].records), Populated(b[k].records), Populated(c[k].records);
      assert pa == pb[..|pa|] && pb == pc[..|pb|];
    }
  }

  lemma ExtendsReflexive(nodes: seq<Node>)
    requires Linked(nodes)
    ensures Extends(nodes, nodes)
  {
  }

  /** Paths that exist keep existing, to the same node, as the trie grows. */
  lemma {:induction false} ExtendsChildDeep(before: seq<Node>, after: seq<Node>, n: Key, path: seq<Byte>)
    requires Extends(before, after) && n < |before|
    requires ChildDeep(before, n, path).Some?
    ensures ChildDeep(after, n, path) == ChildDeep(before, n, path)
    decreases |path|
  {
    if path != [] {
      var c := Child(before, n, path[0]).value;
      assert Child(after, n, path[0]) == Some(c);
      ExtendsChildDeep(before, after, c, path[1..]);
    }
  }

  /** A node lists `key` in its bucket, or its bucket is full. */
  ghost predicate Holds(nodes: seq<Node>, n: Key, key: Key)
    requires Linked(nodes) && n < |nodes|
  {
    key in Populated(nodes[n].records) || |Populated(nodes[n].records)| == BUCKET
  }

  /** What `insert` promises for one token: its byte path exists from the
      root and, for a real record key, the node at its end holds the key
      (unless the bucket was full). */
  ghost predicate Reached(nodes: seq<Node>, root: Key, token: seq<Byte>, key: Key)
    requires Linked(nodes) && root < |nodes|
  {
    && ChildDeep(nodes, root, token).Some?
    && (key != NULL ==> Holds(nodes, ChildDeep(nodes, root, token).value, key))
  }

  lemma ExtendsReached(before: seq<Node>, after: seq<Node>, root: Key, token: seq<Byte>, key: Key)
    requires Extends(before, after) && root < |before|
    requires Reached(before, root, token, key)
    ensures Reached(after, root, token, key)
  {
    ExtendsChildDeep(before, after, root, token);
    var m := ChildDeep(before, root, token).value;
    var pb, pa := Populated(before[m].records), Populated(after[m].records);
    assert pb == pa[..|pb|];
  }

  /** Node `k`'s bucket is as it was in `before`, or is empty when `k` was
      allocated since. */
  ghost predicate BucketKept(before: seq<Node>, after: seq<Node>, k: Key)
    requires k < |after|
  {
    if k < |before| then after[k].records == before[k].records else Populated(after[k].records) == []
  }

  /** No bucket changed from `before` to `after`. */
  ghost predicate SameBuckets(before: seq<Node>, after: seq<Node>)
  {
    forall k | 0 <= k < |after| :: BucketKept(before, after, k)
  }

  /** From `before` to `after` buckets changed only by gaining `key`: each
      bucket is as it was, or now lists `key`. */
  ghost predicate AddsOnly(before: seq<Node>, after: seq<Node>, key: Key)
  {
    forall k | 0 <= k < |after| :: key in Populated(after[k].records) || BucketKept(before, after, k)
  }

  /** What `insert` promises for one token, against the tables `before` it
      ran: the token's byte path exists and, for a real record key, the node
      at its end lists the key, unless that node's bucket was already full
      before, in which case the bucket is unchanged. */
  ghost predicate Stored(before: seq<Node>, after: seq<Node>, root: Key, token: seq<Byte>, key: Key)
    requires Linked(after) && root < |after|
  {
    && ChildDeep(after, root, token).Some?
    && (key != NULL ==> KeptAt(before, after, ChildDeep(after, root, token).value, key))
  }

  /** Node `m` lists `key`, or its bucket was already full in `before` and
      is unchanged. */
  ghost predicate KeptAt(before: seq<Node>, after: seq<Node>, m: Key, key: Key)
    requires m < |after|
  {
    || key in Populated(after[m].records)
    || (m < |before| && |Populated(before[m].records)| == BUCKET && after[m].records == before[m].records)
  }

  /** A fresh node's bucket is empty. */
  lemma EmptyBucket()
    ensures Populated(EMPTY_NODE.records) == []
  {
    PopulatedPrefix(EMPTY_NODE.records, 0);
  }

  lemma SameBucketsAddsOnly(before: seq<Node>, after: seq<Node>, key: Key)
    requires SameBuckets(before, after)
    ensures AddsOnly(before, after, key)
  {
  }

  lemma SameBucketsTransitive(a: seq<Node>, b: seq<Node>, c: seq<Node>)
    requires |a| <= |b| && SameBuckets(a, b) && SameBuckets(b, c)
    ensures SameBuckets(a, c)
  {
    forall k | 0 <= k < |c|
      ensures BucketKept(a, c, k)
    {
      assert BucketKept(b, c, k);
      if k < |b| {
        assert BucketKept(a, b, k);
      }
    }
  }

  /** Changes that only add `key` compose. */
  lemma AddsOnlyTransitive(a: seq<Node>, b: seq<Node>, c: seq<Node>, key: Key)
    requires |a| <= |b| && AddsOnly(a, b, key) && AddsOnly(b, c, key)
    ensures AddsOnly(a, c, key)
  {
    forall k | 0 <= k < |c|
      ensures key in Populated(c[k].records) || BucketKept(a, c, k)
    {
      if key !in Populated(c[k].records) && k < |b| {
        assert c[k].records == b[k].records;
        assert BucketKept(a, b, k);
      }
    }
  }

  /** Allocating a node and linking it under a null slot changes no
      bucket. */
  lemma LinkFreshKeepsBuckets(nodes: seq<Node>, n: Key, b: Byte)
    requires Linked(nodes) && n < |nodes|
    ensures SameBuckets(nodes, (nodes + [EMPTY_NODE])[n := nodes[n].(children := nodes[n].children[b := |nodes|])])
  {
    EmptyBucket();
  }

  /** `add_record(key)` on node `n` changes buckets only by adding `key`. */
  lemma AddRecordAddsOnly(nodes: seq<Node>, n: Key, key: Key)
    requires n < |nodes| && GapFree(nodes[n].records)
    ensures AddsOnly(nodes, nodes[n := nodes[n].(records := AddToBucket(nodes[n].records, key))], key)
  {
    AddExtends(nodes[n].records, key);
  }

  /** A token reached with its key held (or a full bucket), after changes
      that only added that key, is stored in the sense of `Stored`: a full
      bucket without the key was full before and is unchanged. */
  lemma ReachedStored(before: seq<Node>, after: seq<Node>, root: Key, token: seq<Byte>, key: Key)
    requires Linked(after) && root < |after|
    requires Reached(after, root, token, key) && AddsOnly(before, after, key)
    ensures Stored(before, after, root, token, key)
  {
    if key != NULL {
      var m := ChildDeep(after, root, token).value;
      if key !in Populated(after[m].records) {
        assert BucketKept(before, after, m);
      }
    }
  }

  /** The capacity boundary: a key offered to a bucket that was already full
      without it is absent afterwards. */
  lemma FullBucketDrops(before: seq<Node>, after: seq<Node>, root: Key, token: seq<Byte>, key: Key)
    requires Extends(before, after) && root < |after|
    requires Stored(before, after, root, token, key) && key != NULL
    requires ChildDeep(after, root, token).value < |before|
    requires |Populated(before[ChildDeep(after, root, token).value].records)| == BUCKET
    requires key !in Populated(before[ChildDeep(after, root, token).value].records)
    ensures key !in Populated(after[ChildDeep(after, root, token).value].records)
  {
    var m := ChildDeep(after, root, token).value;
    var pb, pa := Populated(before[m].records), Populated(after[m].records);
    assert pb <= pa;
    assert |pa| <= BUCKET;
    assert pa == pb;
  }

  // ---------------------------------------------------------------------
  // What an insertion leaves alone

  /** Child slot `b` of node `k` as it was in `before`: null for a node
      allocated since. */
  ghost function OldChild(before: seq<Node>, k: Key, b: Byte): Key
    requires Linked(before)
  {
    if k < |before| then before[k].children[b] else NULL
  }

  /** Node `k` lies on one of `paths` from `root`: a prefix of one of them
      leads there. */
  ghost predicate OnPaths(nodes: seq<Node>, root: Key, paths: set<seq<Byte>>, k: Key)
    requires Linked(nodes) && root < |nodes|
  {
    exists t, j | t in paths && 0 <= j <= |t| :: ChildDeep(nodes, root, t[..j]) == Some(k)
  }

  /** Child slot `b` of node `k` is a step of one of `paths` from `root`. */
  ghost predicate SlotOnPaths(nodes: seq<Node>, root: Key, paths: set<seq<Byte>>, k: Key, b: Byte)
    requires Linked(nodes) && root < |nodes|
  {
    exists t, j | t in paths && 0 <= j < |t| :: ChildDeep(nodes, root, t[..j]) == Some(k) && t[j] == b
  }

  /** Node `k` is where one of `paths` ends. */
  ghost predicate EndsPath(nodes: seq<Node>, root: Key, paths: set<seq<Byte>>, k: Key)
    requires Linked(nodes) && root < |nodes|
  {
    exists t | t in paths :: ChildDeep(nodes, root, t) == Some(k)
  }

  /** Every child slot that changed from `before` to `after` now leads to a
      node allocated since. */
  ghost predicate FreshLinks(before: seq<Node>, after: seq<Node>)
    requires Linked(before) && Linked(after)
  {
    forall k, b: Byte | 0 <= k < |after| && after[k].children[b] != OldChild(before, k, b) ::
      |before| <= after[k].children[b]
  }

  /** From `before` to `after` the trie grew only along `paths`: every new
      node and every changed child slot lies on one of them, and a changed
      slot leads to a new node. */
  ghost predicate GrownAlong(before: seq<Node>, after: seq<Node>, root: Key, paths: set<seq<Byte>>)
    requires Linked(before) && Linked(after) && root < |after|
  {
    && FreshLinks(before, after)
    && (forall k | |before| <= k < |after| :: OnPaths(after, root, paths, k))
    && (forall k, b: Byte | 0 <= k < |after| && after[k].children[b] != OldChild(before, k, b) ::
          SlotOnPaths(after, root, paths, k, b))
  }

  /** From `before` to `after` buckets gained nothing but `key`, and only at
      nodes where one of `paths` ends. */
  ghost predicate FiledOnlyAt(before: seq<Node>, after: seq<Node>, root: Key, paths: set<seq<Byte>>, key: Key)
    requires Linked(after) && root < |after|
  {
    forall k, x | 0 <= k < |after| && x in Populated(after[k].records) ::
      || (k < |before| && x in Populated(before[k].records))
      || (x == key && EndsPath(after, root, paths, k))
  }

  /** A node on a path stays on it, under more paths, as the trie grows. */
  lemma OnPathsGrow(b: seq<Node>, c: seq<Node>, root: Key, paths: set<seq<Byte>>, wider: set<seq<Byte>>, k: Key)
    requires Extends(b, c) && root < |b| && paths <= wider
    requires OnPaths(b, root, paths, k)
    ensures OnPaths(c, root, wider, k)
  {
    var t, j :| t in paths && 0 <= j <= |t| && ChildDeep(b, root, t[..j]) == Some(k);
    ExtendsChildDeep(b, c, root, t[..j]);
    assert t in wider;
  }

  lemma SlotOnPathsGrow(b: seq<Node>, c: seq<Node>, root: Key, paths: set<seq<Byte>>, wider: set<seq<Byte>>, k: Key, x: Byte)
    requires Extends(b, c) && root < |b| && paths <= wider
    requires SlotOnPaths(b, root, paths, k, x)
    ensures SlotOnPaths(c, root, wider, k, x)
  {
    var t, j :| t in paths && 0 <= j < |t| && ChildDeep(b, root, t[..j]) == Some(k) && t[j] == x;
    ExtendsChildDeep(b, c, root, t[..j]);
    assert t in wider;
  }

  lemma EndsPathGrow(b: seq<Node>, c: seq<Node>, root: Key, paths: set<seq<Byte>>, wider: set<seq<Byte>>, k: Key)
    requires Extends(b, c) && root < |b| && paths <= wider
    requires EndsPath(b, root, paths, k)
    ensures EndsPath(c, root, wider, k)
  {
    var t :| t in paths && ChildDeep(b, root, t) == Some(k);
    ExtendsChildDeep(b, c, root, t);
    assert t in wider;
  }

  /** A change that leaves every child slot alone grows along any paths. */
  lemma SameChildrenGrownAlong(before: seq<Node>, after: seq<Node>, root: Key, paths: set<seq<Byte>>)
    requires Linked(before) && Linked(after) && root < |after| && |before| == |after|
    requires forall k | 0 <= k < |after| :: after[k].children == before[k].children
    ensures GrownAlong(before, after, root, paths)
  {
  }

  /** Growth along paths composes, under any set holding both sets of
      paths. */
  lemma GrownAlongTransitive(a: seq<Node>, b: seq<Node>, c: seq<Node>, root: Key,
                             p: set<seq<Byte>>, q: set<seq<Byte>>, r: set<seq<Byte>>)
    requires Extends(a, b) && Extends(b, c) && root < |a| && p <= r && q <= r
    requires GrownAlong(a, b, root, p) && GrownAlong(b, c, root, q)
    ensures GrownAlong(a, c, root, r)
  {
    forall k | |a| <= k < |c|
      ensures OnPaths(c, root, r, k)
    {
      if k < |b| {
        OnPathsGrow(b, c, root, p, r, k);
      } else {
        OnPathsGrow(c, c, root, q, r, k);
      }
    }
    forall k, x: Byte | 0 <= k < |c| && c[k].children[x] != OldChild(a, k, x)
      ensures |a| <= c[k].children[x] && SlotOnPaths(c, root, r, k, x)
    {
      if c[k].children[x] != OldChild(b, k, x) {
        SlotOnPathsGrow(c, c, root, q, r, k, x);
      } else {
        assert k < |b|;
        SlotOnPathsGrow(b, c, root, p, r, k, x);
      }
    }
  }

  /** Allocating a fresh node and linking it under a null slot of `n`
      keeps the children linked and only grows the trie. */
  lemma LinkFreshLinked(nodes: seq<Node>, n: Key, b: Byte)
    requires Linked(nodes) && n < |nodes| && nodes[n].children[b] == NULL
    ensures Linked((nodes + [EMPTY_NODE])[n := nodes[n].(children := nodes[n].children[b := |nodes|])])
    ensures Extends(nodes, (nodes + [EMPTY_NODE])[n := nodes[n].(children := nodes[n].children[b := |nodes|])])
  {
    var after := (nodes + [EMPTY_NODE])[n := nodes[n].(children := nodes[n].children[b := |nodes|])];
    assert Linked(after);
    forall k | 0 <= k < |nodes|
      ensures Populated(nodes[k].records) <= Populated(after[k].records)
    {
      assert after[k].records == nodes[k].records;
    }
  }

  /** Linking a fresh node under slot `b` of `n` changes that slot alone. */
  lemma LinkChangesOneSlot(nodes: seq<Node>, after: seq<Node>, n: Key, b: Byte)
    requires Linked(nodes) && n < |nodes|
    requires after == (nodes + [EMPTY_NODE])[n := nodes[n].(children := nodes[n].children[b := |nodes|])]
    requires Linked(after)
    ensures forall k, x: Byte | 0 <= k < |after| && after[k].children[x] != OldChild(nodes, k, x) :: k == n && x == b
  {
  }

  /** One step of the fold that finds a null slot on `token` at depth `j`:
      the fresh node and the slot it fills both lie on `token`. */
  lemma LinkGrownAlong(nodes: seq<Node>, after: seq<Node>, root: Key, token: seq<Byte>, j: nat, n: Key)
    requires Linked(nodes) && root < |nodes| && j < |token|
    requires ChildDeep(nodes, root, token[..j]) == Some(n)
    requires nodes[n].children[token[j]] == NULL
    requires after == (nodes + [EMPTY_NODE])[n := nodes[n].(children := nodes[n].children[token[j] := |nodes|])]
    ensures Linked(after) && Extends(nodes, after)
    ensures GrownAlong(nodes, after, root, {token})
  {
    var b := token[j];
    LinkFreshLinked(nodes, n, b);
    LinkChangesOneSlot(nodes, after, n, b);
    ExtendsChildDeep(nodes, after, root, token[..j]);
    ChildDeepAppend(after, root, token[..j], [b]);
    assert ChildDeep(after, n, [b]) == ChildDeep(after, |nodes|, []);
    assert token[..j + 1] == token[..j] + [b];
    assert OnPaths(after, root, {token}, |nodes|);
    assert SlotOnPaths(after, root, {token}, n, b);
  }

  /** A change that keeps every bucket files nothing. */
  lemma SameBucketsFiled(before: seq<Node>, after: seq<Node>, root: Key, paths: set<seq<Byte>>, key: Key)
    requires Linked(after) && root < |after| && SameBuckets(before, after)
    ensures FiledOnlyAt(before, after, root, paths, key)
  {
    forall k, x | 0 <= k < |after| && x in Populated(after[k].records)
      ensures k < |before| && x in Populated(before[k].records)
    {
      assert BucketKept(before, after, k);
    }
  }

  /** Adding `key` to a bucket populates no key but `key` that was not
      there before. */
  lemma AddOnlyKey(bucket: seq<Key>, key: Key)
    requires GapFree(bucket)
    ensures forall x | x in Populated(AddToBucket(bucket, key)) :: x in Populated(bucket) || x == key
  {
    var p := Populated(bucket);
    if key in p {
      AddPresent(bucket, key);
    } else if key != NULL && |p| < |bucket| {
      AddAbsent(bucket, key);
    } else if key != NULL {
      AddToFull(bucket, key);
    } else {
      AddExtends(bucket, key);
    }
  }

  /** `add_record(key)` at the node where `token` ends files `key` there
      and nothing else. */
  lemma AddRecordFiled(nodes: seq<Node>, stored: seq<Record>, root: Key, token: seq<Byte>, n: Key, key: Key)
    requires Valid(nodes, stored) && root < |nodes| && key <= |stored|
    requires ChildDeep(nodes, root, token) == Some(n)
    ensures FiledOnlyAt(nodes, nodes[n := nodes[n].(records := AddToBucket(nodes[n].records, key))], root, {token}, key)
  {
    var bucket := nodes[n].records;
    var after := nodes[n := nodes[n].(records := AddToBucket(bucket, key))];
    AddRecordExtends(nodes, stored, n, key);
    ExtendsChildDeep(nodes, after, root, token);
    assert EndsPath(after, root, {token}, n);
    AddOnlyKey(bucket, key);
  }

  /** Filing composes, under any set holding both sets of paths. */
  lemma FiledTransitive(a: seq<Node>, b: seq<Node>, c: seq<Node>, root: Key,
                        p: set<seq<Byte>>, q: set<seq<Byte>>, r: set<seq<Byte>>, key: Key)
    requires Extends(b, c) && root < |b| && |a| <= |b| && p <= r && q <= r
    requires FiledOnlyAt(a, b, root, p, key) && FiledOnlyAt(b, c, root, q, key)
    ensures FiledOnlyAt(a, c, root, r, key)
  {
    forall k, x | 0 <= k < |c| && x in Populated(c[k].records)
      ensures || (k < |a| && x in Populated(a[k].records))
              || (x == key && EndsPath(c, root, r, k))
    {
      if k < |b| && x in Populated(b[k].records) {
        if !(k < |a| && x in Populated(a[k].records)) {
          EndsPathGrow(b, c, root, p, r, k);
        }
      } else {
        EndsPathGrow(c, c, root, q, r, k);
      }
    }
  }

  /** A walk from an old node to an old node never uses a slot that changed:
      changed slots lead to new nodes, and a walk only goes to later
      nodes. */
  lemma {:induction false} OldPathKept(before: seq<Node>, after: seq<Node>, n: Key, path: seq<Byte>, m: Key)
    requires Extends(before, after) && FreshLinks(before, after) && n < |before|
    requires ChildDeep(after, n, path) == Some(m) && m < |before|
    ensures ChildDeep(before, n, path) == Some(m)
    decreases |path|
  {
    if path != [] {
      var c := after[n].children[path[0]];
      assert ChildDeep(after, c, path[1..]) == Some(m);
      assert c < |before|;
      assert before[n].children[path[0]] == c;
      OldPathKept(before, after, c, path[1..], m);
    }
  }

  /** Appending a fresh node keeps the tables valid and only grows them. */
  lemma AllocExtends(nodes: seq<Node>, stored: seq<Record>)
    requires Valid(nodes, stored)
    ensures Valid(nodes + [EMPTY_NODE], stored)
    ensures Extends(nodes, nodes + [EMPTY_NODE])
  {
    var after := nodes + [EMPTY_NODE];
    assert Populated(EMPTY_NODE.records) == [];
    forall k | 0 <= k < |nodes|
      ensures Populated(nodes[k].records) <= Populated(after[k].records)
    {
      assert after[k] == nodes[k];
    }
  }

  /** Writing a later-allocated node into a child slot keeps the tables
      valid and makes the slot's byte lead to that node. */
  lemma LinkValid(nodes: seq<Node>, stored: seq<Record>, n: Key, b: Byte, c: Key)
    requires Valid(nodes, stored) && n < c < |nodes|
    ensures Valid(nodes[n := nodes[n].(children := nodes[n].children[b := c])], stored)
    ensures ChildDeep(nodes[n := nodes[n].(children := nodes[n].children[b := c])], n, [b]) == Some(c)
  {
    var after := nodes[n := nodes[n].(children := nodes[n].children[b := c])];
    assert Linked(after);
    assert ChildDeep(after, n, [b]) == ChildDeep(after, c, []);
  }

  /** Linking under a null slot only grows the tables. */
  lemma LinkExtends(nodes: seq<Node>, stored: seq<Record>, n: Key, b: Byte, c: Key)
    requires Valid(nodes, stored) && n < c < |nodes|
    requires nodes[n].children[b] == NULL
    ensures Extends(nodes, nodes[n := nodes[n].(children := nodes[n].children[b := c])])
  {
    LinkValid(nodes, stored, n, b, c);
  }

  /** Adding a record key to a node's bucket keeps the tables valid and only
      grows them, and the node then holds the key (unless full). */
  lemma AddRecordExtends(nodes: seq<Node>, stored: seq<Record>, n: Key, key: Key)
    requires Valid(nodes, stored) && n < |nodes| && key <= |stored|
    ensures Valid(nodes[n := nodes[n].(records := AddToBucket(nodes[n].records, key))], stored)
    ensures Extends(nodes, nodes[n := nodes[n].(records := AddToBucket(nodes[n].records, key))])
    ensures key != NULL ==> Holds(nodes[n := nodes[n].(records := AddToBucket(nodes[n].records, key))], n, key)
  {
    var bucket := nodes[n].records;
    var added := AddToBucket(bucket, key);
    AddKeepsBucketValid(bucket, key, |stored|);
    AddExtends(bucket, key);
    SetBucketExtends(nodes, stored, n, added);
  }

  /** Replacing one bucket by a valid bucket that extends its populated
      prefix keeps the tables valid and only grows them. */
  lemma SetBucketExtends(nodes: seq<Node>, stored: seq<Record>, n: Key, bucket: seq<Key>)
    requires Valid(nodes, stored) && n < |nodes| && |bucket| == BUCKET
    requires GapFree(bucket) && Distinct(bucket)
    requires forall i | 0 <= i < BUCKET :: bucket[i] <= |stored|
    requires Populated(nodes[n].records) <= Populated(bucket)
    ensures Valid(nodes[n := nodes[n].(records := bucket)], stored)
    ensures Extends(nodes, nodes[n := nodes[n].(records := bucket)])
  {
    SetBucketValid(nodes, stored, n, bucket);
    SetBucketGrows(nodes, stored, n, bucket);
  }

  lemma SetBucketValid(nodes: seq<Node>, stored: seq<Record>, n: Key, bucket: seq<Key>)
    requires Valid(nodes, stored) && n < |nodes| && |bucket| == BUCKET
    requires GapFree(bucket) && Distinct(bucket)
    requires forall i | 0 <= i < BUCKET :: bucket[i] <= |stored|
    requires Populated(nodes[n].records) <= Populated(bucket)
    ensures Valid(nodes[n := nodes[n].(records := bucket)], stored)
  {
    SetBucketLinked(nodes, n, bucket);
    SetBucketNodes(nodes, stored, n, bucket, nodes[n := nodes[n].(records := bucket)]);
  }

  lemma SetBucketGrows(nodes: seq<Node>, stored: seq<Record>, n: Key, bucket: seq<Key>)
    requires Valid(nodes, stored) && n < |nodes| && |bucket| == BUCKET
    requires GapFree(bucket) && Distinct(bucket)
    requires forall i | 0 <= i < BUCKET :: bucket[i] <= |stored|
    requires Populated(nodes[n].records) <= Populated(bucket)
    ensures Extends(nodes, nodes[n := nodes[n].(records := bucket)])
  {
    SetBucketLinked(nodes, n, bucket);
    SetBucketNodes(nodes, stored, n, bucket, nodes[n := nodes[n].(records := bucket)]);
  }

  lemma SetBucketNodes(nodes: seq<Node>, stored: seq<Record>, n: Key, bucket: seq<Key>, after: seq<Node>)
    requires Valid(nodes, stored) && n < |nodes| && |bucket| == BUCKET
    requires GapFree(bucket) && Distinct(bucket)
    requires forall i | 0 <= i < BUCKET :: bucket[i] <= |stored|
    requires Populated(nodes[n].records) <= Populated(bucket)
    requires after == nodes[n := nodes[n].(records := bucket)]
    ensures forall k | 0 <= k < |nodes| ::
      && GapFree(after[k].records) && Distinct(after[k].records)
      && Populated(nodes[k].records) <= Populated(after[k].records)
      && forall i | 0 <= i < BUCKET :: after[k].records[i] <= |stored|
  {
    forall k | 0 <= k < |nodes|
      ensures GapFree(after[k].records) && Distinct(after[k].records)
      ensures Populated(nodes[k].records) <= Populated(after[k].records)
      ensures forall i | 0 <= i < BUCKET :: after[k].records[i] <= |stored|
    {
      if k == n {
        assert after[k].records == bucket;
      } else {
        assert after[k] == nodes[k];
      }
    }
  }

  lemma SetBucketLinked(nodes: seq<Node>, n: Key, bucket: seq<Key>)
    requires Linked(nodes) && n < |nodes| && |bucket| == BUCKET
    ensures Linked(nodes[n := nodes[n].(records := bucket)])
    ensures forall k, b | 0 <= k < |nodes| && 0 <= b < FANOUT ::
      nodes[n := nodes[n].(records := bucket)][k].children[b] == nodes[k].children[b]
  {
    var after := nodes[n := nodes[n].(records := bucket)];
    forall k | 0 <= k < |nodes|
      ensures after[k].children == nodes[k].children
    {
    }
  }

  // ---------------------------------------------------------------------
  // Queries

  /** `query_nodes`: the tokens whose byte path exists from `root`, in token
      order, each with the node its path ends at; the others are skipped. */
  function QueryNodes(nodes: seq<Node>, root: Key, tokens: seq<seq<Byte>>): (r: seq<(seq<Byte>, Key)>)
    requires Linked(nodes) && root < |nodes|
    ensures forall e | e in r :: e.0 in tokens && ChildDeep(nodes, root, e.0) == Some(e.1)
    ensures forall t | t in tokens && ChildDeep(nodes, root, t).Some? :: (t, ChildDeep(nodes, root, t).value) in r
  {
    if tokens == [] then []
    else
      var rest := QueryNodes(nodes, root, tokens[1..]);
      match ChildDeep(nodes, root, tokens[0])
      case None => rest
      case Some(m) => [(tokens[0], m)] + rest
  }

  /** Matches come in token order: querying `a + b` matches `a`'s tokens,
      then `b`'s. */
  lemma {:induction false} QueryNodesAppend(nodes: seq<Node>, root: Key, a: seq<seq<Byte>>, b: seq<seq<Byte>>)
    requires Linked(nodes) && root < |nodes|
    ensures QueryNodes(nodes, root, a + b) == QueryNodes(nodes, root, a) + QueryNodes(nodes, root, b)
  {
    if a == [] {
      assert a + b == b;
    } else {
      assert (a + b)[0] == a[0] && (a + b)[1..] == a[1..] + b;
      QueryNodesAppend(nodes, root, a[1..], b);
      match ChildDeep(nodes, root, a[0])
      case None =>
      case Some(m) =>
        AppendAssoc([(a[0], m)], QueryNodes(nodes, root, a[1..]), QueryNodes(nodes, root, b));
    }
  }

  /** The deep records of every match, match by match. */
  function Collect(nodes: seq<Node>, stored: seq<Record>, matches: seq<(seq<Byte>, Key)>): (r: seq<Record>)
    requires Valid(nodes, stored)
    requires forall e | e in matches :: e.1 < |nodes|
    ensures forall x | x in r :: x in stored
  {
    if matches == [] then []
    else RecordsDeep(nodes, stored, matches[0].1) + Collect(nodes, stored, matches[1..])
  }

  lemma {:induction false} CollectContains(nodes: seq<Node>, stored: seq<Record>, matches: seq<(seq<Byte>, Key)>, e: (seq<Byte>, Key))
    requires Valid(nodes, stored)
    requires forall x | x in matches :: x.1 < |nodes|
    requires e in matches
    ensures forall x | x in RecordsDeep(nodes, stored, e.1) :: x in Collect(nodes, stored, matches)
  {
    if matches[0] != e {
      CollectContains(nodes, stored, matches[1..], e);
    }
  }

  lemma {:induction false} CollectFrom(nodes: seq<Node>, stored: seq<Record>, matches: seq<(seq<Byte>, Key)>, x: Record)
    requires Valid(nodes, stored)
    requires forall e | e in matches :: e.1 < |nodes|
    requires x in Collect(nodes, stored, matches)
    ensures exists e :: e in matches && x in RecordsDeep(nodes, stored, e.1)
  {
    if x !in RecordsDeep(nodes, stored, matches[0].1) {
      CollectFrom(nodes, stored, matches[1..], x);
    }
  }

  /** The ids of a sequence of records. */
  function Ids(rs: seq<Record>): set<nat>
  {
    set x | x in rs :: x.id
  }

  /** The first record of `rs` with the given id, if any. */
  function FirstWithId(rs: seq<Record>, id: nat): Option<Record>
  {
    if rs == [] then None
    else if rs[0].id == id then Some(rs[0])
    else FirstWithId(rs[1..], id)
  }

  /** `unique_by(id)` with the ids in `seen` already taken. */
  function UniqueFrom(rs: seq<Record>, seen: set<nat>): (r: seq<Record>)
    ensures forall x | x in r :: x in rs && x.id !in seen && FirstWithId(rs, x.id) == Some(x)
    ensures forall i, j | 0 <= i < j < |r| :: r[i].id != r[j].id
    ensures Ids(r) == Ids(rs) - seen
  {
    if rs == [] then []
    else
      assert Ids(rs) == {rs[0].id} + Ids(rs[1..]);
      if rs[0].id in seen then UniqueFrom(rs[1..], seen)
      else
        var rest := UniqueFrom(rs[1..], seen + {rs[0].id});
        assert Ids([rs[0]] + rest) == {rs[0].id} + Ids(rest);
        [rs[0]] + rest
  }

  /** `unique_by(|record| record.id)`: keeps the first record of each id, in
      order: no two results share an id, every id of the input survives,
      and each survivor is the first record with its id. */
  function UniqueById(rs: seq<Record>): (r: seq<Record>)
    ensures forall x | x in r :: x in rs && FirstWithId(rs, x.id) == Some(x)
    ensures forall i, j | 0 <= i < j < |r| :: r[i].id != r[j].id
    ensures Ids(r) == Ids(rs)
  {
    UniqueFrom(rs, {})
  }

  /** `query_records`: the deep records of every matched node, deduplicated
      by id. */
  function QueryRecords(nodes: seq<Node>, stored: seq<Record>, root: Key, tokens: seq<seq<Byte>>): (r: seq<Record>)
    requires Valid(nodes, stored) && root < |nodes|
    ensures forall x | x in r :: x in stored
    ensures forall i, j | 0 <= i < j < |r| :: r[i].id != r[j].id
  {
    UniqueById(Collect(nodes, stored, QueryNodes(nodes, root, tokens)))
  }

  /** Prefix semantics, OR across tokens: a record held at the end of any
      path that some query token is a prefix of is found (by id). */
  lemma QueryRecordsComplete(nodes: seq<Node>, stored: seq<Record>, root: Key, tokens: seq<seq<Byte>>,
                             q: seq<Byte>, suffix: seq<Byte>, x: Record)
    requires Valid(nodes, stored) && root < |nodes|
    requires q in tokens
    requires ChildDeep(nodes, root, q + suffix).Some?
    requires x in Records(nodes, stored, ChildDeep(nodes, root, q + suffix).value)
    ensures x.id in Ids(QueryRecords(nodes, stored, root, tokens))
  {
    ChildDeepAppend(nodes, root, q, suffix);
    var mq := ChildDeep(nodes, root, q).value;
    var matches := QueryNodes(nodes, root, tokens);
    assert (q, mq) in matches;
    assert ChildDeep(nodes, mq, suffix) == ChildDeep(nodes, root, q + suffix);
    SubtreeRecords(nodes, stored, mq, suffix);
    CollectContains(nodes, stored, matches, (q, mq));
    assert x in Collect(nodes, stored, matches);
  }

  /** A record is held under a query token: it sits at the end of a path
      that starts with one of the tokens. */
  ghost predicate HeldUnderToken(nodes: seq<Node>, stored: seq<Record>, root: Key, tokens: seq<seq<Byte>>, x: Record)
    requires Valid(nodes, stored) && root < |nodes|
  {
    exists q: seq<Byte>, p: seq<Byte> ::
      && q in tokens
      && ChildDeep(nodes, root, q + p).Some?
      && x in Records(nodes, stored, ChildDeep(nodes, root, q + p).value)
  }

  /** `query_records` yields only records held under some query token, and
      never two records with the same id. */
  lemma QueryRecordsSound(nodes: seq<Node>, stored: seq<Record>, root: Key, tokens: seq<seq<Byte>>, x: Record)
    requires Valid(nodes, stored) && root < |nodes|
    requires x in QueryRecords(nodes, stored, root, tokens)
    ensures HeldUnderToken(nodes, stored, root, tokens, x)
    ensures forall y | y in QueryRecords(nodes, stored, root, tokens) && y.id == x.id :: y == x
  {
    var matches := QueryNodes(nodes, root, tokens);
    var all := Collect(nodes, stored, matches);
    CollectFrom(nodes, stored, matches, x);
    var e :| e in matches && x in RecordsDeep(nodes, stored, e.1);
    RecordsDeepSound(nodes, stored, e.1, x);
    var p :| ChildDeep(nodes, e.1, p).Some? && x in Records(nodes, stored, ChildDeep(nodes, e.1, p).value);
    ChildDeepAppend(nodes, root, e.0, p);
    assert ChildDeep(nodes, root, e.0 + p) == ChildDeep(nodes, e.1, p);
    var r := QueryRecords(nodes, stored, root, tokens);
    forall y | y in r && y.id == x.id
      ensures y == x
    {
      assert FirstWithId(all, x.id) == Some(x) && FirstWithId(all, y.id) == Some(y);
    }
  }

  /** Every record `records()` yields at node `n` is the stored record of a
      key in `n`'s populated bucket. */
  lemma RecordsMember(nodes: seq<Node>, stored: seq<Record>, n: Key, x: Record)
    requires Valid(nodes, stored) && n < |nodes|
    requires x in Records(nodes, stored, n)
    ensures exists key | key in Populated(nodes[n].records) :: 0 < key <= |stored| && x == stored[key - 1]
  {
    var keys := Populated(nodes[n].records);
    var i :| 0 <= i < |keys| && Records(nodes, stored, n)[i] == x;
    assert keys[i] in keys;
  }

  /** Some query token, extended by some suffix, reaches the node where one
      of `paths` ends. */
  ghost predicate QueryMeetsPath(nodes: seq<Node>, root: Key, tokens: seq<seq<Byte>>, paths: set<seq<Byte>>)
    requires Linked(nodes) && root < |nodes|
  {
    exists q, p, t | q in tokens && t in paths ::
      ChildDeep(nodes, root, t).Some? && ChildDeep(nodes, root, q + p) == ChildDeep(nodes, root, t)
  }

  /** A query token that, extended, reaches the end node of one of
      `paths` meets that path. */
  lemma EndMeetsPath(nodes: seq<Node>, root: Key, tokens: seq<seq<Byte>>, paths: set<seq<Byte>>,
                     q: seq<Byte>, p: seq<Byte>, m: Key)
    requires Linked(nodes) && root < |nodes|
    requires q in tokens && ChildDeep(nodes, root, q + p) == Some(m) && EndsPath(nodes, root, paths, m)
    ensures QueryMeetsPath(nodes, root, tokens, paths)
  {
    var t :| t in paths && ChildDeep(nodes, root, t) == Some(m);
  }

  /** A record held at an old node that a query reaches after the trie
      grew with fresh links only was already found before. */
  lemma OldHeldFound(before: seq<Node>, after: seq<Node>, stored: seq<Record>, root: Key,
                     tokens: seq<seq<Byte>>, q: seq<Byte>, p: seq<Byte>, m: Key, key: Key)
    requires Valid(before, stored) && root < |before|
    requires Extends(before, after) && FreshLinks(before, after)
    requires q in tokens && ChildDeep(after, root, q + p) == Some(m) && m < |before|
    requires key in Populated(before[m].records)
    ensures 0 < key <= |stored| && stored[key - 1].id in Ids(QueryRecords(before, stored, root, tokens))
  {
    OldPathKept(before, after, root, q + p, m);
    var keys := Populated(before[m].records);
    var i :| 0 <= i < |keys| && keys[i] == key;
    assert Records(before, stored, m)[i] == stored[key - 1];
    QueryRecordsComplete(before, stored, root, tokens, q, p, stored[key - 1]);
  }

  /** The key under which a record of node `m` is filed after an
      insertion: one `m` held before, or `key` at the end of one of the
      paths. */
  lemma FiledKey(before: seq<Node>, after: seq<Node>, stored: seq<Record>, root: Key,
                 paths: set<seq<Byte>>, key: Key, m: Key, x: Record) returns (kk: Key)
    requires Valid(after, stored) && root < |after| && m < |after|
    requires FiledOnlyAt(before, after, root, paths, key)
    requires x in Records(after, stored, m)
    ensures 0 < kk <= |stored| && x == stored[kk - 1]
    ensures (m < |before| && kk in Populated(before[m].records)) || (kk == key && EndsPath(after, root, paths, m))
  {
    RecordsMember(after, stored, m, x);
    kk :| kk in Populated(after[m].records) && 0 < kk <= |stored| && x == stored[kk - 1];
  }

  /** The two places a record a query reaches after an insertion can sit
      in: an old bucket, where it was found before, or the bucket filed at
      the end of one of the paths. */
  lemma HeldOldOrNew(before: seq<Node>, after: seq<Node>, stored: seq<Record>, root: Key,
                     paths: set<seq<Byte>>, key: Key, tokens: seq<seq<Byte>>, q: seq<Byte>, p: seq<Byte>, m: Key, kk: Key)
    requires Valid(before, stored) && root < |before|
    requires Extends(before, after) && FreshLinks(before, after)
    requires q in tokens && ChildDeep(after, root, q + p) == Some(m) && 0 < kk <= |stored|
    requires (m < |before| && kk in Populated(before[m].records)) || (kk == key && EndsPath(after, root, paths, m))
    ensures || stored[kk - 1].id in Ids(QueryRecords(before, stored, root, tokens))
            || (kk == key && QueryMeetsPath(after, root, tokens, paths))
  {
    if m < |before| && kk in Populated(before[m].records) {
      OldHeldFound(before, after, stored, root, tokens, q, p, m, kk);
    } else {
      EndMeetsPath(after, root, tokens, paths, q, p, m);
    }
  }

  /** The soundness half of insertion: after growing the trie only along
      `paths` and filing only `key`, at their ends, every query result was
      already a result (by id) before, or it is the record `key` names and
      the query reaches the end of one of the paths. */
  lemma QueryAfterInsert(before: seq<Node>, after: seq<Node>, stored: seq<Record>, root: Key,
                         paths: set<seq<Byte>>, key: Key, tokens: seq<seq<Byte>>, x: Record)
    requires Valid(before, stored) && Valid(after, stored) && root < |before|
    requires Extends(before, after) && GrownAlong(before, after, root, paths)
    requires FiledOnlyAt(before, after, root, paths, key)
    requires x in QueryRecords(after, stored, root, tokens)
    ensures || x.id in Ids(QueryRecords(before, stored, root, tokens))
            || (0 < key <= |stored| && x == stored[key - 1] && QueryMeetsPath(after, root, tokens, paths))
  {
    QueryRecordsSound(after, stored, root, tokens, x);
    var q, p :| && q in tokens
                && ChildDeep(after, root, q + p).Some?
                && x in Records(after, stored, ChildDeep(after, root, q + p).value);
    var m := ChildDeep(after, root, q + p).value;
    var kk := FiledKey(before, after, stored, root, paths, key, m, x);
    HeldOldOrNew(before, after, stored, root, paths, key, tokens, q, p, m, kk);
  }
}

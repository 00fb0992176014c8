/** The state-changing side of the second-generation index: the arena that
    holds the node table and the stored records (a process-wide global in
    the system, an explicit object here), and the index that inserts tokens
    into the trie rooted at one of its nodes. */
module LoupeIndex {
  import opened Base
  import opened Trie

  /** Every token of `s` is reached from `root` and, for a real record key,
      its end node holds the key or has a full bucket. */
  ghost predicate Reaches(nodes: seq<Node>, root: Key, s: string, tokenize: string -> seq<seq<Byte>>, key: Key)
    requires Linked(nodes) && root < |nodes|
  {
    forall t | t in tokenize(s) :: Reached(nodes, root, t, key)
  }

  /** What `insert(s, key)` promises against the tables `before` it ran:
      every token of `s` is stored in the sense of `Stored`. */
  ghost predicate Indexed(before: seq<Node>, after: seq<Node>, root: Key, s: string,
                          tokenize: string -> seq<seq<Byte>>, key: Key)
    requires Linked(after) && root < |after|
  {
    forall t | t in tokenize(s) :: Stored(before, after, root, t, key)
  }

  /** The tokens of `s`, as a set of byte paths. */
  ghost function Tokens(s: string, tokenize: string -> seq<seq<Byte>>): set<seq<Byte>>
  {
    set t | t in tokenize(s)
  }

  /** The tokens of every string value of `rec`. */
  ghost function ValueTokens(rec: Record, tokenize: string -> seq<seq<Byte>>): set<seq<Byte>>
  {
    set v, t | v in rec.values && v.Str? && t in tokenize(v.s) :: t
  }

  lemma ExtendsReaches(before: seq<Node>, after: seq<Node>, root: Key, s: string,
                       tokenize: string -> seq<seq<Byte>>, key: Key)
    requires Extends(before, after) && root < |before|
    requires Reaches(before, root, s, tokenize, key)
    ensures Reaches(after, root, s, tokenize, key)
  {
    forall t | t in tokenize(s)
      ensures Reached(after, root, t, key)
    {
      ExtendsReached(before, after, root, t, key);
    }
  }

  /** Reaching every token after changes that only added `key` means every
      token is stored: a full bucket without the key was full before and is
      unchanged. */
  lemma ReachesIndexed(before: seq<Node>, after: seq<Node>, root: Key, s: string,
                       tokenize: string -> seq<seq<Byte>>, key: Key)
    requires Linked(after) && root < |after|
    requires Reaches(after, root, s, tokenize, key) && AddsOnly(before, after, key)
    ensures Indexed(before, after, root, s, tokenize, key)
  {
    forall t | t in tokenize(s)
      ensures Stored(before, after, root, t, key)
    {
      ReachedStored(before, after, root, t, key);
    }
  }

  /** One byte of the fold of `insert` over `token`, at depth `j`: after
      `Follow` the trie still only grew along `token`, at most one node per
      byte so far, with no bucket changed, and the first `j + 1` bytes lead
      to the node `Follow` returned. */
  lemma FollowStep(start: seq<Node>, before: seq<Node>, after: seq<Node>, root: Key, token: seq<Byte>,
                   j: nat, from: Key, c: Key)
    requires root < |start| && j < |token|
    requires Extends(start, before) && SameBuckets(start, before) && |before| <= |start| + j
    requires GrownAlong(start, before, root, {token})
    requires ChildDeep(before, root, token[..j]) == Some(from)
    requires Extends(before, after) && SameBuckets(before, after) && ChildDeep(after, from, [token[j]]) == Some(c)
    requires before[from].children[token[j]] != NULL ==> after == before
    requires before[from].children[token[j]] == NULL ==>
      after == (before + [EMPTY_NODE])[from := before[from].(children := before[from].children[token[j] := |before|])]
    ensures Extends(start, after) && SameBuckets(start, after) && |after| <= |start| + j + 1
    ensures GrownAlong(start, after, root, {token})
    ensures ChildDeep(after, root, token[..j + 1]) == Some(c)
  {
    if before[from].children[token[j]] == NULL {
      LinkGrownAlong(before, after, root, token, j, from);
    } else {
      SameChildrenGrownAlong(before, after, root, {token});
    }
    GrownAlongTransitive(start, before, after, root, {token}, {token}, {token});
    ExtendsTransitive(start, before, after);
    SameBucketsTransitive(start, before, after);
    ExtendsChildDeep(before, after, root, token[..j]);
    ChildDeepAppend(after, root, token[..j], [token[j]]);
    assert token[..j + 1] == token[..j] + [token[j]];
  }

  /** Inserting one more batch of tokens `q`, all among `paths`, keeps the
      whole insertion growing only along `paths` and filing only `key`
      there. */
  lemma InsertStep(start: seq<Node>, before: seq<Node>, after: seq<Node>, root: Key,
                   paths: set<seq<Byte>>, q: set<seq<Byte>>, key: Key)
    requires root < |start| && q <= paths
    requires Extends(start, before) && AddsOnly(start, before, key)
    requires GrownAlong(start, before, root, paths) && FiledOnlyAt(start, before, root, paths, key)
    requires Extends(before, after) && AddsOnly(before, after, key)
    requires GrownAlong(before, after, root, q) && FiledOnlyAt(before, after, root, q, key)
    ensures Extends(start, after) && AddsOnly(start, after, key)
    ensures GrownAlong(start, after, root, paths) && FiledOnlyAt(start, after, root, paths, key)
  {
    GrownAlongTransitive(start, before, after, root, paths, q, paths);
    FiledTransitive(start, before, after, root, paths, q, paths, key);
    ExtendsTransitive(start, before, after);
    AddsOnlyTransitive(start, before, after, key);
  }

  /** Growth keeps the first `i` tokens of a list reached, and token `i`,
      reached last, joins them. */
  lemma ReachedGrow(before: seq<Node>, after: seq<Node>, root: Key, tokens: seq<seq<Byte>>, i: nat, key: Key)
    requires Extends(before, after) && root < |before| && i < |tokens|
    requires forall t | t in tokens[..i] :: Reached(before, root, t, key)
    requires Reached(after, root, tokens[i], key)
    ensures forall t | t in tokens[..i + 1] :: Reached(after, root, t, key)
  {
    assert tokens[..i + 1] == tokens[..i] + [tokens[i]];
    forall t | t in tokens[..i + 1]
      ensures Reached(after, root, t, key)
    {
      if t != tokens[i] {
        ExtendsReached(before, after, root, t, key);
      }
    }
  }

  /** Growth keeps the string values among the first `i` values reached,
      and value `i`, when a string reached last, joins them. */
  lemma ReachesGrow(before: seq<Node>, after: seq<Node>, root: Key, values: seq<Value>, i: nat,
                    tokenize: string -> seq<seq<Byte>>, key: Key)
    requires Extends(before, after) && root < |before| && i < |values|
    requires forall v | v in values[..i] && v.Str? :: Reaches(before, root, v.s, tokenize, key)
    requires values[i].Str? ==> Reaches(after, root, values[i].s, tokenize, key)
    ensures forall v | v in values[..i + 1] && v.Str? :: Reaches(after, root, v.s, tokenize, key)
    ensures values[..i + 1] == values[..i] + [values[i]] && values[i] in values[..i + 1]
  {
    assert values[..i + 1] == values[..i] + [values[i]];
    forall v | v in values[..i + 1] && v.Str?
      ensures Reaches(after, root, v.s, tokenize, key)
    {
      if v != values[i] {
        ExtendsReaches(before, after, root, v.s, tokenize, key);
      }
    }
  }

  /** A record key found in a node's populated bucket names one of that
      node's records. */
  lemma HeldRecord(nodes: seq<Node>, stored: seq<Record>, n: Key, key: Key)
    requires Trie.Valid(nodes, stored) && n < |nodes|
    requires key in Populated(nodes[n].records)
    ensures 0 < key <= |stored| && stored[key - 1] in Records(nodes, stored, n)
  {
    var keys := Populated(nodes[n].records);
    var i :| 0 <= i < |keys| && keys[i] == key;
    assert keys[i] == nodes[n].records[i];
    assert Records(nodes, stored, n)[i] == stored[key - 1];
  }

  /** What a query finds after an insertion: once a record key was stored
      from `before` at the end of token `q + suffix`, and that node's bucket
      had room before (or the node is new), every query with the token `q`
      finds the record, whatever the other query tokens are. The record that
      takes the last free slot is found too. */
  lemma InsertedIsFound(before: seq<Node>, nodes: seq<Node>, stored: seq<Record>, root: Key, token: seq<Byte>, key: Key,
                        tokens: seq<seq<Byte>>, q: seq<Byte>, suffix: seq<Byte>)
    requires Trie.Valid(nodes, stored) && root < |nodes|
    requires key != NULL && Stored(before, nodes, root, token, key)
    requires ChildDeep(nodes, root, token).value >= |before|
          || |Populated(before[ChildDeep(nodes, root, token).value].records)| < BUCKET
    requires q in tokens && token == q + suffix
    ensures 0 < key <= |stored|
    ensures stored[key - 1].id in Ids(QueryRecords(nodes, stored, root, tokens))
  {
    var m := ChildDeep(nodes, root, token).value;
    assert KeptAt(before, nodes, m, key);
    HeldRecord(nodes, stored, m, key);
    QueryRecordsComplete(nodes, stored, root, tokens, q, suffix, stored[key - 1]);
  }

  /** The arena that every index shares: the node table, keyed by arena key
      (key 0 doubles as the null key of child slots), and the stored records,
      record key k naming `stored[k - 1]`. */
  class NodeArena {
    var nodes: seq<Node>
    var stored: seq<Record>

    ghost predicate Valid()
      reads this
    {
      Trie.Valid(nodes, stored)
    }

    /** An empty arena. */
    constructor ()
      ensures Valid() && nodes == [] && stored == []
    {
      nodes := [];
      stored := [];
    }

    /** `alloc()`: a fresh zero-filled node under the next key. */
    method Alloc() returns (k: Key)
      requires Valid()
      modifies this
      ensures Valid()
      ensures k == |old(nodes)| && nodes == old(nodes) + [EMPTY_NODE] && stored == old(stored)
      ensures Extends(old(nodes), nodes)
    {
      AllocExtends(nodes, stored);
      k := |nodes|;
      nodes := nodes + [EMPTY_NODE];
    }

    /** `alloc_slice_copy(bytes)`: stores a copy of a record and returns its
        (non-null) record key. */
    method AllocSliceCopy(rec: Record) returns (k: Key)
      requires Valid()
      modifies this
      ensures Valid()
      ensures stored == old(stored) + [rec] && nodes == old(nodes)
      ensures k == |stored| && k != NULL && stored[k - 1] == rec
    {
      stored := stored + [rec];
      k := |stored|;
    }

    /** `add_child(b, child)`: overwrites child slot `b` of node `n`. The
        slot is written whatever it held; only a null slot is written by
        `insert`, and then the trie only grows. */
    method AddChild(n: Key, b: Byte, child: Key)
      requires Valid() && n < child < |nodes|
      modifies this
      ensures Valid() && stored == old(stored)
      ensures nodes == old(nodes)[n := old(nodes)[n].(children := old(nodes)[n].children[b := child])]
      ensures ChildDeep(nodes, n, [b]) == Some(child)
      ensures old(nodes)[n].children[b] == NULL ==> Extends(old(nodes), nodes)
    {
      LinkValid(nodes, stored, n, b, child);
      if nodes[n].children[b] == NULL {
        LinkExtends(nodes, stored, n, b, child);
      }
      nodes := nodes[n := nodes[n].(children := nodes[n].children[b := child])];
    }

    /** `add_record(key)`: scans the bucket of node `n` in slot order; stops
        at a slot already holding `key`, or claims the first null slot by
        compare-and-swap; a full bucket drops the key. */
    method AddRecord(n: Key, key: Key)
      requires Valid() && n < |nodes| && key <= |stored|
      modifies this
      ensures Valid() && stored == old(stored)
      ensures nodes == old(nodes)[n := old(nodes)[n].(records := AddToBucket(old(nodes)[n].records, key))]
      ensures Extends(old(nodes), nodes) && AddsOnly(old(nodes), nodes, key)
      ensures key != NULL ==> Holds(nodes, n, key)
    {
      AddRecordExtends(nodes, stored, n, key);
      AddRecordAddsOnly(nodes, n, key);
      ghost var bucket := nodes[n].records;
      var i := 0;
      while i < BUCKET
        invariant 0 <= i <= BUCKET
        invariant nodes == old(nodes)
        invariant forall j | 0 <= j < i :: bucket[j] != key && bucket[j] != NULL
      {
        var recordKey := nodes[n].records[i];
        if recordKey == key {
          assert StopAt(bucket, key, 0) == i;
          return;
        }
        // compare-and-swap of the slot from null to `key`
        var previous := nodes[n].records[i];
        if previous == NULL {
          nodes := nodes[n := nodes[n].(records := nodes[n].records[i := key])];
          assert StopAt(bucket, key, 0) == i;
          return;
        }
        i := i + 1;
      }
      assert StopAt(bucket, key, 0) == BUCKET;
    }
  }

  /** `Index`: the key of a root node in the shared arena. */
  class Index {
    const arena: NodeArena
    const root: Key

    ghost predicate Valid()
      reads this, arena
    {
      arena.Valid() && root < |arena.nodes|
    }

    /** `Index::new()`: allocates the root in the shared arena. */
    constructor (arena: NodeArena)
      requires arena.Valid()
      modifies arena
      ensures Valid() && this.arena == arena
      ensures root == |old(arena.nodes)| && arena.nodes == old(arena.nodes) + [EMPTY_NODE]
      ensures arena.stored == old(arena.stored)
    {
      this.arena := arena;
      var k := arena.Alloc();
      root := k;
    }

    /** One byte of `insert`: follows the child of `node` under `b`, or
        allocates a fresh node and links it there when the slot is null. */
    method Follow(node: Key, b: Byte) returns (c: Key)
      requires Valid() && node < |arena.nodes|
      modifies arena
      ensures Valid() && arena.stored == old(arena.stored)
      ensures Extends(old(arena.nodes), arena.nodes) && SameBuckets(old(arena.nodes), arena.nodes)
      ensures ChildDeep(arena.nodes, node, [b]) == Some(c)
      ensures old(arena.nodes)[node].children[b] != NULL ==>
        c == old(arena.nodes)[node].children[b] && arena.nodes == old(arena.nodes)
      ensures old(arena.nodes)[node].children[b] == NULL ==>
        && c == |old(arena.nodes)|
        && arena.nodes == (old(arena.nodes) + [EMPTY_NODE])[node := old(arena.nodes)[node].(children := old(arena.nodes)[node].children[b := c])]
    {
      match Child(arena.nodes, node, b) {
        case Some(existing) =>
          c := existing;
          assert [b][1..] == [];
          ExtendsReflexive(arena.nodes);
        case None =>
          ghost var before := arena.nodes;
          c := arena.Alloc();
          ghost var grown := arena.nodes;
          arena.AddChild(node, b, c);
          ExtendsTransitive(before, grown, arena.nodes);
          LinkFreshKeepsBuckets(before, node, b);
      }
    }

    /** The fold of `insert` over one token's bytes: follows existing
        children and allocates and links a fresh node under each null slot
        met on the way. Returns the node at the end of the token. */
    method Descend(token: seq<Byte>) returns (node: Key)
      requires Valid()
      modifies arena
      ensures Valid() && arena.stored == old(arena.stored)
      ensures Extends(old(arena.nodes), arena.nodes) && SameBuckets(old(arena.nodes), arena.nodes)
      ensures ChildDeep(arena.nodes, root, token) == Some(node)
      ensures GrownAlong(old(arena.nodes), arena.nodes, root, {token})
      ensures |arena.nodes| <= |old(arena.nodes)| + |token|
    {
      node := root;
      var j := 0;
      ExtendsReflexive(arena.nodes);
      SameChildrenGrownAlong(arena.nodes, arena.nodes, root, {token});
      while j < |token|
        invariant j <= |token|
        invariant Valid() && arena.stored == old(arena.stored)
        invariant Extends(old(arena.nodes), arena.nodes) && SameBuckets(old(arena.nodes), arena.nodes)
        invariant ChildDeep(arena.nodes, root, token[..j]) == Some(node)
        invariant GrownAlong(old(arena.nodes), arena.nodes, root, {token})
        invariant |arena.nodes| <= |old(arena.nodes)| + j
      {
        var b := token[j];
        ghost var before := arena.nodes;
        ghost var from := node;
        node := Follow(node, b);
        FollowStep(old(arena.nodes), before, arena.nodes, root, token, j, from, node);
        j := j + 1;
      }
      assert token[..j] == token;
    }

    /** The body of `insert` for one token: walks (and grows) its path, then
        adds the record key to the node at its end. */
    method InsertToken(token: seq<Byte>, recordKey: Key)
      requires Valid() && recordKey <= |arena.stored|
      modifies arena
      ensures Valid() && arena.stored == old(arena.stored)
      ensures Extends(old(arena.nodes), arena.nodes) && AddsOnly(old(arena.nodes), arena.nodes, recordKey)
      ensures Reached(arena.nodes, root, token, recordKey)
      ensures Stored(old(arena.nodes), arena.nodes, root, token, recordKey)
      ensures GrownAlong(old(arena.nodes), arena.nodes, root, {token})
      ensures FiledOnlyAt(old(arena.nodes), arena.nodes, root, {token}, recordKey)
      ensures |arena.nodes| <= |old(arena.nodes)| + |token|
    {
      var node := Descend(token);
      ghost var walked := arena.nodes;
      SameBucketsAddsOnly(old(arena.nodes), walked, recordKey);
      SameBucketsFiled(old(arena.nodes), walked, root, {token}, recordKey);
      AddRecordFiled(walked, arena.stored, root, token, node, recordKey);
      arena.AddRecord(node, recordKey);
      SameChildrenGrownAlong(walked, arena.nodes, root, {token});
      GrownAlongTransitive(old(arena.nodes), walked, arena.nodes, root, {token}, {token}, {token});
      FiledTransitive(old(arena.nodes), walked, arena.nodes, root, {token}, {token}, {token}, recordKey);
      ExtendsTransitive(old(arena.nodes), walked, arena.nodes);
      ExtendsChildDeep(walked, arena.nodes, root, token);
      AddsOnlyTransitive(old(arena.nodes), walked, arena.nodes, recordKey);
      ReachedStored(old(arena.nodes), arena.nodes, root, token, recordKey);
    }

    /** `insert(key, record_key)`: every token of `key` gets its byte path
        from the root, and the node at its end gets the record key. */
    method Insert(key: string, recordKey: Key, tokenize: string -> seq<seq<Byte>>)
      requires Valid() && recordKey <= |arena.stored|
      modifies arena
      ensures Valid() && arena.stored == old(arena.stored)
      ensures Extends(old(arena.nodes), arena.nodes) && AddsOnly(old(arena.nodes), arena.nodes, recordKey)
      ensures Reaches(arena.nodes, root, key, tokenize, recordKey)
      ensures Indexed(old(arena.nodes), arena.nodes, root, key, tokenize, recordKey)
      ensures GrownAlong(old(arena.nodes), arena.nodes, root, Tokens(key, tokenize))
      ensures FiledOnlyAt(old(arena.nodes), arena.nodes, root, Tokens(key, tokenize), recordKey)
    {
      var tokens := tokenize(key);
      ghost var paths := Tokens(key, tokenize);
      var i := 0;
      SameChildrenGrownAlong(arena.nodes, arena.nodes, root, paths);
      SameBucketsFiled(arena.nodes, arena.nodes, root, paths, recordKey);
      while i < |tokens|
        invariant i <= |tokens|
        invariant Valid() && arena.stored == old(arena.stored)
        invariant Extends(old(arena.nodes), arena.nodes) && AddsOnly(old(arena.nodes), arena.nodes, recordKey)
        invariant forall t | t in tokens[..i] :: Reached(arena.nodes, root, t, recordKey)
        invariant GrownAlong(old(arena.nodes), arena.nodes, root, paths)
        invariant FiledOnlyAt(old(arena.nodes), arena.nodes, root, paths, recordKey)
      {
        ghost var before := arena.nodes;
        InsertToken(tokens[i], recordKey);
        assert {tokens[i]} <= paths;
        InsertStep(old(arena.nodes), before, arena.nodes, root, paths, {tokens[i]}, recordKey);
        ReachedGrow(before, arena.nodes, root, tokens, i, recordKey);
        i := i + 1;
      }
      assert tokens[..i] == tokens;
      ReachesIndexed(old(arena.nodes), arena.nodes, root, key, tokenize, recordKey);
    }

    /** `add_record_slice(bytes)`: stores the record once, then inserts each
        string attribute value under that one record key; other values are
        not indexed. */
    method AddRecordSlice(rec: Record, tokenize: string -> seq<seq<Byte>>)
      requires Valid()
      modifies arena
      ensures Valid() && arena.stored == old(arena.stored) + [rec]
      ensures Extends(old(arena.nodes), arena.nodes) && AddsOnly(old(arena.nodes), arena.nodes, |arena.stored|)
      ensures forall v | v in rec.values && v.Str? ::
        Indexed(old(arena.nodes), arena.nodes, root, v.s, tokenize, |arena.stored|)
      ensures (forall v | v in rec.values :: v.Other?) ==> arena.nodes == old(arena.nodes)
      ensures GrownAlong(old(arena.nodes), arena.nodes, root, ValueTokens(rec, tokenize))
      ensures FiledOnlyAt(old(arena.nodes), arena.nodes, root, ValueTokens(rec, tokenize), |arena.stored|)
    {
      var stored := arena.AllocSliceCopy(rec);
      ghost var paths := ValueTokens(rec, tokenize);
      var i := 0;
      SameChildrenGrownAlong(arena.nodes, arena.nodes, root, paths);
      SameBucketsFiled(arena.nodes, arena.nodes, root, paths, stored);
      while i < |rec.values|
        invariant i <= |rec.values|
        invariant Valid() && arena.stored == old(arena.stored) + [rec]
        invariant Extends(old(arena.nodes), arena.nodes) && AddsOnly(old(arena.nodes), arena.nodes, stored)
        invariant forall v | v in rec.values[..i] && v.Str? :: Reaches(arena.nodes, root, v.s, tokenize, stored)
        invariant (forall v | v in rec.values[..i] :: v.Other?) ==> arena.nodes == old(arena.nodes)
        invariant GrownAlong(old(arena.nodes), arena.nodes, root, paths)
        invariant FiledOnlyAt(old(arena.nodes), arena.nodes, root, paths, stored)
      {
        var value := rec.values[i];
        ghost var before := arena.nodes;
        if value.Str? {
          Insert(value.s, stored, tokenize);
          forall t | t in Tokens(value.s, tokenize)
            ensures t in paths
          {
            assert value in rec.values;
          }
          InsertStep(old(arena.nodes), before, arena.nodes, root, paths, Tokens(value.s, tokenize), stored);
        }
        ReachesGrow(before, arena.nodes, root, rec.values, i, tokenize, stored);
        i := i + 1;
      }
      assert rec.values[..i] == rec.values;
      forall v | v in rec.values && v.Str?
        ensures Indexed(old(arena.nodes), arena.nodes, root, v.s, tokenize, stored)
      {
        ReachesIndexed(old(arena.nodes), arena.nodes, root, v.s, tokenize, stored);
      }
    }
  }
}

# loupe — a Dafny model of the trie index and its arenas

loupe is a small full-text search service. Records are JSON documents. Each
string attribute of a record is cut into tokens. Each token is inserted, byte
by byte, into a 256-ary trie whose nodes live in memory-mapped arenas. A query
tokenizes its text and walks the trie for each token. It then collects every
record held at or below the node where each token ends, and keeps one record
per id.

The repository holds two generations of the index, and both are modelled:

- **The second generation** (`loupe/src/index.rs`, `loupe/src/arena.rs`).
  - A node holds 256 child keys and a bucket of 256 stored-record keys.
  - Nodes and record bytes live in a byte arena. The arena's cursor moves
    forward on every request, granted or not.
  - Modules:
    - `Trie` is the pure side: child lookup, deep lookup, children, the
      records of a subtree, the bucket append rule, and the queries.
    - `LoupeIndex` is the state-changing side: the arena's node table as an
      object, plus insertion.
    - `AtomicArena` is the byte arena and its typed wrapper.
- **The first generation** (`src/index.rs`, `src/arena.rs`,
  `src/mem/store.rs`).
  - The trie is keyed by the four big-endian bytes of every code point of
    every word.
  - Its nodes live in a bump allocator that panics when the mapping is
    exhausted.
  - A pre-order iterator lists the nodes with their paths, and an edge
    listing is built on top of it.
  - Modules:
    - `Node256Index` models the index, the `Nodes` iterator and the edges.
    - `BumpArena` models the allocator.
    - `SlotStore` models the fixed slot store.

`Base` holds the shared value types: `Option`, `Result`, `Byte`, `Record` and
the byte overwrite `Splice`.

Modelling choices:

- Arena handles are modelled as numbers. A trie node's key is its index in a
  node table. A stored record's key is its 1-based position in the record
  table, and key 0 is the null key.
- A mapped region is an `array` of bytes when its bytes matter (`Store`, the
  byte `Arena`). Otherwise it is a cursor and the grants it has made.
- Memory exhaustion, which the first generation reports with a panic, is an
  `Err` result.
- A trie is valid when every child key is larger than its parent's key.
  Fresh nodes always come after their parent, so this invariant holds, and it
  is what makes every walk and traversal terminate.

## Model

| member | source | states |
|---|---|---|
| Base.Splice | loupe/src/arena.rs:27 | copying bytes into a range of a region puts exactly those bytes in the range and leaves every other byte unchanged |
| BumpArena.SlotsDisjoint | src/arena.rs:27-28 | fixed-size slots handed out from offset 0 in order never overlap: slot i ends no later than slot j starts, for i < j |
| BumpArena.SlotStart | src/arena.rs:27-28 | each slot begins exactly where the slot before it ends: i + 1 slots of t_size end t_size bytes after slot i starts |
| BumpArena.Arena.constructor | src/arena.rs:13-20 | a new arena has the given mapping length, `size_of::<T>()` slots, offset 0 and no slot handed out |
| BumpArena.Arena.Alloc | src/arena.rs:22-30 | allocation fails (the OOM panic) exactly when offset + t_size reaches the mapping length, and then nothing changes; otherwise it returns the old offset, which is slot number k times t_size, and advances the offset by t_size |
| BumpArena.HandedOutDisjoint | src/arena.rs:22-30 | any two slots an arena has handed out are disjoint, and both lie below its current offset |
| AtomicArena.Step | loupe/src/arena.rs:34-41 | one cursor advance grants the old cursor exactly when cursor + step is below the mapping length, and moves the cursor by step either way |
| AtomicArena.Run | loupe/src/arena.rs:34-41 | a run of requests has one outcome per request |
| AtomicArena.RunGrants | loupe/src/arena.rs:34-41 | request i of a run is granted exactly when the sizes of requests 0..i end below the mapping; its grant is the start cursor plus the sizes of all earlier requests, refused ones included |
| AtomicArena.FailureIsSticky | loupe/src/arena.rs:35-37 | once a request is refused, every later request is refused too |
| AtomicArena.GrantsDisjoint | loupe/src/arena.rs:34-41 | granted ranges never overlap, come in increasing order, and lie inside the mapping |
| AtomicArena.TypedLayout | loupe/src/arena.rs:60-62 | on a typed arena, alloc number i is granted exactly when (i + 1) * t_size is below the mapping length, and then sits at offset i * t_size |
| AtomicArena.Arena.constructor | loupe/src/arena.rs:12-17 | a new arena is a zero-filled mapping of the given size with the cursor at 0 |
| AtomicArena.Arena.AdvanceOffset | loupe/src/arena.rs:34-41 | the outcome and the new cursor are exactly one `Step` from the old cursor |
| AtomicArena.Arena.Alloc | loupe/src/arena.rs:19-22 | alloc is one `Step`, and a granted range lies inside the mapping |
| AtomicArena.Arena.Store | loupe/src/arena.rs:24-32 | the cursor moves by the byte count. The store succeeds exactly when the range fits below the mapping length; it then returns the bounds (old cursor, old cursor + len), the range holds the bytes and no other byte changes. A refused store changes no byte |
| AtomicArena.TypedArena.constructor | loupe/src/arena.rs:51-58 | a new typed arena has a fresh byte arena of the given size, t_size, and no allocation made |
| AtomicArena.TypedArena.Alloc | loupe/src/arena.rs:60-62 | alloc number k is granted exactly when (k + 1) * t_size is below the mapping length, and then returns k * t_size |
| SlotStore.MulMonotonic | src/mem/store.rs:33-35 | slot offsets grow with the slot index |
| SlotStore.Offset | src/mem/store.rs:33-35 | every slot offset is a multiple of size_of, and the slot index is recovered from its offset by dividing by size_of |
| SlotStore.SlotInBounds | src/mem/store.rs:16-35 | every slot below len lies inside the len * size_of mapping |
| SlotStore.SlotsDisjoint | src/mem/store.rs:33-35 | distinct slots occupy disjoint byte ranges |
| SlotStore.ChunkAt | src/mem/store.rs:21-25 | a slot's bytes are size_of long |
| SlotStore.WriteAt | src/mem/store.rs:27-31 | writing through a slot keeps the mapping's length |
| SlotStore.WriteThenRead | src/mem/store.rs:21-31 | reading a slot after writing a value through it gives back the value, and every other slot reads as before |
| SlotStore.Store.constructor | src/mem/store.rs:12-19 | a new store is a zero-filled mapping of len * size_of bytes |
| SlotStore.Store.Chunk | src/mem/store.rs:21-25 | `chunk(index)` is the size_of bytes starting at `offset(index)` |
| SlotStore.Store.WriteChunk | src/mem/store.rs:27-31 | a write through `chunk_mut(index)` sets that slot's bytes, leaves every other slot as it was, and changes the mapping exactly by the spliced slot |
| Trie.Child | loupe/src/index.rs:27-29 | the child under a byte exists exactly when the slot is non-null, and is then the slot's node |
| Trie.ChildDeep | loupe/src/index.rs:32-34 | a deep lookup ends at a node allocated no earlier than the start, and strictly later for a non-empty path |
| Trie.ChildDeepAppend | loupe/src/index.rs:32-34 | a lookup along a + b is the lookup along a followed by the lookup along b |
| Trie.ChildDeepStopsAtMissing | loupe/src/index.rs:33 | once a byte of the path has no child, the whole lookup is absent |
| Trie.ChildrenFrom | loupe/src/index.rs:37-47 | the listing from slot i holds exactly the non-null slots at or after i, with their child nodes, in increasing byte order |
| Trie.Children | loupe/src/index.rs:37-47 | `children()` lists exactly the non-null child slots with their nodes, in increasing byte order |
| Trie.ChildrenDeep | loupe/src/index.rs:50-56 | every node listed below a node was allocated after it |
| Trie.DeepOf | loupe/src/index.rs:54 | every node in the flattened listing of a node's children was allocated after that node and is in the table |
| Trie.DeepOfContains | loupe/src/index.rs:54 | each listed child appears, followed by its own deep listing |
| Trie.ReachableIsDescendant | loupe/src/index.rs:50-56 | every node reached by a non-empty path is listed by `children_deep`, under the path's last byte |
| Trie.DescendantIsReachable | loupe/src/index.rs:50-56 | every node `children_deep` lists is reached by some non-empty path ending in the listed byte |
| Trie.DeepOfReachable | loupe/src/index.rs:54 | every node in the flattened listing of direct children is reachable by a path ending in its byte |
| Trie.BelowChildReachable | loupe/src/index.rs:54 | a node listed below a direct child is reachable from the parent through that child |
| Trie.StepDown | loupe/src/index.rs:33 | a lookup of b followed by p equals the lookup of p from the child under b |
| Trie.Populated | loupe/src/index.rs:77 | the take-while-non-null prefix of a bucket holds only non-null keys and stops at the first null |
| Trie.Lookup | loupe/src/index.rs:78-81 | decoding a list of record keys yields one stored record per key |
| Trie.Records | loupe/src/index.rs:73-82 | `records()` yields one stored record per populated bucket slot, so at most 256 |
| Trie.PopulatedIsNonNull | loupe/src/index.rs:77 | in a gap-free bucket, a slot is non-null exactly when it is inside the populated prefix |
| Trie.LookupSnoc | loupe/src/index.rs:78-81 | decoding one more key appends that key's record |
| Trie.RecordsOfContains | loupe/src/index.rs:89 | the records of every listed node are among the records collected over the listing |
| Trie.RecordsOfFrom | loupe/src/index.rs:89 | every record collected over a listing comes from some listed node |
| Trie.RecordsOf | loupe/src/index.rs:89 | the records collected over a listing of children are all stored records |
| Trie.RecordsDeep | loupe/src/index.rs:85-91 | `records_deep` yields stored records only, and the node's own records come first, in bucket order |
| Trie.SubtreeRecords | loupe/src/index.rs:85-91 | `records_deep` of a node contains the records of every node reachable from it |
| Trie.RecordsDeepSound | loupe/src/index.rs:85-91 | every record `records_deep` yields is held by the node itself or by some node reachable from it |
| Trie.StopAt | loupe/src/index.rs:59-69 | the append scan stops at the first slot that holds the key or is null, and passes only non-null slots holding other keys |
| Trie.AddToBucket | loupe/src/index.rs:58-70 | appending keeps the bucket's size |
| Trie.AddPresent | loupe/src/index.rs:60-62 | appending a key already in the bucket changes nothing |
| Trie.AddAbsent | loupe/src/index.rs:63-68 | appending a new non-null key to a bucket with room claims the first null slot, so the populated prefix grows by exactly that key |
| Trie.ScanStopsAtFirstNull | loupe/src/index.rs:59-69 | for a key not in the bucket, the scan stops exactly at the end of the populated prefix |
| Trie.ClaimFirstNull | loupe/src/index.rs:63-67 | writing a key into the first null slot extends the populated prefix by that key |
| Trie.AddToFull | loupe/src/index.rs:59-69 | appending to a full bucket silently drops the key |
| Trie.PopulatedPrefix | loupe/src/index.rs:77 | the populated prefix is exactly the run of non-null slots before the first null |
| Trie.AddKeepsBucketValid | loupe/src/index.rs:58-70 | appending keeps a bucket gap-free and free of duplicates, with all keys naming stored records |
| Trie.AddExtends | loupe/src/index.rs:58-70 | appending only extends the populated prefix; a non-null key is then in the bucket unless the bucket was full |
| Trie.RecordsAfterAdd | loupe/src/index.rs:58-82 | after a new record key is added to a bucket with room, `records()` of the node yields the old records followed by the new one, in insertion order |
| Trie.ExtendsTransitive | loupe/src/index.rs:131-149 | growing the trie in several steps is growing it |
| Trie.ExtendsChildDeep | loupe/src/index.rs:137-143 | once a path exists, growing the trie never changes where it leads |
| Trie.ExtendsReached | loupe/src/index.rs:131-149 | as the trie grows, a token that led to a node holding the record key, or to a full bucket, still does |
| Trie.AllocExtends | loupe/src/index.rs:140 | allocating a fresh empty node keeps the tables valid and changes no existing node |
| Trie.LinkValid | loupe/src/index.rs:139-143 | linking a later-allocated node under a byte keeps the trie valid, and the byte then leads to that node |
| Trie.LinkExtends | loupe/src/index.rs:139-143 | filling a null child slot only grows the trie |
| Trie.AddRecordExtends | loupe/src/index.rs:147 | adding a record key keeps the tables valid and only grows the trie, and the node then holds the key or its bucket is full |
| Trie.SetBucketExtends | loupe/src/index.rs:58-70 | replacing a bucket by a valid extension of it keeps the tables valid and only grows the trie |
| Trie.SetBucketValid | loupe/src/index.rs:58-70 | replacing a bucket by a valid extension of it keeps the tables valid |
| Trie.SetBucketGrows | loupe/src/index.rs:58-70 | replacing a bucket by a valid extension of it only grows the trie |
| Trie.SetBucketNodes | loupe/src/index.rs:58-70 | after replacing one bucket, every bucket is valid and extends its old contents |
| Trie.SetBucketLinked | loupe/src/index.rs:58-70 | replacing a bucket keeps every child slot of every node |
| Trie.SameChildrenGrownAlong | loupe/src/index.rs:147 | a change that touches no child slot and adds no node grows the trie along any paths at all |
| Trie.LinkGrownAlong | loupe/src/index.rs:139-143 | allocating a node and linking it under the next byte of a token, at the node its first bytes reach, grows the trie only along that token: the one new node and the one filled slot lie on its path |
| Trie.GrownAlongTransitive | loupe/src/index.rs:131-149 | two growths, each along its own paths, make one growth along any set holding both sets of paths |
| Trie.SameBucketsFiled | loupe/src/index.rs:133-146 | a change that leaves every bucket as it was files no record key anywhere |
| Trie.AddOnlyKey | loupe/src/index.rs:58-70 | appending a key to a bucket populates no key but that one that was not there before |
| Trie.AddRecordFiled | loupe/src/index.rs:147 | adding a record key at the node where a token ends files that key there and nowhere else |
| Trie.FiledTransitive | loupe/src/index.rs:131-149 | two steps that each file only the key, at the end nodes of their own paths, file only the key at the end nodes of either set of paths |
| Trie.OldPathKept | loupe/src/index.rs:133-146 | when growth only fills slots with fresh nodes, a path that now leads from an old node to another old node led there before too |
| Trie.OldHeldFound | loupe/src/index.rs:160-165 | a record held at an old node that a query token, extended, reaches after such a growth was already found by the query before |
| Trie.FiledKey | loupe/src/index.rs:58-82 | each record of a node after an insertion is the record of a key the node held before, or the inserted key at the end node of an inserted token |
| Trie.HeldOldOrNew | loupe/src/index.rs:131-165 | such a record is either already found by the query before, or it is the inserted key and the query reaches the end node of an inserted token |
| Trie.QueryAfterInsert | loupe/src/index.rs:131-165 | after an insertion that grows the trie only along the inserted tokens and files only the record key at their end nodes, every query result has the id of a result before, or is the inserted record and the query reaches the end node of an inserted token |
| Trie.SameBucketsTransitive | loupe/src/index.rs:133-146 | several fold steps that each leave every bucket alone (old buckets unchanged, new nodes empty) together leave every bucket alone |
| Trie.AddsOnlyTransitive | loupe/src/index.rs:131-149 | several inserts of one record key, each of which changes a bucket only by giving it that key, together change buckets only that way |
| Trie.LinkFreshKeepsBuckets | loupe/src/index.rs:139-143 | allocating a fresh node and linking it under a byte changes no bucket, and the new node's bucket is empty |
| Trie.AddRecordAddsOnly | loupe/src/index.rs:58-70 | `add_record` changes no bucket except by leaving the key in it |
| Trie.ReachedStored | loupe/src/index.rs:131-149 | a token that leads to a node holding the key, or to a full bucket, where buckets only gained the key, leads to a node holding the key or to a bucket already full and unchanged before |
| Trie.FullBucketDrops | loupe/src/index.rs:59-69 | a key offered to a bucket that was already full without it is still absent afterwards |
| Trie.QueryNodes | loupe/src/index.rs:151-158 | `query_nodes` yields exactly the query tokens that lead to a node, each with that node |
| Trie.QueryNodesAppend | loupe/src/index.rs:153-157 | the matches of a + b are the matches of a followed by those of b, so the matches come in token order |
| Trie.CollectContains | loupe/src/index.rs:163 | the records collected over the matches include `records_deep` of every matched node |
| Trie.CollectFrom | loupe/src/index.rs:163 | every collected record comes from `records_deep` of some matched node |
| Trie.Collect | loupe/src/index.rs:163 | the records gathered over all the matches are all stored records |
| Trie.UniqueFrom | loupe/src/index.rs:164 | filtering by unseen ids keeps the first record of each id not yet seen, and no id twice |
| Trie.UniqueById | loupe/src/index.rs:164 | `unique_by(id)` keeps exactly the ids of its input, once each, and for each id its first record |
| Trie.QueryRecordsComplete | loupe/src/index.rs:160-165 | a record held at any node reached by a query token followed by any suffix has its id in the query's results |
| Trie.QueryRecordsSound | loupe/src/index.rs:160-165 | every result is held at or below the node of some query token, and no two results share an id |
| Trie.QueryRecords | loupe/src/index.rs:160-165 | a query yields stored records only, and no two of them share an id |
| LoupeIndex.ExtendsReaches | loupe/src/index.rs:131-149 | as the trie grows, a string whose tokens each led to a node holding the record key, or to a full bucket, keeps that property |
| LoupeIndex.InsertStep | loupe/src/index.rs:131-149 | inserting one more token keeps the growth of the whole insertion along its tokens, and keeps the record key the only key filed, at their end nodes |
| LoupeIndex.ReachesIndexed | loupe/src/index.rs:131-149 | if every token leads to a node holding the key or a full bucket, and buckets only gained the key, then every token is stored for the key against the trie before the insert |
| LoupeIndex.HeldRecord | loupe/src/index.rs:73-82 | a key in a node's populated bucket names a stored record, which `records()` of the node yields |
| LoupeIndex.InsertedIsFound | loupe/src/index.rs:131-165 | a record inserted under a token is found by every query that contains a prefix of that token, whenever the token's node is new or its bucket had room before the insert (the record that takes the last slot included) |
| LoupeIndex.NodeArena.constructor | loupe/src/index.rs:9-11 | the arena starts with no nodes and no stored records |
| LoupeIndex.NodeArena.Alloc | loupe/src/index.rs:140 | alloc appends a fresh empty node and returns its key, changing no existing node |
| LoupeIndex.NodeArena.AllocSliceCopy | loupe/src/index.rs:122 | copying a record's bytes stores it under a fresh non-null key |
| LoupeIndex.NodeArena.AddChild | loupe/src/index.rs:21-24 | `add_child` sets exactly that child slot, after which the byte leads to the child; filling a null slot only grows the trie |
| LoupeIndex.NodeArena.AddRecord | loupe/src/index.rs:58-70 | the bucket becomes `AddToBucket` of the old one, so the trie only grows, the node holds the key unless its bucket was full, and no bucket changes except by gaining the key |
| LoupeIndex.Index.constructor | loupe/src/index.rs:116-119 | a new index allocates a fresh empty root node |
| LoupeIndex.Index.Follow | loupe/src/index.rs:135-145 | for an existing child, that child is returned and nothing changes; for a null slot, a fresh empty node is appended at the end of the table and linked under the byte, and nothing else changes |
| LoupeIndex.Index.Descend | loupe/src/index.rs:133-146 | the fold over a token's bytes ends at the node the token leads to from the root; it only grows the trie, changes no bucket and adds at most one node per byte, and every new node and every filled child slot lies on the token's path |
| LoupeIndex.Index.InsertToken | loupe/src/index.rs:132-148 | after a token is inserted, it leads from the root to a node that holds the record key, or whose bucket was already full before and is unchanged; the trie grows only along the token's path, by at most one node per byte; the only key any bucket gains is the record key, and only at the token's end node |
| LoupeIndex.Index.Insert | loupe/src/index.rs:131-149 | every token of the string leads to a node that holds the record key, unless that node's bucket was already full before; the trie only grows, new nodes and filled child slots lie on the tokens' paths, and the only key any bucket gains is the record key, at the end node of a token |
| LoupeIndex.Index.AddRecordSlice | loupe/src/index.rs:121-129 | the record is stored once under a new key; every token of every string value leads to a node holding that key unless its bucket was already full before; new nodes and filled child slots lie on the paths of those tokens, the only key any bucket gains is the new one, at the end node of such a token, and a record with no string value changes no node |
| Node256Index.ExtendsTransitive | src/index.rs:63-79 | growing the trie in several steps is growing it |
| Node256Index.GrownAlongTransitive | src/index.rs:63-79 | two growths, each along its own paths, make one growth along any set holding both sets of paths |
| Node256Index.StepGrown | src/index.rs:68-75 | one byte of `insert` grows the trie only along the word's path, by at most one node, and the path's next prefix then leads to the node it returned |
| Node256Index.WordStep | src/index.rs:66-76 | seen from the start of the word, each byte keeps the trie grown only along the word's path, by at most one node per byte so far, with the bytes so far leading to the current node |
| Node256Index.CodePointBytes | src/index.rs:67 | `to_be_bytes` of a code point is four bytes whose big-endian value is the code point |
| Node256Index.WordPath | src/index.rs:66-67 | a word's path is four bytes per character |
| Node256Index.WordPathAt | src/index.rs:66-67 | the path of a word starts with the path of its first i characters, and the next four bytes are the bytes of character i |
| Node256Index.CodePointBytesInjective | src/index.rs:67 | distinct characters have distinct byte sequences |
| Node256Index.WordPathInjective | src/index.rs:66-67 | distinct words have distinct paths |
| Node256Index.Walk | src/index.rs:68-75 | following a path ends at a node allocated no earlier than the start |
| Node256Index.WalkAppend | src/index.rs:66-76 | following a + b is following a, then b |
| Node256Index.ExtendsWalk | src/index.rs:68-75 | once a path exists, growing the trie never changes where it leads |
| Node256Index.WalkCons | src/index.rs:68-70 | following b then p is following p from the child under b |
| Node256Index.Entries | src/index.rs:134-149 | the child entries of a node name nodes allocated after it |
| Node256Index.EntriesSound | src/index.rs:139-147 | each child entry is (path + [b], the child under b) for a non-null slot b, and the entries come in increasing byte order |
| Node256Index.EntriesComplete | src/index.rs:139-147 | every non-null child slot has its entry |
| Node256Index.PreOrder | src/index.rs:81-152 | the pre-order listing starts with the node itself under its own path |
| Node256Index.Forest | src/index.rs:134-149 | every node in the listing of a node's subtrees was allocated after that node and is in the table |
| Node256Index.ForestContains | src/index.rs:134-149 | every entry of each subtree's pre-order appears in the subtrees' listing |
| Node256Index.PreOrderComplete | src/index.rs:81-152 | every node reachable by a path p is listed, under path + p |
| Node256Index.PreOrderSound | src/index.rs:81-152 | every listed entry's path extends the start path, and following the extra bytes from the start leads to the listed node |
| Node256Index.ForestSound | src/index.rs:134-149 | every entry in the listing of a set of subtrees lies under one of their paths |
| Node256Index.DistinctConcat | src/index.rs:128-152 | two listings with distinct paths and no shared path combine into one with distinct paths |
| Node256Index.PreOrderDistinct | src/index.rs:81-152 | the pre-order listing never repeats a path |
| Node256Index.ForestDistinct | src/index.rs:134-149 | the listing of subtrees under distinct bytes never repeats a path |
| Node256Index.SubtreesApart | src/index.rs:134-149 | the first subtree shares no path with the later ones |
| Node256Index.PairApart | src/index.rs:134-149 | an entry of the first subtree and an entry of a later subtree have different paths |
| Node256Index.Reverse | src/index.rs:148 | reversing keeps the length, and element i of the result is element n - 1 - i of the input |
| Node256Index.PushReversed | src/index.rs:134-149 | pushing a node's entries in reverse puts their subtrees, in increasing byte order, ahead of what was already pending |
| Node256Index.ReverseCons | src/index.rs:148 | reversing a non-empty list puts its head last |
| Node256Index.PendingPush | src/index.rs:84-134 | pushing an entry onto the stack puts its whole pre-order ahead of what was pending |
| Node256Index.Pending | src/index.rs:125-152 | the iterator has entries left exactly when its stack is non-empty, and it yields the top of the stack next |
| Node256Index.EdgesOf | src/index.rs:89-107 | every edge from a node starts at that node and ends at one of its child entries |
| Node256Index.EdgesFromContains | src/index.rs:89 | the edges of every listed node are among the edges |
| Node256Index.EdgesFrom | src/index.rs:89 | every edge produced from a listing starts at a listed node and is one of that node's child edges |
| Node256Index.Edges | src/index.rs:88-108 | every edge starts at a node of the pre-order listing from the root and is one of that node's child edges |
| Node256Index.EdgesSound | src/index.rs:88-108 | every edge starts at a node reached by its path and ends at the child under one more byte |
| Node256Index.EdgesComplete | src/index.rs:88-108 | every non-null child slot of every reachable node is an edge |
| Node256Index.Index.constructor | src/index.rs:45-52 | a new index holds one empty root node in the arena's first slot |
| Node256Index.Index.NewNode | src/index.rs:72 | a node is allocated exactly when the arena has room for one more 2048-byte node; it lands in the next slot and is empty |
| Node256Index.Index.Step | src/index.rs:68-75 | an existing child is returned and nothing changes; for a null slot, a fresh empty node is appended at the end of the table and linked under the byte, and nothing else changes, or the step fails with out of memory and changes nothing |
| Node256Index.Index.InsertChar | src/index.rs:67-76 | the four bytes of one character extend the path by four bytes: on success they lead to the returned node; the trie grows by at most four nodes, only along the path; the only failure is an exhausted arena |
| Node256Index.Index.InsertWord | src/index.rs:65-77 | on success, the word's code-point path leads from the root to the returned node; in every case the trie only grows, by at most four nodes per character, and every new node and every filled pointer lies on the word's path; the only failure is an exhausted arena |
| Node256Index.Index.Insert | src/index.rs:63-79 | on success (only then), every word of the key has its path from the root; in every case the trie only grows, by at most four nodes per character of the words, and every new node and every filled pointer lies on one of the words' paths; the only failure is an exhausted arena |
| Node256Index.Index.AddRecordSlice | src/index.rs:54-61 | on success, every word of every string value has its path from the root; in every case the trie grows by at most four nodes per character of those words, and only along their paths; a record with no string value changes nothing |
| Node256Index.Nodes.constructor | src/index.rs:81-86 | the iterator starts with the root under the empty path on its stack and nothing yielded |
| Node256Index.Nodes.Next | src/index.rs:131-151 | each call yields the next entry of the root's pre-order; an empty stack yields none |
| Node256Index.Nodes.PushChildren | src/index.rs:134-149 | the node's child entries are pushed onto the stack in reverse byte order |
| Node256Index.PopStep | src/index.rs:132-149 | popping the top and pushing its children leaves the top's pre-order minus the top, followed by the rest |
| Node256Index.FreshTrie | src/index.rs:45-52 | a fresh trie lists only its root |
| Node256Index.NoEntries | src/index.rs:45-52 | an empty node has no child entries |

## Left out

- Record parsing (`serde_json`) and the panic on a malformed record are not modelled. A record is its id and its attribute values. The order in which a `HashMap` yields those values is taken as a sequence.
- The tokenizer (`tokenize`) and `unicode_words` are not part of this model. Each is a function parameter of the inserting method.
- The atomics are modelled sequentially: the arena cursor's fetch-and-add and the compare-and-swap of `add_record` and `add_child`. Concurrent interleavings are not modelled.
- The global `ARENA` of `loupe/src/index.rs` is an explicit `NodeArena` object passed to the index.
- The loupe arena API that `loupe/src/index.rs` calls (`alloc`, `get`, `atomic`, `alloc_slice_copy`) is not part of this model. It is replaced by a key-indexed node table plus a record table; its out-of-memory path is not modelled.
- LoupeIndex.NodeArena.AddChild: the source passes the slot's current value to `atomic`, not the slot's address. The model writes the slot, which is the evident intent.
- LoupeIndex.NodeArena.AddChild requires the child to be allocated after the parent. Every caller passes a fresh node, and this is what keeps the trie acyclic.
- LoupeIndex.NodeArena.AddRecord: the source passes the slot's current value to `atomic_slice`, not the slot's address. The model claims the slot, which is the evident intent.
- Raw pointers and the mapped memory behind them are not modelled. Neither are the `isize` casts, negative steps or overflow: all sizes are `nat`. A failure to map memory (`unwrap`) is not modelled.
- Node256Index.Index: the source panics with "OOM" when the arena is full. The model returns an `Err` result instead, and the trie keeps the nodes made before the failure.
- Node256Index.PreOrderDistinct: the iterator is proved to list every reachable node, under the right path, and never to repeat a path. That no node sits under two paths (a tree rather than a DAG) is not stated as a lemma about the listing. Node256Index.Index.Step states that every node it links is fresh, appended at the end of the table.
- Trie.QueryAfterInsert: a new result is shown to sit at the end node of an inserted token that some query token, extended, also reaches. That the query token is then a prefix of the inserted token would need every node to sit under one path only (a tree rather than a DAG), which is not stated.
- Node256Index.EdgesComplete: edges are proved sound and complete. Their multiplicity (exactly one pair per non-null slot) is not stated.
- The `debug!` and `println!` traces are not modelled; they are output only.
- The `Serialize` impl for `Node`, the `query` stub of `src/index.rs`, and `TypedArena::at` / `at_mut` are not modelled. They are formatting or pointer dereferences.
- `src/store.rs` and `src/mem/graph.rs` are not part of this model.
- The arena has no sentinel allocation: its cursor starts at 0 (loupe/src/arena.rs:15). Every node has 256 record slots (loupe/src/index.rs:16).

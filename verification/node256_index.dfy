/** The first-generation index: a 256-ary trie of `Node256` nodes carved out
    of a typed bump arena, keyed by the big-endian bytes of each character's
    code point. A node is named by the number of its arena slot (slot k sits
    at byte offset k * NODE_SIZE); a null child pointer is `None`. */
module Node256Index {
  import opened Base
  import BumpArena

  /** Child pointers per node: one per byte value. */
  const FANOUT: nat := 256
  /** `size_of::<Node256>()`: 256 pointers of 8 bytes. */
  const NODE_SIZE: nat := 2048
  /** Length of the mapping `Index::new` asks for. */
  const MAPPED: nat := 1_000_000

  datatype Node256 = Node256(children: seq<Option<nat>>)

  /** A freshly allocated node: the mapping is zero-filled, so every child
      pointer is null. */
  const EMPTY_NODE: Node256 := Node256(seq(FANOUT, _ => None))

  /** Every node has its 256 child pointers, and every non-null pointer names
      a node allocated after its parent. */
  ghost predicate Linked(nodes: seq<Node256>)
  {
    forall k | 0 <= k < |nodes| ::
      && |nodes[k].children| == FANOUT
      && forall b | 0 <= b < FANOUT :: nodes[k].children[b].Some? ==> k < nodes[k].children[b].value < |nodes|
  }

  /** `after` only grows `before`: nodes may be appended and null pointers
      filled, but no existing edge changes. */
  ghost predicate Extends(before: seq<Node256>, after: seq<Node256>)
  {
    && Linked(before) && Linked(after) && |before| <= |after|
    && forall k, b | 0 <= k < |before| && 0 <= b < FANOUT && before[k].children[b].Some? ::
         after[k].children[b] == before[k].children[b]
  }

  lemma ExtendsTransitive(a: seq<Node256>, b: seq<Node256>, c: seq<Node256>)
    requires Extends(a, b) && Extends(b, c)
    ensures Extends(a, c)
  {
  }

  // ---------------------------------------------------------------------
  // Keys

  /** `(c as u32).to_be_bytes()`: the four bytes of a code point, most
      significant first. */
  function CodePointBytes(c: char): (r: seq<Byte>)
    ensures |r| == 4
    ensures (r[0] as int) * 0x100_0000 + (r[1] as int) * 0x1_0000 + (r[2] as int) * 0x100 + (r[3] as int) == c as int
  {
    var n := c as int;
    var q1 := n / 0x100;
    var q2 := q1 / 0x100;
    var q3 := q2 / 0x100;
    [q3, q2 % 0x100, q1 % 0x100, n % 0x100]
  }

  /** The byte path of a word: the code-point bytes of its characters, in
      order. */
  function WordPath(w: string): (r: seq<Byte>)
    ensures |r| == 4 * |w|
  {
    if w == [] then [] else WordPath(w[..|w| - 1]) + CodePointBytes(w[|w| - 1])
  }

  /** Distinct characters have distinct byte groups. */
  lemma CodePointBytesInjective(c: char, d: char)
    requires CodePointBytes(c) == CodePointBytes(d)
    ensures c == d
  {
    assert c as int == d as int;
  }

  /** Distinct words have distinct paths: the path determines the word. */
  lemma {:induction false} WordPathInjective(v: string, w: string)
    requires WordPath(v) == WordPath(w)
    ensures v == w
    decreases |v|
  {
    if v != [] {
      var pv, pw := WordPath(v[..|v| - 1]), WordPath(w[..|w| - 1]);
      var cv, cw := CodePointBytes(v[|v| - 1]), CodePointBytes(w[|w| - 1]);
      assert pv + cv == pw + cw;
      assert pv == (pv + cv)[..|pv|] && pw == (pw + cw)[..|pw|];
      assert cv == (pv + cv)[|pv|..] && cw == (pw + cw)[|pw|..];
      WordPathInjective(v[..|v| - 1], w[..|w| - 1]);
      CodePointBytesInjective(v[|v| - 1], w[|w| - 1]);
      assert v == v[..|v| - 1] + [v[|v| - 1]];
      assert w == w[..|w| - 1] + [w[|w| - 1]];
    }
  }

  // ---------------------------------------------------------------------
  // Paths

  /** The node reached from `n` by following `path`, absent as soon as a
      pointer on the way is null. */
  function Walk(nodes: seq<Node256>, n: nat, path: seq<Byte>): (r: Option<nat>)
    requires Linked(nodes) && n < |nodes|
    ensures r.Some? ==> n <= r.value < |nodes|
    decreases |path|
  {
    if path == [] then Some(n)
    else
      match nodes[n].children[path[0]]
      case None => None
      case Some(c) => Walk(nodes, c, path[1..])
  }

  /** Walking `a + b` is walking `a`, then `b` from where `a` ends. */
  lemma {:induction false} WalkAppend(nodes: seq<Node256>, n: nat, a: seq<Byte>, b: seq<Byte>)
    requires Linked(nodes) && n < |nodes|
    ensures Walk(nodes, n, a + b) ==
      match Walk(nodes, n, a)
      case None => None
      case Some(m) => Walk(nodes, m, b)
    decreases |a|
  {
    if a == [] {
      assert a + b == b;
    } else {
      assert (a + b)[0] == a[0] && (a + b)[1..] == a[1..] + b;
      match nodes[n].children[a[0]]
      case None =>
      case Some(c) => WalkAppend(nodes, c, a[1..], b);
    }
  }

  /** Existing paths survive growth, to the same node. */
  lemma {:induction false} ExtendsWalk(before: seq<Node256>, after: seq<Node256>, n: nat, path: seq<Byte>)
    requires Extends(before, after) && n < |before|
    requires Walk(before, n, path).Some?
    ensures Walk(after, n, path) == Walk(before, n, path)
    decreases |path|
  {
    if path != [] {
      ExtendsWalk(before, after, before[n].children[path[0]].value, path[1..]);
    }
  }

  /** One step down a non-null pointer. */
  lemma WalkCons(nodes: seq<Node256>, n: nat, b: Byte, p: seq<Byte>)
    requires Linked(nodes) && n < |nodes| && nodes[n].children[b].Some?
    ensures Walk(nodes, n, [b] + p) == Walk(nodes, nodes[n].children[b].value, p)
  {
    var q := [b] + p;
    assert q[0] == b && q[1..] == p;
  }

  lemma ExtendByHead<T>(path: seq<T>, p: seq<T>)
    requires p != []
    ensures (path + [p[0]]) + p[1..] == path + p
  {
  }

  /** When `x` is `path` plus one element and `e` starts with `x`, `e`
      starts with `path`, followed by that element and the rest of `e`. */
  lemma PrefixStep<T>(path: seq<T>, x: seq<T>, e: seq<T>)
    requires |x| == |path| + 1 && x[..|path|] == path
    requires |x| <= |e| && e[..|x|] == x
    ensures e[..|path|] == path && e[|path|] == x[|path|]
    ensures e[|path|..] == [x[|path|]] + e[|x|..]
  {
    assert e[..|path|] == e[..|x|][..|path|];
  }

  // ---------------------------------------------------------------------
  // Pre-order traversal

  /** The children of node `n` under the slots from `i` on, in ascending
      byte order, each with its path (`path` extended by the slot's byte). */
  function Entries(nodes: seq<Node256>, path: seq<Byte>, n: nat, i: nat): (r: seq<(seq<Byte>, nat)>)
    requires Linked(nodes) && n < |nodes| && i <= FANOUT
    ensures forall e | e in r :: n < e.1 < |nodes|
    decreases FANOUT - i
  {
    if i == FANOUT then []
    else
      var rest := Entries(nodes, path, n, i + 1);
      match nodes[n].children[i]
      case None => rest
      case Some(c) => [(path + [i as Byte], c)] + rest
  }

  /** Each entry is a child of `n` under its path's last byte, and the
      entries come in ascending byte order. */
  lemma {:induction false} EntriesSound(nodes: seq<Node256>, path: seq<Byte>, n: nat, i: nat)
    requires Linked(nodes) && n < |nodes| && i <= FANOUT
    ensures forall e | e in Entries(nodes, path, n, i) ::
      && |e.0| == |path| + 1 && e.0[..|path|] == path && i <= e.0[|path|]
      && nodes[n].children[e.0[|path|]] == Some(e.1)
    ensures forall p, q | 0 <= p < q < |Entries(nodes, path, n, i)| ::
      Entries(nodes, path, n, i)[p].0[|path|] < Entries(nodes, path, n, i)[q].0[|path|]
    decreases FANOUT - i
  {
    if i < FANOUT {
      EntriesSound(nodes, path, n, i + 1);
      var e := (path + [i as Byte], 0);
      assert e.0[..|path|] == path && e.0[|path|] == i;
    }
  }

  /** Every non-null pointer from slot `i` on is among the entries. */
  lemma {:induction false} EntriesComplete(nodes: seq<Node256>, path: seq<Byte>, n: nat, i: nat, b: Byte)
    requires Linked(nodes) && n < |nodes| && i <= b
    requires nodes[n].children[b].Some?
    ensures (path + [b], nodes[n].children[b].value) in Entries(nodes, path, n, i)
    decreases FANOUT - i
  {
    if i < b {
      EntriesComplete(nodes, path, n, i + 1, b);
    }
  }

  /** The pre-order listing of the subtree under `n`, reached by `path`:
      the node, then each child's subtree in ascending byte order. */
  function PreOrder(nodes: seq<Node256>, path: seq<Byte>, n: nat): (r: seq<(seq<Byte>, nat)>)
    requires Linked(nodes) && n < |nodes|
    ensures r != [] && r[0] == (path, n)
    ensures forall e | e in r :: n <= e.1 < |nodes|
    decreases |nodes| - n, 1
  {
    [(path, n)] + Forest(nodes, n, Entries(nodes, path, n, 0))
  }

  /** The subtrees of the entries `es` (children of `parent`), one after
      the other. */
  function Forest(nodes: seq<Node256>, parent: nat, es: seq<(seq<Byte>, nat)>): (r: seq<(seq<Byte>, nat)>)
    requires Linked(nodes) && parent < |nodes|
    requires forall e | e in es :: parent < e.1 < |nodes|
    ensures forall e | e in r :: parent < e.1 < |nodes|
    decreases |nodes| - parent, 0, |es|
  {
    if es == [] then [] else PreOrder(nodes, es[0].0, es[0].1) + Forest(nodes, parent, es[1..])
  }

  lemma {:induction false} ForestContains(nodes: seq<Node256>, parent: nat, es: seq<(seq<Byte>, nat)>, y: (seq<Byte>, nat), x: (seq<Byte>, nat))
    requires Linked(nodes) && parent < |nodes|
    requires forall e | e in es :: parent < e.1 < |nodes|
    requires y in es && x in PreOrder(nodes, y.0, y.1)
    ensures x in Forest(nodes, parent, es)
    decreases |es|
  {
    var head := PreOrder(nodes, es[0].0, es[0].1);
    assert forall e | e in es[1..] :: e in es;
    var rest := Forest(nodes, parent, es[1..]);
    assert Forest(nodes, parent, es) == head + rest;
    if y == es[0] {
      InLeft(head, rest);
    } else {
      assert es == [es[0]] + es[1..];
      ForestContains(nodes, parent, es[1..], y, x);
      InRight(head, rest);
    }
  }

  /** Every node reached from `n` by `p` is listed, with path `path + p`. */
  lemma {:induction false} PreOrderComplete(nodes: seq<Node256>, path: seq<Byte>, n: nat, p: seq<Byte>)
    requires Linked(nodes) && n < |nodes|
    requires Walk(nodes, n, p).Some?
    ensures (path + p, Walk(nodes, n, p).value) in PreOrder(nodes, path, n)
    decreases |p|
  {
    if p == [] {
      assert path + p == path;
    } else {
      var b := p[0];
      var c := nodes[n].children[b].value;
      var es := Entries(nodes, path, n, 0);
      EntriesComplete(nodes, path, n, 0, b);
      var i :| 0 <= i < |es| && es[i] == (path + [b], c);
      WalkCons(nodes, n, b, p[1..]);
      assert [b] + p[1..] == p;
      PreOrderComplete(nodes, path + [b], c, p[1..]);
      ExtendByHead(path, p);
      ForestContains(nodes, n, es, es[i], (path + p, Walk(nodes, n, p).value));
    }
  }

  /** Every listed entry is reached from `n` by the part of its path after
      `path`. */
  lemma {:induction false} PreOrderSound(nodes: seq<Node256>, path: seq<Byte>, n: nat, e: (seq<Byte>, nat))
    requires Linked(nodes) && n < |nodes|
    requires e in PreOrder(nodes, path, n)
    ensures |path| <= |e.0| && e.0[..|path|] == path
    ensures Walk(nodes, n, e.0[|path|..]) == Some(e.1)
    decreases |nodes| - n, 1
  {
    if e == (path, n) {
      assert e.0[|path|..] == [];
    } else {
      EntriesSound(nodes, path, n, 0);
      ForestSound(nodes, path, n, Entries(nodes, path, n, 0), 0, e);
    }
  }

  lemma {:induction false} ForestSound(nodes: seq<Node256>, path: seq<Byte>, n: nat, es: seq<(seq<Byte>, nat)>,
                                       lo: nat, e: (seq<Byte>, nat))
    requires Linked(nodes) && n < |nodes|
    requires forall x | x in es :: |x.0| == |path| + 1 && x.0[..|path|] == path && nodes[n].children[x.0[|path|]] == Some(x.1)
    requires forall x | x in es :: lo <= x.0[|path|]
    requires e in Forest(nodes, n, es)
    ensures |path| < |e.0| && e.0[..|path|] == path && lo <= e.0[|path|]
    ensures Walk(nodes, n, e.0[|path|..]) == Some(e.1)
    decreases |nodes| - n, 0, |es|
  {
    var x := es[0];
    assert x in es;
    if e in PreOrder(nodes, x.0, x.1) {
      PreOrderSound(nodes, x.0, x.1, e);
      PrefixStep(path, x.0, e.0);
      WalkCons(nodes, n, x.0[|path|], e.0[|x.0|..]);
    } else {
      assert forall y | y in es[1..] :: y in es;
      ForestSound(nodes, path, n, es[1..], lo, e);
    }
  }

  /** Paths are listed at most once each. */
  ghost predicate DistinctPaths(s: seq<(seq<Byte>, nat)>)
  {
    forall i, j | 0 <= i < j < |s| :: s[i].0 != s[j].0
  }

  lemma DistinctConcat(a: seq<(seq<Byte>, nat)>, b: seq<(seq<Byte>, nat)>)
    requires DistinctPaths(a) && DistinctPaths(b)
    requires forall x, y | x in a && y in b :: x.0 != y.0
    ensures DistinctPaths(a + b)
  {
    var s := a + b;
    forall i, j | 0 <= i < j < |s|
      ensures s[i].0 != s[j].0
    {
      if i < |a| && j >= |a| {
        assert s[i] in a && s[j] in b;
      }
    }
  }

  /** The traversal lists every path once. */
  lemma {:induction false} PreOrderDistinct(nodes: seq<Node256>, path: seq<Byte>, n: nat)
    requires Linked(nodes) && n < |nodes|
    ensures DistinctPaths(PreOrder(nodes, path, n))
    decreases |nodes| - n, 1
  {
    var es := Entries(nodes, path, n, 0);
    EntriesSound(nodes, path, n, 0);
    ForestDistinct(nodes, path, n, es);
    forall y | y in Forest(nodes, n, es)
      ensures y.0 != path
    {
      ForestSound(nodes, path, n, es, 0, y);
    }
    DistinctConcat([(path, n)], Forest(nodes, n, es));
  }

  lemma {:induction false} ForestDistinct(nodes: seq<Node256>, path: seq<Byte>, n: nat, es: seq<(seq<Byte>, nat)>)
    requires Linked(nodes) && n < |nodes|
    requires forall x | x in es :: |x.0| == |path| + 1 && x.0[..|path|] == path && nodes[n].children[x.0[|path|]] == Some(x.1)
    requires forall p, q | 0 <= p < q < |es| :: es[p].0[|path|] < es[q].0[|path|]
    requires forall x | x in es :: n < x.1 < |nodes|
    ensures DistinctPaths(Forest(nodes, n, es))
    decreases |nodes| - n, 0, |es|
  {
    if es != [] {
      var x := es[0];
      assert x in es;
      PreOrderDistinct(nodes, x.0, x.1);
      assert forall y | y in es[1..] :: y in es;
      ForestDistinct(nodes, path, n, es[1..]);
      SubtreesApart(nodes, path, n, es);
      DistinctConcat(PreOrder(nodes, x.0, x.1), Forest(nodes, n, es[1..]));
    }
  }

  /** An entry under the first child and one under a later child have
      different paths: they differ at the byte after `path`. */
  lemma SubtreesApart(nodes: seq<Node256>, path: seq<Byte>, n: nat, es: seq<(seq<Byte>, nat)>)
    requires Linked(nodes) && n < |nodes| && es != []
    requires forall x | x in es :: |x.0| == |path| + 1 && x.0[..|path|] == path && nodes[n].children[x.0[|path|]] == Some(x.1)
    requires forall p, q | 0 <= p < q < |es| :: es[p].0[|path|] < es[q].0[|path|]
    requires forall x | x in es :: n < x.1 < |nodes|
    ensures forall u, v | u in PreOrder(nodes, es[0].0, es[0].1) && v in Forest(nodes, n, es[1..]) :: u.0 != v.0
  {
    var x := es[0];
    assert x in es;
    assert forall y | y in es[1..] :: y in es;
    forall u, v | u in PreOrder(nodes, x.0, x.1) && v in Forest(nodes, n, es[1..])
      ensures u.0 != v.0
    {
      PairApart(nodes, path, n, es, u, v);
    }
  }

  lemma PairApart(nodes: seq<Node256>, path: seq<Byte>, n: nat, es: seq<(seq<Byte>, nat)>,
                  u: (seq<Byte>, nat), v: (seq<Byte>, nat))
    requires Linked(nodes) && n < |nodes| && es != []
    requires forall x | x in es :: |x.0| == |path| + 1 && x.0[..|path|] == path && nodes[n].children[x.0[|path|]] == Some(x.1)
    requires forall p, q | 0 <= p < q < |es| :: es[p].0[|path|] < es[q].0[|path|]
    requires forall x | x in es :: n < x.1 < |nodes|
    requires u in PreOrder(nodes, es[0].0, es[0].1) && v in Forest(nodes, n, es[1..])
    ensures u.0 != v.0
  {
    var x := es[0];
    assert x in es;
    PreOrderSound(nodes, x.0, x.1, u);
    TailAbove(path, es);
    assert forall y | y in es[1..] :: y in es;
    ForestSound(nodes, path, n, es[1..], x.0[|path|] + 1, v);
    assert u.0[..|x.0|][|path|] == x.0[|path|];
  }

  /** In an ascending list of entries, every entry after the first has a
      greater byte after `path` than the first. */
  lemma TailAbove(path: seq<Byte>, es: seq<(seq<Byte>, nat)>)
    requires es != [] && forall x | x in es :: |x.0| == |path| + 1
    requires forall p, q | 0 <= p < q < |es| :: es[p].0[|path|] < es[q].0[|path|]
    ensures forall y | y in es[1..] :: es[0].0[|path|] < y.0[|path|]
  {
    forall y | y in es[1..]
      ensures es[0].0[|path|] < y.0[|path|]
    {
      var j :| 0 <= j < |es[1..]| && es[1..][j] == y;
      assert es[j + 1] == y;
    }
  }

  /** What a stack of pending entries will still yield: the subtree of the
      top entry, then those of the entries below it. */
  function Pending(nodes: seq<Node256>, stack: seq<(seq<Byte>, nat)>): (r: seq<(seq<Byte>, nat)>)
    requires Linked(nodes)
    requires forall e | e in stack :: e.1 < |nodes|
    ensures stack == [] <==> r == []
    ensures stack != [] ==> r[0] == stack[|stack| - 1]
    decreases |stack|
  {
    if stack == [] then []
    else
      var top := stack[|stack| - 1];
      PreOrder(nodes, top.0, top.1) + Pending(nodes, stack[..|stack| - 1])
  }

  function Reverse<T>(s: seq<T>): (r: seq<T>)
    ensures |r| == |s|
    ensures forall i | 0 <= i < |s| :: r[i] == s[|s| - 1 - i]
    ensures forall x | x in r :: x in s
  {
    if s == [] then [] else Reverse(s[1..]) + [s[0]]
  }

  /** Pushing children in reverse puts the first child on top: the stack
      then yields the children's subtrees in order, then what it yielded
      before. */
  lemma {:induction false} PushReversed(nodes: seq<Node256>, parent: nat, base: seq<(seq<Byte>, nat)>, es: seq<(seq<Byte>, nat)>)
    requires Linked(nodes) && parent < |nodes|
    requires forall e | e in es :: parent < e.1 < |nodes|
    requires forall e | e in base :: e.1 < |nodes|
    ensures forall e | e in base + Reverse(es) :: e.1 < |nodes|
    ensures Pending(nodes, base + Reverse(es)) == Forest(nodes, parent, es) + Pending(nodes, base)
    decreases |es|
  {
    if es == [] {
      assert base + Reverse(es) == base;
    } else {
      assert forall y | y in es[1..] :: y in es;
      var rest := base + Reverse(es[1..]);
      PushReversed(nodes, parent, base, es[1..]);
      ReverseCons(base, es);
      PendingPush(nodes, rest, es[0]);
      var head, tail, below := PreOrder(nodes, es[0].0, es[0].1), Forest(nodes, parent, es[1..]), Pending(nodes, base);
      assert Forest(nodes, parent, es) == head + tail;
      AppendAssoc(head, tail, below);
    }
  }

  lemma ReverseCons<T>(base: seq<T>, s: seq<T>)
    requires s != []
    ensures base + Reverse(s) == (base + Reverse(s[1..])) + [s[0]]
  {
    assert Reverse(s) == Reverse(s[1..]) + [s[0]];
    AppendAssoc(base, Reverse(s[1..]), [s[0]]);
  }

  /** Pushing one entry puts its subtree in front of what the stack
      yielded. */
  lemma PendingPush(nodes: seq<Node256>, stack: seq<(seq<Byte>, nat)>, x: (seq<Byte>, nat))
    requires Linked(nodes) && x.1 < |nodes|
    requires forall e | e in stack :: e.1 < |nodes|
    ensures forall e | e in stack + [x] :: e.1 < |nodes|
    ensures Pending(nodes, stack + [x]) == PreOrder(nodes, x.0, x.1) + Pending(nodes, stack)
  {
    var s := stack + [x];
    assert s[..|s| - 1] == stack;
  }

  // ---------------------------------------------------------------------
  // Edges

  /** The edges out of one listed node: one per non-null pointer, in
      ascending byte order, the child's path being the parent's plus the
      byte. */
  function EdgesOf(nodes: seq<Node256>, path: seq<Byte>, n: nat): (r: seq<((seq<Byte>, nat), (seq<Byte>, nat))>)
    requires Linked(nodes) && n < |nodes|
    ensures forall d | d in r :: d.0 == (path, n) && d.1 in Entries(nodes, path, n, 0)
  {
    var es := Entries(nodes, path, n, 0);
    seq(|es|, i requires 0 <= i < |es| => ((path, n), es[i]))
  }

  /** The edges out of every listed node, node by node. */
  function EdgesFrom(nodes: seq<Node256>, listed: seq<(seq<Byte>, nat)>): (r: seq<((seq<Byte>, nat), (seq<Byte>, nat))>)
    requires Linked(nodes)
    requires forall e | e in listed :: e.1 < |nodes|
    ensures forall d | d in r :: d.0 in listed && d in EdgesOf(nodes, d.0.0, d.0.1)
  {
    if listed == [] then []
    else EdgesOf(nodes, listed[0].0, listed[0].1) + EdgesFrom(nodes, listed[1..])
  }

  /** `edges()`: the edges out of every node, in the order `nodes()` visits
      them. */
  function Edges(nodes: seq<Node256>, root: nat): (r: seq<((seq<Byte>, nat), (seq<Byte>, nat))>)
    requires Linked(nodes) && root < |nodes|
    ensures forall d | d in r :: d.0 in PreOrder(nodes, [], root) && d in EdgesOf(nodes, d.0.0, d.0.1)
  {
    EdgesFrom(nodes, PreOrder(nodes, [], root))
  }

  lemma {:induction false} EdgesFromContains(nodes: seq<Node256>, listed: seq<(seq<Byte>, nat)>, x: (seq<Byte>, nat))
    requires Linked(nodes)
    requires forall e | e in listed :: e.1 < |nodes|
    requires x in listed
    ensures forall d | d in EdgesOf(nodes, x.0, x.1) :: d in EdgesFrom(nodes, listed)
  {
    if listed[0] != x {
      EdgesFromContains(nodes, listed[1..], x);
    }
  }

  /** Every edge joins a node reachable by its path to the child under one
      of its non-null pointers, whose path is the parent's plus that byte. */
  lemma EdgesSound(nodes: seq<Node256>, root: nat, d: ((seq<Byte>, nat), (seq<Byte>, nat)))
    requires Linked(nodes) && root < |nodes|
    requires d in Edges(nodes, root)
    ensures Walk(nodes, root, d.0.0) == Some(d.0.1)
    ensures |d.1.0| == |d.0.0| + 1 && d.1.0[..|d.0.0|] == d.0.0
    ensures nodes[d.0.1].children[d.1.0[|d.0.0|]] == Some(d.1.1)
  {
    PreOrderSound(nodes, [], root, d.0);
    assert d.0.0[0..] == d.0.0;
    EntriesSound(nodes, d.0.0, d.0.1, 0);
  }

  /** Every non-null pointer of every reachable node is an edge. */
  lemma EdgesComplete(nodes: seq<Node256>, root: nat, p: seq<Byte>, b: Byte)
    requires Linked(nodes) && root < |nodes|
    requires Walk(nodes, root, p).Some?
    requires nodes[Walk(nodes, root, p).value].children[b].Some?
    ensures ((p, Walk(nodes, root, p).value), (p + [b], nodes[Walk(nodes, root, p).value].children[b].value))
            in Edges(nodes, root)
  {
    var k := Walk(nodes, root, p).value;
    var listed := PreOrder(nodes, [], root);
    PreOrderComplete(nodes, [], root, p);
    assert [] + p == p;
    EdgesFromContains(nodes, listed, (p, k));
    var es := Entries(nodes, p, k, 0);
    var e := (p + [b], nodes[k].children[b].value);
    EntriesComplete(nodes, p, k, 0, b);
    var i :| 0 <= i < |es| && es[i] == e;
    assert EdgesOf(nodes, p, k)[i] == ((p, k), e);
  }

  // ---------------------------------------------------------------------
  // What an insertion leaves alone

  /** Child pointer `b` of node `k` as it was in `before`: null for a node
      allocated since. */
  ghost function OldChild(before: seq<Node256>, k: nat, b: Byte): Option<nat>
    requires Linked(before)
  {
    if k < |before| then before[k].children[b] else None
  }

  /** Node `k` lies on one of `paths` from `root`. */
  ghost predicate OnPaths(nodes: seq<Node256>, root: nat, paths: set<seq<Byte>>, k: nat)
    requires Linked(nodes) && root < |nodes|
  {
    exists t, j | t in paths && 0 <= j <= |t| :: Walk(nodes, root, t[..j]) == Some(k)
  }

  /** Child pointer `b` of node `k` is a step of one of `paths` from
      `root`. */
  ghost predicate SlotOnPaths(nodes: seq<Node256>, root: nat, paths: set<seq<Byte>>, k: nat, b: Byte)
    requires Linked(nodes) && root < |nodes|
  {
    exists t, j | t in paths && 0 <= j < |t| :: Walk(nodes, root, t[..j]) == Some(k) && t[j] == b
  }

  /** From `before` to `after` the trie grew only along `paths`: every new
      node and every changed pointer lies on one of them, and a changed
      pointer leads to a new node. */
  ghost predicate GrownAlong(before: seq<Node256>, after: seq<Node256>, root: nat, paths: set<seq<Byte>>)
    requires Linked(before) && Linked(after) && root < |after|
  {
    && (forall k | |before| <= k < |after| :: OnPaths(after, root, paths, k))
    && (forall k, b: Byte | 0 <= k < |after| && after[k].children[b] != OldChild(before, k, b) ::
          && after[k].children[b].Some? && |before| <= after[k].children[b].value
          && SlotOnPaths(after, root, paths, k, b))
  }

  lemma OnPathsGrow(b: seq<Node256>, c: seq<Node256>, root: nat, paths: set<seq<Byte>>, wider: set<seq<Byte>>, k: nat)
    requires Extends(b, c) && root < |b| && paths <= wider
    requires OnPaths(b, root, paths, k)
    ensures OnPaths(c, root, wider, k)
  {
    var t, j :| t in paths && 0 <= j <= |t| && Walk(b, root, t[..j]) == Some(k);
    ExtendsWalk(b, c, root, t[..j]);
    assert t in wider;
  }

  lemma SlotOnPathsGrow(b: seq<Node256>, c: seq<Node256>, root: nat, paths: set<seq<Byte>>, wider: set<seq<Byte>>, k: nat, x: Byte)
    requires Extends(b, c) && root < |b| && paths <= wider
    requires SlotOnPaths(b, root, paths, k, x)
    ensures SlotOnPaths(c, root, wider, k, x)
  {
    var t, j :| t in paths && 0 <= j < |t| && Walk(b, root, t[..j]) == Some(k) && t[j] == x;
    ExtendsWalk(b, c, root, t[..j]);
    assert t in wider;
  }

  /** Growth along paths composes, under any set holding both sets of
      paths. */
  lemma GrownAlongTransitive(a: seq<Node256>, b: seq<Node256>, c: seq<Node256>, root: nat,
                             p: set<seq<Byte>>, q: set<seq<Byte>>, r: set<seq<Byte>>)
    requires Extends(a, b) && Extends(b, c) && root < |a| && p <= r && q <= r
    requires GrownAlong(a, b, root, p) && GrownAlong(b, c, root, q)
    ensures GrownAlong(a, c, root, r)
  {
    forall k | |a| <= k < |c|
      ensures OnPaths(c, root, r, k)
    {
      if k < |b| {
        OnPathsGrow(b, c, root, p, r, k);
      } else {
        OnPathsGrow(c, c, root, q, r, k);
      }
    }
    forall k, x: Byte | 0 <= k < |c| && c[k].children[x] != OldChild(a, k, x)
      ensures c[k].children[x].Some? && |a| <= c[k].children[x].value && SlotOnPaths(c, root, r, k, x)
    {
      if c[k].children[x] != OldChild(b, k, x) {
        SlotOnPathsGrow(c, c, root, q, r, k, x);
      } else {
        assert k < |b|;
        SlotOnPathsGrow(b, c, root, p, r, k, x);
      }
    }
  }

  /** The byte paths of a list of words. */
  ghost function WordPaths(ws: seq<string>): set<seq<Byte>>
  {
    set w | w in ws :: WordPath(w)
  }

  /** The byte paths of the words of every string value of `rec`. */
  ghost function ValuePaths(rec: Record, words: string -> seq<string>): set<seq<Byte>>
  {
    set v, w | v in rec.values && v.Str? && w in words(v.s) :: WordPath(w)
  }

  /** The number of characters in a list of words. */
  function Letters(ws: seq<string>): (r: nat)
    ensures ws != [] ==> |ws[0]| <= r
  {
    if ws == [] then 0 else |ws[0]| + Letters(ws[1..])
  }

  /** The words from `i` on have the letters of word `i` and those of the
      words after it. */
  lemma LettersDrop(ws: seq<string>, i: nat)
    requires i < |ws|
    ensures Letters(ws[i..]) == |ws[i]| + Letters(ws[i + 1..])
  {
    assert ws[i..][1..] == ws[i + 1..];
  }

  /** The number of characters in the words of the string values of a
      list of attribute values. */
  function ValueLetters(values: seq<Value>, words: string -> seq<string>): (r: nat)
    ensures values != [] && values[0].Str? ==> Letters(words(values[0].s)) <= r
  {
    if values == [] then 0
    else (if values[0].Str? then Letters(words(values[0].s)) else 0) + ValueLetters(values[1..], words)
  }

  /** The values from `i` on have the letters of value `i`, if it is a
      string, and those of the values after it. */
  lemma ValueLettersDrop(values: seq<Value>, words: string -> seq<string>, i: nat)
    requires i < |values|
    ensures ValueLetters(values[i..], words)
         == (if values[i].Str? then Letters(words(values[i].s)) else 0) + ValueLetters(values[i + 1..], words)
  {
    assert values[i..][1..] == values[i + 1..];
  }

  /** Growth keeps the paths of the first `i` words, and word `i`, whose
      path exists afterwards, joins them. */
  lemma WalksGrow(before: seq<Node256>, after: seq<Node256>, root: nat, ws: seq<string>, i: nat)
    requires Extends(before, after) && root < |before| && i < |ws|
    requires forall k | 0 <= k < i :: Walk(before, root, WordPath(ws[k])).Some?
    requires Walk(after, root, WordPath(ws[i])).Some?
    ensures forall k | 0 <= k < i + 1 :: Walk(after, root, WordPath(ws[k])).Some?
  {
    forall k | 0 <= k < i + 1
      ensures Walk(after, root, WordPath(ws[k])).Some?
    {
      if k < i {
        ExtendsWalk(before, after, root, WordPath(ws[k]));
      }
    }
  }

  /** Growth keeps the paths of the words of the string values among the
      first `i` values, and those of value `i`, when a string whose word
      paths exist afterwards, join them. */
  lemma ValueWalksGrow(before: seq<Node256>, after: seq<Node256>, root: nat, values: seq<Value>,
                       words: string -> seq<string>, i: nat)
    requires Extends(before, after) && root < |before| && i < |values|
    requires forall v, w | v in values[..i] && v.Str? && w in words(v.s) :: Walk(before, root, WordPath(w)).Some?
    requires values[i].Str? ==> forall w | w in words(values[i].s) :: Walk(after, root, WordPath(w)).Some?
    ensures forall v, w | v in values[..i + 1] && v.Str? && w in words(v.s) :: Walk(after, root, WordPath(w)).Some?
    ensures values[..i + 1] == values[..i] + [values[i]] && values[i] in values[..i + 1]
  {
    assert values[..i + 1] == values[..i] + [values[i]];
    forall v, w | v in values[..i + 1] && v.Str? && w in words(v.s)
      ensures Walk(after, root, WordPath(w)).Some?
    {
      if v != values[i] {
        ExtendsWalk(before, after, root, WordPath(w));
      }
    }
  }

  /** Linking a fresh node under pointer `b` of `n` changes that pointer
      alone. */
  lemma LinkChangesOnePointer(nodes: seq<Node256>, after: seq<Node256>, n: nat, b: Byte)
    requires Linked(nodes) && n < |nodes|
    requires after == (nodes + [EMPTY_NODE])[n := nodes[n].(children := nodes[n].children[b := Some(|nodes|)])]
    requires Linked(after)
    ensures forall k, x: Byte | 0 <= k < |after| && after[k].children[x] != OldChild(nodes, k, x) :: k == n && x == b
  {
  }

  /** One step of `insert` along `path` at depth `d`: whichever case `Step`
      took, the trie grew only along `path`, by at most one node, and the
      first `d + 1` bytes lead to the node it returned. */
  lemma StepGrown(before: seq<Node256>, after: seq<Node256>, root: nat, path: seq<Byte>, d: nat, from: nat, c: nat)
    requires Linked(before) && root < |before| && d < |path|
    requires Walk(before, root, path[..d]) == Some(from)
    requires Extends(before, after) && Walk(after, from, [path[d]]) == Some(c)
    requires before[from].children[path[d]].Some? ==> after == before
    requires before[from].children[path[d]].None? ==>
      after == (before + [EMPTY_NODE])[from := before[from].(children := before[from].children[path[d] := Some(|before|)])]
    ensures GrownAlong(before, after, root, {path}) && |after| <= |before| + 1
    ensures Walk(after, root, path[..d + 1]) == Some(c)
  {
    ExtendsWalk(before, after, root, path[..d]);
    WalkAppend(after, root, path[..d], [path[d]]);
    assert path[..d + 1] == path[..d] + [path[d]];
    if before[from].children[path[d]].None? {
      LinkChangesOnePointer(before, after, from, path[d]);
      assert OnPaths(after, root, {path}, |before|);
      assert SlotOnPaths(after, root, {path}, from, path[d]);
    }
  }

  /** Where `insert` stands after the first `d` bytes of `path`: the trie
      grew from `start` only along `path`, by at most one node per byte, and
      those bytes lead from the root to `current`. */
  ghost predicate Progress(start: seq<Node256>, nodes: seq<Node256>, root: nat, path: seq<Byte>, d: int, current: nat)
  {
    && root < |start| && 0 <= d <= |path|
    && Extends(start, nodes) && GrownAlong(start, nodes, root, {path}) && |nodes| <= |start| + d
    && Walk(nodes, root, path[..d]) == Some(current)
  }

  /** The same step seen from the start of the insertion, for the byte
      `b` at depth `d` of `path`. */
  lemma WordStep(start: seq<Node256>, before: seq<Node256>, after: seq<Node256>, root: nat, path: seq<Byte>,
                 d: int, from: nat, b: Byte, c: nat)
    requires 0 <= d < |path| && path[d] == b && Progress(start, before, root, path, d, from)
    requires Extends(before, after) && Walk(after, from, [b]) == Some(c)
    requires before[from].children[b].Some? ==> after == before
    requires before[from].children[b].None? ==>
      after == (before + [EMPTY_NODE])[from := before[from].(children := before[from].children[b := Some(|before|)])]
    ensures Progress(start, after, root, path, d + 1, c) && |after| <= |before| + 1
  {
    StepGrown(before, after, root, path, d, from, c);
    GrownAlongTransitive(start, before, after, root, {path}, {path}, {path});
    ExtendsTransitive(start, before, after);
  }

  /** Progress from `start` to `nodes` gives progress from `nodes` to
      itself, at the same depth. */
  lemma ProgressRestart(start: seq<Node256>, nodes: seq<Node256>, root: nat, path: seq<Byte>, d: int, current: nat)
    requires Progress(start, nodes, root, path, d, current)
    ensures Progress(nodes, nodes, root, path, d, current)
  {
    assert Extends(start, nodes);
  }

  /** Progress from `start` to `mid` at depth `d`, then from `mid` to
      `nodes` up to depth `e`, is progress from `start` to `nodes` at `e`. */
  lemma ProgressJoin(start: seq<Node256>, mid: seq<Node256>, nodes: seq<Node256>, root: nat, path: seq<Byte>,
                     d: int, e: int, from: nat, to: nat)
    requires Progress(start, mid, root, path, d, from) && d <= e <= |path|
    requires Extends(mid, nodes) && GrownAlong(mid, nodes, root, {path}) && |nodes| <= |mid| + (e - d)
    requires Walk(nodes, root, path[..e]) == Some(to)
    ensures Progress(start, nodes, root, path, e, to)
  {
    GrownAlongTransitive(start, mid, nodes, root, {path}, {path}, {path});
    ExtendsTransitive(start, mid, nodes);
  }

  /** The path of the first `i` characters is a prefix of the word's path,
      followed by the four bytes of character `i`. */
  lemma {:induction false} WordPathAt(w: string, i: nat)
    requires i < |w|
    ensures WordPath(w)[..4 * i] == WordPath(w[..i])
    ensures WordPath(w)[4 * i..4 * i + 4] == CodePointBytes(w[i])
    decreases |w|
  {
    var last := |w| - 1;
    var init := WordPath(w[..last]);
    assert WordPath(w) == init + CodePointBytes(w[last]);
    if i == last {
      assert w[..last] == w[..i];
    } else {
      WordPathAt(w[..last], i);
      assert w[..last][..i] == w[..i] && w[..last][i] == w[i];
    }
  }

  // ---------------------------------------------------------------------
  // The index

  class Index {
    const arena: BumpArena.Arena
    /** The contents of the arena's slots: slot k holds `nodes[k]`. */
    var nodes: seq<Node256>
    const root: nat

    ghost predicate Valid()
      reads this, arena
    {
      && arena.Valid() && arena.tSize == NODE_SIZE && arena.mappedLen == MAPPED
      && |arena.slots| == |nodes| && root == 0 < |nodes| && Linked(nodes)
    }

    /** `Index::new()`: maps the arena and allocates the root in its first
        slot, at offset 0; the trie is the root alone. */
    constructor ()
      ensures Valid() && fresh(arena)
      ensures nodes == [EMPTY_NODE] && root == 0 && arena.slots == [0]
    {
      var a := new BumpArena.Arena(MAPPED, NODE_SIZE);
      var r := a.Alloc();
      arena := a;
      nodes := [EMPTY_NODE];
      root := 0;
    }

    /** `arena.alloc()` of a fresh node: refused exactly when the slot would
        reach the end of the mapping. */
    method NewNode() returns (r: Result<nat, BumpArena.ArenaError>)
      requires Valid()
      modifies this, arena
      ensures Valid()
      ensures r.Ok? <==> (|old(nodes)| + 1) * NODE_SIZE < MAPPED
      ensures r.Ok? ==> r.value == |old(nodes)| && nodes == old(nodes) + [EMPTY_NODE]
      ensures r.Ok? ==> arena.slots[r.value] == r.value * NODE_SIZE
      ensures r.Err? ==> nodes == old(nodes)
      ensures Extends(old(nodes), nodes)
    {
      var a := arena.Alloc();
      if a.Err? {
        return Err(a.error);
      }
      r := Ok(|nodes|);
      nodes := nodes + [EMPTY_NODE];
    }

    /** One byte of `insert`: follows a non-null pointer, or allocates a
        node and stores it in the null one. */
    method Step(current: nat, b: Byte) returns (r: Result<nat, BumpArena.ArenaError>)
      requires Valid() && current < |nodes|
      modifies this, arena
      ensures Valid() && Extends(old(nodes), nodes)
      ensures old(nodes)[current].children[b].Some? ==> r == Ok(old(nodes)[current].children[b].value) && nodes == old(nodes)
      ensures old(nodes)[current].children[b].None? && r.Ok? ==>
        && r.value == |old(nodes)|
        && nodes == (old(nodes) + [EMPTY_NODE])[current := old(nodes)[current].(children := old(nodes)[current].children[b := Some(r.value)])]
      ensures r.Ok? ==> Walk(nodes, current, [b]) == Some(r.value)
      ensures r.Err? ==> nodes == old(nodes) && (|nodes| + 1) * NODE_SIZE >= MAPPED
    {
      var child := nodes[current].children[b];
      if child.Some? {
        r := Ok(child.value);
      } else {
        ghost var before := nodes;
        r := NewNode();
        if r.Err? {
          return;
        }
        var c := r.value;
        nodes := nodes[current := nodes[current].(children := nodes[current].children[b := Some(c)])];
        assert Extends(before, nodes);
      }
      assert [b][1..] == [];
    }

    /** The inner loop of `insert`: the four code-point bytes of one
        character `ch`, from `current`, which the first `d` bytes of `path`
        reach; those four bytes come next in `path`. */
    method InsertChar(current: nat, ch: char, ghost path: seq<Byte>, ghost d: nat) returns (r: Result<nat, BumpArena.ArenaError>)
      requires Valid() && d + 4 <= |path| && path[d..d + 4] == CodePointBytes(ch)
      requires Progress(nodes, nodes, root, path, d, current)
      modifies this, arena
      ensures Valid() && Extends(old(nodes), nodes)
      ensures GrownAlong(old(nodes), nodes, root, {path}) && |nodes| <= |old(nodes)| + 4
      ensures r.Ok? ==> r.value < |nodes| && Walk(nodes, root, path[..d + 4]) == Some(r.value)
      ensures r.Err? ==> (|nodes| + 1) * NODE_SIZE >= MAPPED
    {
      var bytes := CodePointBytes(ch);
      var at: nat := current;
      var j: nat := 0;
      while j < 4
        invariant j <= 4 && at < |nodes| && Valid() && |nodes| <= |old(nodes)| + j
        invariant Progress(old(nodes), nodes, root, path, d + j, at)
      {
        ghost var before := nodes;
        assert bytes[j] == path[d..d + 4][j];
        var step := Step(at, bytes[j]);
        if step.Err? {
          return Err(step.error);
        }
        WordStep(old(nodes), before, nodes, root, path, d + j, at, bytes[j], step.value);
        at := step.value;
        j := j + 1;
      }
      return Ok(at);
    }

    /** The loop of `insert` over one word: for each character, its four
        code-point bytes. Returns the node at the end of the word's path. */
    method InsertWord(w: string) returns (r: Result<nat, BumpArena.ArenaError>)
      requires Valid()
      modifies this, arena
      ensures Valid() && Extends(old(nodes), nodes)
      ensures GrownAlong(old(nodes), nodes, root, {WordPath(w)}) && |nodes| <= |old(nodes)| + |WordPath(w)|
      ensures r.Ok? ==> Walk(nodes, root, WordPath(w)) == Some(r.value)
      ensures r.Err? ==> (|nodes| + 1) * NODE_SIZE >= MAPPED
    {
      ghost var path := WordPath(w);
      var current: nat := root;
      var i: nat := 0;
      assert GrownAlong(nodes, nodes, root, {path});
      assert Progress(nodes, nodes, root, path, 0, current);
      while i < |w|
        invariant i <= |w| && current < |nodes| && Valid()
        invariant Progress(old(nodes), nodes, root, path, 4 * i, current)
      {
        ghost var before := nodes;
        WordPathAt(w, i);
        ProgressRestart(old(nodes), nodes, root, path, 4 * i, current);
        var next := InsertChar(current, w[i], path, 4 * i);
        if next.Err? {
          GrownAlongTransitive(old(nodes), before, nodes, root, {path}, {path}, {path});
          ExtendsTransitive(old(nodes), before, nodes);
          return Err(next.error);
        }
        ProgressJoin(old(nodes), before, nodes, root, path, 4 * i, 4 * i + 4, current, next.value);
        current := next.value;
        i := i + 1;
      }
      assert path[..4 * i] == path;
      return Ok(current);
    }

    /** `insert(key)`: every word of `key` (as split by `words`) gets its
        path from the root. The "OOM" panic is the error result; nothing is
        promised about the words after it. */
    method Insert(key: string, words: string -> seq<string>) returns (r: Result<(), BumpArena.ArenaError>)
      requires Valid()
      modifies this, arena
      ensures Valid() && Extends(old(nodes), nodes)
      ensures GrownAlong(old(nodes), nodes, root, WordPaths(words(key)))
      ensures |nodes| <= |old(nodes)| + 4 * Letters(words(key))
      ensures r.Ok? ==> forall w | w in words(key) :: Walk(nodes, root, WordPath(w)).Some?
      ensures r.Err? ==> (|nodes| + 1) * NODE_SIZE >= MAPPED
    {
      var ws := words(key);
      ghost var paths := WordPaths(ws);
      var i := 0;
      assert GrownAlong(nodes, nodes, root, paths);
      while i < |ws|
        invariant i <= |ws|
        invariant Valid() && Extends(old(nodes), nodes)
        invariant GrownAlong(old(nodes), nodes, root, paths)
        invariant |nodes| + 4 * Letters(ws[i..]) <= |old(nodes)| + 4 * Letters(ws)
        invariant forall k | 0 <= k < i :: Walk(nodes, root, WordPath(ws[k])).Some?
      {
        ghost var before := nodes;
        var end := InsertWord(ws[i]);
        LettersDrop(ws, i);
        assert {WordPath(ws[i])} <= paths;
        GrownAlongTransitive(old(nodes), before, nodes, root, paths, {WordPath(ws[i])}, paths);
        ExtendsTransitive(old(nodes), before, nodes);
        if end.Err? {
          return Err(end.error);
        }
        WalksGrow(before, nodes, root, ws, i);
        i := i + 1;
      }
      return Ok(());
    }

    /** `add_record_slice(bytes)`: inserts each string attribute value; other
        values are not indexed, and no record is kept. */
    method AddRecordSlice(rec: Record, words: string -> seq<string>) returns (r: Result<(), BumpArena.ArenaError>)
      requires Valid()
      modifies this, arena
      ensures Valid() && Extends(old(nodes), nodes)
      ensures GrownAlong(old(nodes), nodes, root, ValuePaths(rec, words))
      ensures |nodes| <= |old(nodes)| + 4 * ValueLetters(rec.values, words)
      ensures r.Ok? ==> forall v, w | v in rec.values && v.Str? && w in words(v.s) :: Walk(nodes, root, WordPath(w)).Some?
      ensures (forall v | v in rec.values :: v.Other?) ==> nodes == old(nodes) && r.Ok?
      ensures r.Err? ==> (|nodes| + 1) * NODE_SIZE >= MAPPED
    {
      ghost var paths := ValuePaths(rec, words);
      var i := 0;
      assert GrownAlong(nodes, nodes, root, paths);
      while i < |rec.values|
        invariant i <= |rec.values|
        invariant Valid() && Extends(old(nodes), nodes)
        invariant GrownAlong(old(nodes), nodes, root, paths)
        invariant |nodes| + 4 * ValueLetters(rec.values[i..], words) <= |old(nodes)| + 4 * ValueLetters(rec.values, words)
        invariant forall v, w | v in rec.values[..i] && v.Str? && w in words(v.s) :: Walk(nodes, root, WordPath(w)).Some?
        invariant (forall v | v in rec.values[..i] :: v.Other?) ==> nodes == old(nodes)
      {
        var value := rec.values[i];
        ValueLettersDrop(rec.values, words, i);
        ghost var before := nodes;
        if value.Str? {
          var inserted := Insert(value.s, words);
          forall t | t in WordPaths(words(value.s))
            ensures t in paths
          {
            assert value in rec.values;
          }
          GrownAlongTransitive(old(nodes), before, nodes, root, paths, WordPaths(words(value.s)), paths);
          ExtendsTransitive(old(nodes), before, nodes);
          if inserted.Err? {
            assert value in rec.values;
            return inserted;
          }
        }
        ValueWalksGrow(before, nodes, root, rec.values, words, i);
        i := i + 1;
      }
      assert rec.values[..i] == rec.values;
      return Ok(());
    }
  }

  /** The `Nodes` iterator: a stack of (path, node) entries still to visit,
      starting from the root with the empty path. */
  class Nodes {
    const index: Index
    var stack: seq<(seq<Byte>, nat)>
    /** The entries yielded so far. */
    ghost var yielded: seq<(seq<Byte>, nat)>

    /** What has been yielded, followed by what the stack will still yield,
        is the pre-order listing of the whole trie. */
    ghost predicate Valid()
      reads this, index, index.arena
    {
      && index.Valid()
      && (forall e | e in stack :: e.1 < |index.nodes|)
      && yielded + Pending(index.nodes, stack) == PreOrder(index.nodes, [], index.root)
    }

    /** `index.nodes()`. */
    constructor (index: Index)
      requires index.Valid()
      ensures Valid() && this.index == index
      ensures stack == [([], index.root)] && yielded == []
    {
      this.index := index;
      stack := [([], index.root)];
      yielded := [];
      new;
      assert stack[..0] == [];
    }

    /** `next()`: pops the top entry, pushes its children in reverse byte
        order (so the lowest byte is visited next) and yields the popped
        entry; an empty stack ends the iteration. */
    method Next() returns (r: Option<(seq<Byte>, nat)>)
      requires Valid()
      modifies this
      ensures Valid()
      ensures old(stack) == [] ==> r == None && stack == [] && yielded == old(yielded)
      ensures old(stack) != [] ==>
        && r == Some(Pending(index.nodes, old(stack))[0])
        && yielded == old(yielded) + [r.value]
        && Pending(index.nodes, stack) == Pending(index.nodes, old(stack))[1..]
    {
      if stack == [] {
        return None;
      }
      var top := stack[|stack| - 1];
      var base := stack[..|stack| - 1];
      SplitLast(stack);
      PopStep(index.nodes, base, top);
      stack := base;
      PushChildren(top.0, top.1);
      r := Some(top);
      yielded := yielded + [top];
      AppendAssoc(old(yielded), [top], Pending(index.nodes, stack));
    }

    /** The loop of `next()`: pushes the children of `current` from the
        highest byte down, so that the lowest ends on top. */
    method PushChildren(path: seq<Byte>, current: nat)
      requires index.Valid() && current < |index.nodes|
      modifies this
      ensures stack == old(stack) + Reverse(Entries(index.nodes, path, current, 0))
      ensures yielded == old(yielded)
    {
      var node := index.nodes[current];
      var b := FANOUT;
      while b > 0
        invariant 0 <= b <= FANOUT
        invariant stack == old(stack) + Reverse(Entries(index.nodes, path, current, b))
        invariant yielded == old(yielded)
      {
        b := b - 1;
        var child := node.children[b];
        if child.Some? {
          var e := (path + [b as Byte], child.value);
          ghost var es := Entries(index.nodes, path, current, b);
          assert es == [e] + Entries(index.nodes, path, current, b + 1);
          ReverseCons(old(stack), es);
          stack := stack + [e];
        }
      }
    }
  }

  /** One step of the iterator on the lists: popping `top` off `base + [top]`
      and pushing its children in reverse gives a stack that yields what the
      old one did, minus its first entry, which is `top`. */
  lemma PopStep(nodes: seq<Node256>, base: seq<(seq<Byte>, nat)>, top: (seq<Byte>, nat))
    requires Linked(nodes)
    requires forall e | e in base + [top] :: e.1 < |nodes|
    ensures top.1 < |nodes|
    ensures forall e | e in base + Reverse(Entries(nodes, top.0, top.1, 0)) :: e.1 < |nodes|
    ensures Pending(nodes, base + [top]) == [top] + Pending(nodes, base + Reverse(Entries(nodes, top.0, top.1, 0)))
  {
    Members(base, top);
    PendingPush(nodes, base, top);
    var es := Entries(nodes, top.0, top.1, 0);
    PushReversed(nodes, top.1, base, es);
    AppendAssoc([top], Forest(nodes, top.1, es), Pending(nodes, base));
  }

  lemma Members<T>(s: seq<T>, x: T)
    ensures x in s + [x] && forall y | y in s :: y in s + [x]
  {
  }

  lemma SplitLast<T>(s: seq<T>)
    requires s != []
    ensures s == s[..|s| - 1] + [s[|s| - 1]]
  {
  }

  /** A fresh index yields its root alone, with the empty path. */
  lemma FreshTrie()
    ensures Linked([EMPTY_NODE])
    ensures PreOrder([EMPTY_NODE], [], 0) == [([], 0)]
  {
    NoEntries(0);
  }

  lemma {:induction false} NoEntries(i: nat)
    requires i <= FANOUT
    ensures Linked([EMPTY_NODE]) && Entries([EMPTY_NODE], [], 0, i) == []
    decreases FANOUT - i
  {
    if i < FANOUT {
      NoEntries(i + 1);
    }
  }
}

/** The bitwise trie behind longest-prefix service resolution: nodes linked by `parent`,
    `left` and `right`, one bit per level, with an entry wherever `priv` is set.  The trie
    refines a finite map from bit strings to the data of its entries. */
module Trie {
  import opened Wrappers
  import opened Bits

  /** What a node's `private` pointer leads to: the caller's record, opaque to the trie. */
  type Data = nat

  /** Callbacks of a node: which hooks it has. */
  datatype NodeOps = NodeOps(hasDestroy: bool, hasPrint: bool)

  /** What an active node holds. */
  datatype Entry = Entry(ops: Option<NodeOps>, data: Data) {
    predicate Hooked() {
      ops.Some? && ops.value.hasDestroy
    }

    predicate Printable() {
      ops.Some? && ops.value.hasPrint
    }
  }

  /** A caller's filter on the data of an entry, or none. */
  type Matcher = Option<Data -> bool>

  // ----- reference: longest-prefix match by looking at every entry of the map

  /** `k` is an entry that covers the query and that the filter accepts. */
  ghost predicate Covers(m: map<Path, Entry>, k: Path, q: Path, matcher: Matcher) {
    k in m && IsPrefix(k, q) && (matcher.Some? ==> matcher.value(m[k].data))
  }

  /** The answer of a brute-force search: an accepted covering entry that no other one
      exceeds in length, and nothing exactly when there is none. */
  ghost predicate IsLongestMatch(m: map<Path, Entry>, q: Path, matcher: Matcher, r: Option<Path>) {
    match r
    case None => forall k :: !Covers(m, k, q, matcher)
    case Some(best) =>
      && Covers(m, best, q, matcher)
      && forall k {:trigger Covers(m, k, q, matcher)} :: Covers(m, k, q, matcher) ==> Len(k) <= Len(best)
  }

  /** What such an answer means for the data of the entries: with a filter, the longest entry on a prefix of the query
      whose data the filter is true of; without one, the longest entry on a prefix of the query. */
  lemma LongestMeans(m: map<Path, Entry>, q: Path, matcher: Matcher, r: Option<Path>)
    requires IsLongestMatch(m, q, matcher, r)
    ensures r.Some? ==> r.value in m && IsPrefix(r.value, q)
    ensures matcher.Some? && r.Some? ==> matcher.value(m[r.value].data)
    ensures matcher.Some? ==>
      forall k {:trigger k in m} :: k in m && IsPrefix(k, q) && matcher.value(m[k].data) ==>
        r.Some? && Len(k) <= Len(r.value)
    ensures matcher.None? ==>
      forall k {:trigger k in m} :: k in m && IsPrefix(k, q) ==> r.Some? && Len(k) <= Len(r.value)
  {
    forall k | k in m && IsPrefix(k, q) && (matcher.Some? ==> matcher.value(m[k].data))
      ensures r.Some? && Len(k) <= Len(r.value)
    {
      assert Covers(m, k, q, matcher);
    }
  }

  lemma {:induction false} PrefixesNest(p: Path, p': Path, q: Path)
    requires IsPrefix(p, q) && IsPrefix(p', q) && Len(p) == Len(p')
    ensures p == p'
  {
    PrefixLen(p, q);
    PrefixLen(p', q);
    if p != q && p' != q {
      PrefixesNest(p, p', q.up);
    }
  }

  lemma LongestMatchIsUnique(m: map<Path, Entry>, q: Path, matcher: Matcher, r: Option<Path>, r': Option<Path>)
    requires IsLongestMatch(m, q, matcher, r) && IsLongestMatch(m, q, matcher, r')
    ensures r == r'
  {
    if r.Some? && r'.Some? {
      PrefixesNest(r.value, r'.value, q);
    }
  }

  /** The same answer when only entries shorter than `d` are considered. */
  ghost predicate IsLongestBelow(m: map<Path, Entry>, q: Path, matcher: Matcher, d: nat, r: Option<Path>) {
    match r
    case None => forall k {:trigger Covers(m, k, q, matcher)} :: Covers(m, k, q, matcher) ==> d <= Len(k)
    case Some(best) =>
      && Covers(m, best, q, matcher) && Len(best) < d
      && forall k {:trigger Covers(m, k, q, matcher)} :: Covers(m, k, q, matcher) ==> d <= Len(k) || Len(k) <= Len(best)
  }

  lemma SearchStarts(m: map<Path, Entry>, q: Path, matcher: Matcher)
    ensures IsLongestBelow(m, q, matcher, 0, None) && (m == map[] ==> IsLongestMatch(m, q, matcher, None))
  {
  }

  lemma ConsiderDepth(m: map<Path, Entry>, q: Path, matcher: Matcher, p: Path, r: Option<Path>)
    requires IsPrefix(p, q) && IsLongestBelow(m, q, matcher, Len(p), r)
    ensures IsLongestBelow(m, q, matcher, Len(p) + 1, if Covers(m, p, q, matcher) then Some(p) else r)
  {
    forall k | Covers(m, k, q, matcher) && Len(k) == Len(p)
      ensures k == p
    {
      PrefixesNest(k, p, q);
    }
  }

  // ----- shapes: the set of paths that have nodes

  ghost predicate Leaf(keys: set<Path>, p: Path) {
    Down(p, false) !in keys && Down(p, true) !in keys
  }

  /** Every childless node other than the root holds an entry. */
  ghost predicate PrunedShape(keys: set<Path>, active: set<Path>) {
    forall p {:trigger Leaf(keys, p)} :: p in keys && p.Down? && Leaf(keys, p) ==> p in active
  }

  /** Pruned, were it not for one path. */
  ghost predicate PrunedBut(keys: set<Path>, active: set<Path>, k: Path) {
    forall p {:trigger Leaf(keys, p)} :: p in keys && p.Down? && p != k && Leaf(keys, p) ==> p in active
  }

  lemma CutLeaf(keys: set<Path>, active: set<Path>, k: Path)
    requires PrunedBut(keys, active, k) && k !in active && k.Down?
    ensures PrunedBut(keys - {k}, active, k.up)
  {
    forall p | p in keys - {k} && p.Down? && p != k.up && Leaf(keys - {k}, p)
      ensures p in active
    {
      assert Leaf(keys, p);
    }
  }

  lemma GrowLeaf(keys: set<Path>, active: set<Path>, k: Path)
    requires k.Down? && PrunedBut(keys, active, k.up)
    ensures PrunedBut(keys + {k}, active, k)
  {
    forall p | p in keys && p.Down? && p !in active && p != k
      ensures !Leaf(keys + {k}, p)
    {
      if p != k.up {
        assert !Leaf(keys, p);
      }
    }
  }

  lemma MapRemoveOne<K, V>(m: map<K, V>, k: K)
    requires k in m
    ensures |m - {k}| == |m| - 1
  {
    assert (m - {k}).Keys == m.Keys - {k};
    assert |m.Keys - {k}| == |m.Keys| - 1;
  }

  /** The map with the entry at `k` set or cleared. */
  ghost function WithEntry(m: map<Path, Entry>, k: Path, e: Option<Entry>): map<Path, Entry> {
    if e.None? then m - {k} else m[k := e.value]
  }

  /** The entry that the fields of a node stand for. */
  ghost function EntryOf(priv: Option<Data>, ops: Option<NodeOps>): Option<Entry> {
    if priv.None? then None else Some(Entry(ops, priv.value))
  }

  /** How many nodes the path to `q` still lacks. */
  ghost function Missing(keys: set<Path>, q: Path): nat {
    if q in keys then 0 else 1 + if q.Down? then Missing(keys, q.up) else 0
  }

  lemma {:induction false} MissingAll(q: Path)
    ensures Missing({}, q) == 1 + Missing({Top}, q)
  {
    if q.Down? {
      MissingAll(q.up);
    }
  }

  lemma {:induction false} MissingBelow(keys: set<Path>, prefix: seq<bv8>, bits: nat, depth: nat)
    requires PrefixSize(bits) <= |prefix| && depth <= bits
    requires PathOf(prefix, depth) in keys
    requires forall d :: depth < d <= bits ==> PathOf(prefix, d) !in keys
    ensures Missing(keys, PathOf(prefix, bits)) == bits - depth
  {
    if depth < bits {
      MissingBelow(keys, prefix, bits - 1, depth);
    }
  }

  /** The shape once the missing nodes on the path to `q` were added, shortest first, as far as memory goes. */
  ghost function Extend(keys: set<Path>, q: Path, memory: nat): set<Path> {
    if q in keys then keys
    else (if q.Down? then Extend(keys, q.up, memory) else keys) + if Missing(keys, q) <= memory then {q} else {}
  }

  lemma {:induction false} ExtendFromRoot(q: Path, memory: nat)
    ensures memory > 0 ==> Extend({}, q, memory) == Extend({Top}, q, memory - 1)
    ensures Extend({}, q, 0) == {}
  {
    MissingAll(q);
    if q.Down? {
      ExtendFromRoot(q.up, memory);
    }
  }

  lemma ExtendHere(keys: set<Path>, q: Path, memory: nat)
    requires q in keys
    ensures Extend(keys, q, memory) == keys
  {
  }

  /** Where memory is used up, longer paths get no nodes. */
  lemma {:induction false} ExtendStops(keys: set<Path>, prefix: seq<bv8>, bits: nat, d: nat, depth: nat)
    requires PrefixSize(bits) <= |prefix| && depth <= d <= bits && PathOf(prefix, depth) in keys
    requires forall e :: depth < e <= bits ==> PathOf(prefix, e) !in keys
    ensures Extend(keys, PathOf(prefix, bits), d - depth) == Extend(keys, PathOf(prefix, d), d - depth)
  {
    hide ByteBit;
    if d < bits {
      ExtendStops(keys, prefix, bits - 1, d, depth);
      MissingBelow(keys, prefix, bits, depth);
    }
  }

  /** One more node, while there is memory, or else no further one. */
  lemma ExtendStep(keys: set<Path>, prefix: seq<bv8>, bits: nat, depth: nat, d: nat, memory: nat, budget: nat)
    requires PrefixSize(bits) <= |prefix| && depth <= d < bits && PathOf(prefix, depth) in keys
    requires (forall e :: depth < e <= bits ==> PathOf(prefix, e) !in keys) && d - depth == budget - memory
    ensures memory > 0 ==>
      Extend(keys, PathOf(prefix, d + 1), budget) == Extend(keys, PathOf(prefix, d), budget) + {PathOf(prefix, d + 1)}
    ensures memory == 0 ==> Extend(keys, PathOf(prefix, bits), budget) == Extend(keys, PathOf(prefix, d), budget)
  {
    hide ByteBit;
    MissingBelow(keys, prefix, d + 1, depth);
    if memory == 0 {
      ExtendStops(keys, prefix, bits, d, depth);
    }
  }

  /** The shape once every inactive leaf was taken off, from `p` upwards; the root stays. */
  ghost function Trim(keys: set<Path>, active: set<Path>, p: Path): set<Path> {
    if p.Down? && p !in active && Leaf(keys, p) then Trim(keys - {p}, active, p.up) else keys
  }

  lemma TrimTop(keys: set<Path>, active: set<Path>)
    ensures Trim(keys, active, Top) == keys
  {
  }

  /** The shape once the entry at `q` was released: a node with children stays, a leaf goes, whether it is the
      root or not, and takes with it the ancestors that this leaves inactive and childless. */
  ghost function ReleaseShape(keys: set<Path>, active: set<Path>, q: Path): set<Path> {
    if !Leaf(keys, q) then keys
    else if q.Top? then keys - {q}
    else Trim(keys - {q}, active - {q}, q.up)
  }

  class Node {
    // fixed when the node is created
    const tree: Trie
    const parent: Node
    const prefixBits: nat
    const prefix: seq<bv8>
    ghost const key: Path

    var left: Node?
    var right: Node?
    var ops: Option<NodeOps>
    var priv: Option<Data>

    /** The stored bytes are the packed form of the node's path. */
    ghost predicate Coded() {
      prefixBits == Len(key) && Packs(prefix, key)
    }

    constructor Root(tree: Trie)
      ensures this.tree == tree && parent == this && left == null && right == null
      ensures ops == None && priv == None && key == Top && Coded()
    {
      this.tree, parent, left, right := tree, this, null, null;
      ops, priv, prefixBits, prefix, key := None, None, 0, [], Top;
    }

    constructor Child(parent: Node, bytes: seq<bv8>, ghost bit: bool)
      requires parent.Coded() && Packs(bytes, Down(parent.key, bit))
      ensures tree == parent.tree && this.parent == parent && left == null && right == null
      ensures ops == None && priv == None && key == Down(parent.key, bit) && Coded()
    {
      this.tree, this.parent, left, right := parent.tree, parent, null, null;
      ops, priv, prefixBits, prefix, key := None, None, parent.prefixBits + 1, bytes, Down(parent.key, bit);
    }
  }

  ghost function KeyOf(n: Node?): Option<Path> {
    if n == null then None else Some(n.key)
  }

  /** From `before` to `after`, nodes on one path were taken out, and exactly those were freed. */
  ghost predicate FreedAlong(path: Path, before: map<Path, Node>, after: map<Path, Node>,
                             freedBefore: seq<Node>, freedAfter: seq<Node>)
  {
    && freedBefore <= freedAfter
    && |freedAfter| - |freedBefore| == |before| - |after|
    && (forall p :: p in after ==> p in before && after[p] == before[p])
    && (forall p :: p in before && p !in after ==> IsPrefix(p, path) && before[p] in freedAfter)
  }

  lemma FreeOneMore(path: Path, before: map<Path, Node>, after: map<Path, Node>,
                    freedBefore: seq<Node>, freedAfter: seq<Node>, k: Path)
    requires FreedAlong(path, before, after, freedBefore, freedAfter) && k in after && IsPrefix(k, path)
    ensures FreedAlong(path, before, after - {k}, freedBefore, freedAfter + [after[k]])
  {
    MapRemoveOne(after, k);
  }

  lemma FreedTransitive(path: Path, path': Path, first: map<Path, Node>, mid: map<Path, Node>, last: map<Path, Node>,
                        freed0: seq<Node>, freed1: seq<Node>, freed2: seq<Node>)
    requires FreedAlong(path, first, mid, freed0, freed1) && FreedAlong(path', mid, last, freed1, freed2)
    requires IsPrefix(path', path)
    ensures FreedAlong(path, first, last, freed0, freed2)
  {
    forall p | p in first && p !in last
      ensures IsPrefix(p, path) && first[p] in freed2
    {
      if p in mid {
        PrefixTransitive(p, path', path);
      }
    }
  }

  // ----- the shape of a trie, as conditions on its node map and on the fields of one node

  ghost function Child(nodes: map<Path, Node>, p: Path, bit: bool): Node? {
    if Down(p, bit) in nodes then nodes[Down(p, bit)] else null
  }

  /** The node on path `p` has that key, its packed bytes, and the node one bit shorter as parent;
      the root is its own parent. */
  ghost predicate Placed(t: Trie, nodes: map<Path, Node>, repr: set<Node>, p: Path)
    requires p in nodes
  {
    var n := nodes[p];
    && n in repr
    && n.tree == t
    && n.key == p
    && n.Coded()
    && (p.Top? ==> n.parent == n)
    && (p.Down? ==> p.up in nodes && n.parent == nodes[p.up])
  }

  /** The fields of the node on path `p`: its children and its entry.  A node in `bent` has lost its
      right child and has its left child hang on the right; only destruction makes such nodes. */
  ghost predicate Linked(nodes: map<Path, Node>, bent: set<Path>, contents: map<Path, Entry>, p: Path,
                         left: Node?, right: Node?, priv: Option<Data>, ops: Option<NodeOps>)
  {
    && left == (if p in bent then null else Child(nodes, p, false))
    && right == Child(nodes, p, p !in bent)
    && (p in bent ==> Down(p, true) !in nodes)
    && EntryOf(priv, ops) == (if p in contents then Some(contents[p]) else None)
    && (priv.None? ==> ops.None?)
  }

  ghost predicate PrefixClosed(keys: set<Path>) {
    forall p {:trigger p.up} :: p in keys && p.Down? ==> p.up in keys
  }

  lemma {:induction false} HasTop(keys: set<Path>, p: Path)
    requires PrefixClosed(keys) && p in keys && p.Down?
    ensures !Leaf(keys, Top)
  {
    if p.up.Down? {
      HasTop(keys, p.up);
    }
  }

  lemma NothingElse(nodes: map<Path, Node>)
    requires PrefixClosed(nodes.Keys) && Leaf(nodes.Keys, Top)
    ensures forall p :: p in nodes ==> p == Top
  {
    forall p | p in nodes
      ensures p == Top
    {
      if p.Down? {
        HasTop(nodes.Keys, p);
      }
    }
  }

  lemma NoOrphans(nodes: map<Path, Node>, k: Path)
    requires PrefixClosed(nodes.Keys) && k !in nodes
    ensures Leaf(nodes.Keys, k)
  {
  }

  /** Adding a leaf below `n.key.up` changes one child link of that node, and nothing about the others. */
  lemma AddLeaf(t: Trie, nodes: map<Path, Node>, repr: set<Node>, contents: map<Path, Entry>, n: Node, k: Path,
                left: Node?, right: Node?, priv: Option<Data>, ops: Option<NodeOps>)
    requires n.key.Down? && n.key !in nodes && k in nodes
    requires Placed(t, nodes, repr, k) && Linked(nodes, {}, contents, k, left, right, priv, ops)
    ensures Placed(t, nodes[n.key := n], repr + {n}, k)
    ensures Linked(nodes[n.key := n], {}, contents, k,
                   if k == n.key.up && !n.key.bit then n else left,
                   if k == n.key.up && n.key.bit then n else right, priv, ops)
  {
  }

  /** Dropping a leaf clears the child link that led to it, and changes nothing about the others. */
  lemma DropLeaf(t: Trie, nodes: map<Path, Node>, repr: set<Node>, bent: set<Path>, contents: map<Path, Entry>,
                 gone: Path, k: Path, left: Node?, right: Node?, priv: Option<Data>, ops: Option<NodeOps>)
    requires gone in nodes && Leaf(nodes.Keys, gone) && k in nodes && k != gone
    requires Placed(t, nodes, repr, gone) && Placed(t, nodes, repr, k)
    requires Linked(nodes, bent, contents, k, left, right, priv, ops)
    requires (left != null ==> left.key == Down(k, false)) && (right != null ==> right.key == Down(k, k !in bent))
    ensures Placed(t, nodes - {gone}, repr - {nodes[gone]}, k)
    ensures Linked(nodes - {gone}, bent - {gone}, contents, k,
                   if gone.Down? && k == gone.up && left == nodes[gone] then null else left,
                   if gone.Down? && k == gone.up && right == nodes[gone] then null else right, priv, ops)
  {
  }

  class Trie {
    var root: Node?
    var entries: nat
    /** Every node of the trie, by its path from the root. */
    ghost var nodes: map<Path, Node>
    /** The nodes whose left child hangs on the right: none, except while a subtree is being destroyed. */
    ghost var bent: set<Path>
    /** A set that holds those nodes and no freed one. */
    ghost var repr: set<Node>
    /** The entries: the map that the trie refines. */
    ghost var contents: map<Path, Entry>
    /** Nodes freed and destroy hooks called so far, in order. */
    ghost var freed: seq<Node>
    ghost var destroyed: seq<Node>
    /** How many nodes were allocated so far, and how many were dropped without being freed. */
    ghost var made: nat
    ghost var lost: nat

    /** Every node on a path has the right place and the right fields. */
    ghost predicate Shaped()
      reads this`root, this`nodes, this`bent, this`contents, this`repr, repr
    {
      && (root == null <==> nodes == map[])
      && (root != null ==> Top in nodes && nodes[Top] == root)
      && contents.Keys <= nodes.Keys && bent <= nodes.Keys
      && (forall p {:trigger Placed(this, nodes, repr, p)} :: p in nodes ==>
            && Placed(this, nodes, repr, p)
            && Linked(nodes, bent, contents, p, nodes[p].left, nodes[p].right, nodes[p].priv, nodes[p].ops))
    }

    ghost predicate Straight()
      reads this`root, this`nodes, this`bent, this`contents, this`repr, repr
    {
      Shaped() && bent == {}
    }

    ghost predicate Valid()
      reads this, repr
    {
      Sound() && bent == {}
    }

    ghost predicate Sound()
      reads this, repr
    {
      Shaped() && entries == |contents| && Booked()
    }

    /** No node is freed twice or still in use once it is freed, and every node that was allocated is in use,
        freed or lost. */
    ghost predicate Booked()
      reads this`nodes, this`repr, this`freed, this`made, this`lost
    {
      && NoDup(freed)
      && (forall m <- freed :: m !in repr)
      && made == |nodes| + |freed| + lost
    }

    ghost predicate Pruned()
      reads this`nodes, this`contents
    {
      PrunedShape(nodes.Keys, contents.Keys)
    }

    ghost predicate Holds(n: Node)
      reads this`nodes
    {
      n.key in nodes && nodes[n.key] == n
    }

    /** The paths whose nodes an insertion builds on: an empty trie starts over. */
    ghost function Usable(): set<Path>
      reads this`entries, this`nodes
    {
      if entries > 0 then nodes.Keys else {}
    }

    constructor ()
      ensures Valid() && Pruned() && nodes == map[] && contents == map[] && fresh(repr)
      ensures freed == [] && destroyed == [] && lost == 0
    {
      root, entries, nodes, bent, repr := null, 0, map[], {}, {};
      contents, freed, destroyed, made, lost := map[], [], [], 0, 0;
    }

    // ----- what the shape says

    lemma At(p: Path)
      requires Shaped() && p in nodes
      ensures Placed(this, nodes, repr, p)
      ensures Linked(nodes, bent, contents, p, nodes[p].left, nodes[p].right, nodes[p].priv, nodes[p].ops)
    {
    }

    /** Below a missing path there is nothing. */
    lemma {:induction false} NothingBelow(p: Path, k: Path)
      requires Shaped() && p !in nodes && IsPrefix(p, k)
      ensures k !in nodes
      decreases k
    {
      if k in nodes {
        At(k);
        NothingBelow(p, k.up);
      }
    }

    lemma Closed()
      requires Shaped()
      ensures PrefixClosed(nodes.Keys) && contents.Keys <= nodes.Keys
    {
      forall p | p in nodes && p.Down?
        ensures p.up in nodes
      {
        At(p);
      }
    }

    /** A node hangs below its parent on the side of its last bit; only the root is its own parent. */
    lemma ParentLink(n: Node)
      requires Shaped() && Holds(n)
      ensures n in repr && n.parent in repr
      ensures n.parent == n <==> n.key == Top
      ensures n.key.Down? ==>
        && n.key.up in nodes && n.parent == nodes[n.key.up] && n.parent.key == n.key.up
        && (n.parent.right == n <==> n.key.bit || n.key.up in bent)
        && (n.parent.left == n <==> !n.key.bit && n.key.up !in bent)
    {
      At(n.key);
      if n.key.Down? {
        At(n.key.up);
        if Down(n.key.up, !n.key.bit) in nodes {
          At(Down(n.key.up, !n.key.bit));
        }
      }
    }

    lemma BitsOf(n: Node)
      requires Straight() && Holds(n)
      ensures n in repr && n.prefixBits == Len(n.key)
    {
      At(n.key);
    }

    /** A trie with entries has a root. */
    lemma Rooted()
      requires Valid() && entries > 0
      ensures root != null && Holds(root) && root.key == Top
    {
      assert nodes != map[];
      At(Top);
    }

    /** What the fields that the pruning loop tests say. */
    lemma Tested(n: Node)
      requires Valid() && Holds(n)
      ensures n in repr && n.parent in repr && n !in freed && n.prefixBits == Len(n.key)
      ensures n.priv.None? <==> n.key !in contents
      ensures n.left == null && n.right == null <==> Leaf(nodes.Keys, n.key)
      ensures n.parent == n <==> n.key == Top
    {
      At(n.key);
      ParentLink(n);
    }

    // ----- lookup

    /** Entries that cover the query lie no deeper than where the walk along it ends. */
    lemma SearchEndsHere(prefix: seq<bv8>, bits: nat, d: nat, matcher: Matcher, r: Option<Path>)
      requires Straight() && PrefixSize(bits) <= |prefix| && d <= bits
      requires d < bits ==> PathOf(prefix, d + 1) !in nodes
      requires IsLongestBelow(contents, PathOf(prefix, bits), matcher, d + 1, r)
      ensures IsLongestMatch(contents, PathOf(prefix, bits), matcher, r)
      ensures forall k {:trigger k in contents} :: k in contents && IsPrefix(k, PathOf(prefix, bits)) ==> Len(k) <= d
    {
      var q := PathOf(prefix, bits);
      forall k | k in contents && IsPrefix(k, q)
        ensures Len(k) <= d
      {
        PrefixesOfBuffer(prefix, bits, k);
        if d < Len(k) {
          BufferPrefix(prefix, Len(k), d + 1);
          NothingBelow(PathOf(prefix, d + 1), k);
        }
      }
    }

    /** Where the walk along a query ends is as far as its path exists. */
    lemma PathEnds(prefix: seq<bv8>, bits: nat, depth: nat)
      requires Straight() && PrefixSize(bits) <= |prefix| && depth <= bits && PathOf(prefix, depth) in nodes
      requires depth < bits ==> PathOf(prefix, depth + 1) !in nodes
      ensures Missing(nodes.Keys, PathOf(prefix, bits)) == bits - depth
      ensures forall d {:trigger PathOf(prefix, d)} :: depth < d <= bits ==> PathOf(prefix, d) !in nodes
    {
      forall d | depth < d <= bits
        ensures PathOf(prefix, d) !in nodes
      {
        BufferPrefix(prefix, d, depth + 1);
        NothingBelow(PathOf(prefix, depth + 1), PathOf(prefix, d));
      }
      MissingBelow(nodes.Keys, prefix, bits, depth);
    }

    /** One step of the walk along the query: what its node adds to the answer, and where its next bit leads. */
    lemma WalkStep(prefix: seq<bv8>, bits: nat, d: nat, matcher: Matcher, prev: Option<Path>)
      requires Straight() && PrefixSize(bits) <= |prefix| && d <= bits && PathOf(prefix, d) in nodes
      requires IsLongestBelow(contents, PathOf(prefix, bits), matcher, d, prev)
      ensures var n := nodes[PathOf(prefix, d)];
        && n.key == PathOf(prefix, d) && n.prefixBits == d
        && IsLongestBelow(contents, PathOf(prefix, bits), matcher, d + 1,
                          if n.priv.Some? && (matcher.None? || matcher.value(n.priv.value)) then Some(n.key) else prev)
        && (d < bits ==> (if CheckBit(prefix, d) then n.right else n.left)
                         == (if PathOf(prefix, d + 1) in nodes then nodes[PathOf(prefix, d + 1)] else null))
    {
      At(PathOf(prefix, d));
      BufferPrefix(prefix, bits, d);
      ConsiderDepth(contents, PathOf(prefix, bits), matcher, PathOf(prefix, d), prev);
    }

    /** Walks along the query: the deepest node on it, and the last accepted entry met. */
    method FindNode(prefix: seq<bv8>, bits: nat, matcher: Matcher)
        returns (n: Node?, prev: Node?, ghost depth: nat)
      requires Valid() && PrefixSize(bits) <= |prefix|
      ensures n == null <==> root == null
      ensures n != null ==>
        && depth <= bits && PathOf(prefix, depth) in nodes && nodes[PathOf(prefix, depth)] == n
        && (depth < bits ==> PathOf(prefix, depth + 1) !in nodes)
        && forall k {:trigger k in contents} :: k in contents && IsPrefix(k, PathOf(prefix, bits)) ==> Len(k) <= depth
      ensures prev != null ==> Holds(prev)
      ensures IsLongestMatch(contents, PathOf(prefix, bits), matcher, KeyOf(prev))
      ensures prev != null ==> prev.key in contents && IsPrefix(prev.key, PathOf(prefix, bits))
      ensures matcher.Some? && prev != null ==> matcher.value(contents[prev.key].data)
      ensures matcher.Some? ==>
        forall k {:trigger k in contents} :: k in contents && IsPrefix(k, PathOf(prefix, bits)) ==>
          (matcher.value(contents[k].data) ==> prev != null && Len(k) <= Len(prev.key))
      ensures matcher.None? ==>
        forall k {:trigger k in contents} :: k in contents && IsPrefix(k, PathOf(prefix, bits)) ==>
          prev != null && Len(k) <= Len(prev.key)
    {
      hide ByteBit, IsLongestBelow, IsLongestMatch, IsPrefix;
      ghost var q := PathOf(prefix, bits);
      SearchStarts(contents, q, matcher);
      prev, depth := null, 0;
      n := root;
      if n == null {
        return;
      }
      while true
        invariant depth <= bits && PathOf(prefix, depth) in nodes && n == nodes[PathOf(prefix, depth)]
        invariant prev != null ==> Holds(prev)
        invariant IsLongestBelow(contents, q, matcher, depth, KeyOf(prev))
        decreases bits - depth
      {
        WalkStep(prefix, bits, depth, matcher, KeyOf(prev));
        if n.priv.Some? && (matcher.None? || matcher.value(n.priv.value)) {
          prev := n;
        }
        if bits == 0 || n.prefixBits == bits {
          break;
        }
        if CheckBit(prefix, n.prefixBits) {
          if n.right != null {
            n, depth := n.right, depth + 1;
          } else {
            break;
          }
        } else {
          if n.left != null {
            n, depth := n.left, depth + 1;
          } else {
            break;
          }
        }
      }
      SearchEndsHere(prefix, bits, depth, matcher, KeyOf(prev));
      LongestMeans(contents, q, matcher, KeyOf(prev));
    }

    /** Longest-prefix match: the node of the entry that a brute-force search would choose. */
    method FindLongestMatch(prefix: seq<bv8>, bits: nat, matcher: Matcher) returns (r: Node?)
      requires Valid() && PrefixSize(bits) <= |prefix|
      ensures r != null ==> Holds(r)
      ensures IsLongestMatch(contents, PathOf(prefix, bits), matcher, KeyOf(r))
      ensures r != null ==> r.key in contents && IsPrefix(r.key, PathOf(prefix, bits))
      ensures matcher.Some? && r != null ==> matcher.value(contents[r.key].data)
      ensures matcher.Some? ==>
        forall k {:trigger k in contents} :: k in contents && IsPrefix(k, PathOf(prefix, bits)) ==>
          (matcher.value(contents[k].data) ==> r != null && Len(k) <= Len(r.key))
      ensures matcher.None? ==>
        forall k {:trigger k in contents} :: k in contents && IsPrefix(k, PathOf(prefix, bits)) ==>
          r != null && Len(k) <= Len(r.key)
    {
      ghost var depth;
      var n, prev;
      n, prev, depth := FindNode(prefix, bits, matcher);
      if n != null {
        At(PathOf(prefix, depth));
        BufferPrefix(prefix, bits, depth);
        if n.priv.Some? && (matcher.None? || matcher.value(n.priv.value)) {
          assert Covers(contents, n.key, PathOf(prefix, bits), matcher);
          LongestMeans(contents, PathOf(prefix, bits), matcher, KeyOf(n));
          return n;
        }
      }
      return prev;
    }

    // ----- insertion

    /** The links after a new leaf `n` was hung below its parent. */
    twostate lemma Attached(parent: Node, new n: Node)
      requires old(Straight()) && old(Holds(parent)) && n.key.Down? && n.key.up == parent.key && n.key !in old(nodes)
      requires n !in old(repr) && n.tree == this && n.parent == parent && n.Coded()
      requires n.left == null && n.right == null && n.priv.None? && n.ops.None?
      requires nodes == old(nodes)[n.key := n] && repr == old(repr) + {n}
      requires root == old(root) && contents == old(contents) && bent == old(bent)
      requires forall m <- old(repr) :: m.priv == old(m.priv) && m.ops == old(m.ops)
      requires forall m <- old(repr) :: m.left == if m == parent && !n.key.bit then n else old(m.left)
      requires forall m <- old(repr) :: m.right == if m == parent && n.key.bit then n else old(m.right)
      ensures Straight()
    {
      assert PrefixClosed(old(nodes).Keys) by {
        forall k | k in old(nodes)
          ensures Placed(this, old(nodes), old(repr), k)
        {
        }
      }
      forall k | k in nodes
        ensures Placed(this, nodes, repr, k)
        ensures Linked(nodes, bent, contents, k, nodes[k].left, nodes[k].right, nodes[k].priv, nodes[k].ops)
      {
        if k != n.key {
          assert Placed(this, old(nodes), old(repr), k) && Placed(this, old(nodes), old(repr), parent.key);
          AddLeaf(this, old(nodes), old(repr), contents, n, k,
                  old(nodes[k].left), old(nodes[k].right), old(nodes[k].priv), old(nodes[k].ops));
        } else {
          assert Placed(this, old(nodes), old(repr), parent.key);
          NoOrphans(old(nodes), n.key);
        }
      }
    }

    /** Hangs a childless inactive node below the node on path `p`. */
    method Attach(parent: Node, bit: bool, n: Node)
      requires Straight() && Holds(parent) && Down(parent.key, bit) !in nodes
      requires n !in repr && n.tree == this && n.parent == parent && n.key == Down(parent.key, bit) && n.Coded()
      requires n.left == null && n.right == null && n.priv.None? && n.ops.None?
      modifies this`nodes, this`repr, this`made, parent`left, parent`right
      ensures Straight() && nodes == old(nodes)[Down(parent.key, bit) := n] && repr == old(repr) + {n}
      ensures made == old(made) + 1
    {
      At(parent.key);
      if bit {
        parent.right := n;
      } else {
        parent.left := n;
      }
      nodes := nodes[n.key := n];
      repr := repr + {n};
      made := made + 1;
      Attached(parent, n);
    }

    /** What the shape becomes when the first missing node on the way to the query is added. */
    lemma Grown(prefix: seq<bv8>, bits: nat, d: nat)
      requires Straight() && PrefixSize(bits) <= |prefix| && d < bits && PathOf(prefix, d + 1) !in nodes
      ensures PathOf(prefix, d + 1) == Down(PathOf(prefix, d), CheckBit(prefix, d))
      ensures d + 1 < bits ==> PathOf(prefix, d + 2) !in nodes.Keys + {PathOf(prefix, d + 1)}
      ensures PrunedBut(nodes.Keys, contents.Keys, PathOf(prefix, d)) ==>
        PrunedBut(nodes.Keys + {PathOf(prefix, d + 1)}, contents.Keys, PathOf(prefix, d + 1))
    {
      hide ByteBit, Linked;
      var k := PathOf(prefix, d + 1);
      Closed();
      NoOrphans(nodes, k);
      if PrunedBut(nodes.Keys, contents.Keys, k.up) {
        GrowLeaf(nodes.Keys, contents.Keys, k);
      }
    }

    /** Allocates the child of `parent` on the query's next bit, or reports failed allocation. */
    method CreateNode(parent: Node, prefix: seq<bv8>, bits: nat, ghost d: nat, alloc: bool) returns (n: Node?)
      requires Straight() && PrefixSize(bits) <= |prefix| && d < bits
      requires Holds(parent) && parent.key == PathOf(prefix, d) && PathOf(prefix, d + 1) !in nodes
      modifies this`nodes, this`repr, this`made, parent`left, parent`right
      ensures Straight() && (n != null <==> alloc) && Kept() && (old(Booked()) ==> Booked())
      ensures n == null ==> nodes == old(nodes) && repr == old(repr)
      ensures n != null ==>
        && nodes.Keys == old(nodes).Keys + {n.key} && fresh(n) && repr == old(repr) + {n} && n.key == PathOf(prefix, d + 1)
        && Holds(n) && (d + 1 < bits ==> PathOf(prefix, d + 2) !in nodes)
        && (old(PrunedBut(nodes.Keys, contents.Keys, parent.key)) ==> PrunedBut(nodes.Keys, contents.Keys, n.key))
    {
      hide ByteBit, Shaped, Linked, Packs, PathOf, PrunedBut;
      if !alloc {
        return null;
      }
      At(parent.key);
      Grown(prefix, bits, d);
      var bytes := PackPrefix(prefix, parent.prefixBits + 1);
      n := new Node.Child(parent, bytes, CheckBit(prefix, parent.prefixBits));
      Attach(parent, CheckBit(prefix, parent.prefixBits), n);
      assert nodes.Keys == old(nodes).Keys + {n.key};
    }

    /** Allocates the missing path to the query below `parent`; a failed allocation leaves it incomplete. */
    method NewPath(parent: Node, prefix: seq<bv8>, bits: nat, ghost depth: nat, budget: nat) returns (n: Node?)
      requires Straight() && PrefixSize(bits) <= |prefix| && depth < bits
      requires Holds(parent) && parent.key == PathOf(prefix, depth) && PathOf(prefix, depth + 1) !in nodes
      requires forall d :: depth < d <= bits ==> PathOf(prefix, d) !in nodes
      modifies this`nodes, this`repr, this`made, parent`left, parent`right
      ensures Straight() && old(repr) <= repr && fresh(repr - old(repr)) && Kept() && (old(Booked()) ==> Booked())
      ensures nodes.Keys == Extend(old(nodes).Keys, PathOf(prefix, bits), budget)
      ensures n != null <==> bits - depth <= budget
      ensures n != null ==> Holds(n) && n.key == PathOf(prefix, bits)
      ensures n != null && old(PrunedBut(nodes.Keys, contents.Keys, parent.key)) ==>
        PrunedBut(nodes.Keys, contents.Keys, n.key)
    {
      hide ByteBit, IsPrefix, Extend, PathOf, PrunedBut, Straight, Missing, Booked;
      ghost var keys, d := nodes.Keys, depth;
      ExtendHere(keys, PathOf(prefix, d), budget);
      var at: Node := parent;
      var memory := budget;
      while true
        invariant d - depth == budget - memory
        invariant Straight() && depth <= d < bits && Holds(at) && at.key == PathOf(prefix, d)
        invariant PathOf(prefix, d + 1) !in nodes
        invariant old(repr) <= repr && fresh(repr - old(repr)) && (at == parent || fresh(at)) && Kept()
        invariant old(Booked()) ==> Booked()
        invariant nodes.Keys == Extend(keys, PathOf(prefix, d), budget)
        invariant old(PrunedBut(nodes.Keys, contents.Keys, parent.key)) ==>
          PrunedBut(nodes.Keys, contents.Keys, at.key)
        decreases bits - d
      {
        BitsOf(at);
        ExtendStep(keys, prefix, bits, depth, d, memory, budget);
        n := CreateNode(at, prefix, bits, d, memory > 0);
        if n == null || at.prefixBits + 1 == bits {
          break;
        }
        at, d, memory := n, d + 1, memory - 1;
      }
    }

    /** The fields after the entry of one node was set or cleared. */
    twostate lemma EntrySet(n: Node)
      requires old(Shaped()) && old(Holds(n))
      requires nodes == old(nodes) && repr == old(repr) && root == old(root) && bent == old(bent)
      requires contents == WithEntry(old(contents), n.key, EntryOf(n.priv, n.ops)) && (n.priv.None? ==> n.ops.None?)
      requires forall m <- old(repr) :: m.left == old(m.left) && m.right == old(m.right)
      requires forall m <- old(repr) :: m != n ==> m.priv == old(m.priv) && m.ops == old(m.ops)
      ensures Shaped()
    {
      forall k | k in nodes
        ensures Placed(this, nodes, repr, k)
        ensures Linked(nodes, bent, contents, k, nodes[k].left, nodes[k].right, nodes[k].priv, nodes[k].ops)
      {
        assert Placed(this, old(nodes), old(repr), k);
      }
    }

    method SetEntry(n: Node, ops: Option<NodeOps>, priv: Option<Data>)
      requires Shaped() && Holds(n)
      requires priv.None? ==> ops.None?
      modifies n`ops, n`priv, this`contents
      ensures Shaped()
      ensures contents == WithEntry(old(contents), n.key, EntryOf(priv, ops))
    {
      n.ops := ops;
      n.priv := priv;
      contents := WithEntry(contents, n.key, EntryOf(priv, ops));
      EntrySet(n);
    }

    /** Marks an inactive node active; refuses a node that already holds an entry. */
    method InitNode(n: Node, ops: Option<NodeOps>, v: Data) returns (ok: bool)
      requires Shaped() && Holds(n)
      modifies n`ops, n`priv, this`contents
      ensures Shaped()
      ensures ok <==> n.key !in old(contents)
      ensures contents == if ok then old(contents)[n.key := Entry(ops, v)] else old(contents)
    {
      At(n.key);
      if n.ops.Some? || n.priv.Some? {
        return false;
      }
      SetEntry(n, ops, Some(v));
      return true;
    }

    lemma RootAlone()
      requires root != null && root.key == Top && root.tree == this && root.parent == root && root.Coded()
      requires root.left == null && root.right == null && root.priv.None? && root.ops.None?
      requires nodes == map[Top := root] && repr == {root} && bent == {} && contents == map[]
      ensures Shaped()
    {
      assert Top in nodes;
      forall k | k in nodes
        ensures Placed(this, nodes, repr, k)
        ensures Linked(nodes, bent, contents, k, nodes[k].left, nodes[k].right, nodes[k].priv, nodes[k].ops)
      {
      }
    }

    /** An empty trie gets a new root; whatever nodes it still had are dropped. */
    method NewRoot(alloc: bool) returns (ok: bool)
      requires Valid() && entries == 0
      modifies this`root, this`nodes, this`repr, this`made, this`lost
      ensures Valid() && (ok <==> root != null) && (ok <==> alloc) && lost == old(lost) + |old(nodes)|
      ensures nodes.Keys == (if ok then {Top} else {}) && fresh(repr) && contents == map[] && Pruned()
    {
      hide Linked, Placed, Packs;
      lost := lost + |nodes|;
      if !alloc {
        root, nodes, repr := null, map[], {};
        return false;
      }
      var r := new Node.Root(this);
      root := r;
      nodes := map[Top := r];
      repr := {r};
      made := made + 1;
      RootAlone();
      return true;
    }

    /** Makes sure there is a root to insert below: an empty trie starts over.  `memory` is what is left of `budget`. */
    method StartOver(ghost q: Path, budget: nat) returns (ok: bool, memory: nat)
      requires Valid()
      modifies this`root, this`nodes, this`repr, this`made, this`lost
      ensures Valid() && fresh(repr - old(repr)) && (old(Pruned()) ==> Pruned())
      ensures old(entries) > 0 ==> ok && nodes == old(nodes) && repr == old(repr)
      ensures ok ==> root != null && Extend(nodes.Keys, q, memory) == Extend(old(Usable()), q, budget)
      ensures ok ==> (Missing(nodes.Keys, q) <= memory <==> Missing(old(Usable()), q) <= budget)
      ensures !ok ==> nodes.Keys == Extend(old(Usable()), q, budget) && Missing(old(Usable()), q) > budget
      ensures lost == old(lost) + if old(entries) > 0 then 0 else |old(nodes)|
    {
      hide Missing, Pruned, Extend, Shaped, Booked;
      memory := budget;
      if entries == 0 {
        MissingAll(q);
        ExtendFromRoot(q, budget);
        ok := NewRoot(memory > 0);
        memory := if ok then memory - 1 else 0;
      } else {
        Rooted();
        ok := true;
      }
    }

    /** Every node is where it was. */
    twostate predicate Kept()
      reads this`nodes
    {
      forall p <- old(nodes) :: p in nodes && nodes[p] == old(nodes)[p]
    }

    /** The node of the query, with the missing path to it allocated. */
    method FindOrCreate(prefix: seq<bv8>, bits: nat, budget: nat) returns (n: Node?)
      requires Valid() && root != null && PrefixSize(bits) <= |prefix|
      modifies this`nodes, this`repr, this`made, repr
      ensures Straight() && Booked() && old(repr) <= repr && fresh(repr - old(repr)) && Kept()
      ensures nodes.Keys == Extend(old(nodes).Keys, PathOf(prefix, bits), budget)
      ensures n != null <==> Missing(old(nodes).Keys, PathOf(prefix, bits)) <= budget
      ensures n != null ==> Holds(n) && n.key == PathOf(prefix, bits)
      ensures n != null && old(Pruned()) ==> PrunedBut(nodes.Keys, contents.Keys, PathOf(prefix, bits))
    {
      hide ByteBit, Extend, Booked, Missing, Linked, Packs;
      ghost var depth;
      var prev;
      n, prev, depth := FindNode(prefix, bits, None);
      At(PathOf(prefix, depth));
      PathEnds(prefix, bits, depth);
      if n.prefixBits < bits {
        n := NewPath(n, prefix, bits, depth, budget);
      } else {
        ExtendHere(nodes.Keys, n.key, budget);
      }
    }

    /** Inserts into a trie that has a root. */
    method InsertNode(ops: Option<NodeOps>, v: Data, prefix: seq<bv8>, bits: nat, budget: nat) returns (n: Node?)
      requires Valid() && root != null && PrefixSize(bits) <= |prefix|
      modifies this`nodes, this`contents, this`repr, this`made, repr
      ensures Straight() && Booked() && fresh(repr - old(repr)) && Kept()
      ensures var q := PathOf(prefix, bits);
        && nodes.Keys == Extend(old(nodes).Keys, q, budget)
        && (n != null <==> q !in old(contents) && Missing(old(nodes).Keys, q) <= budget)
        && (n != null ==> Holds(n) && n.key == q)
        && contents == (if n == null then old(contents) else old(contents)[q := Entry(ops, v)])
        && (old(Pruned()) && (n != null || q in old(contents)) ==> Pruned())
    {
      hide ByteBit, Extend, Booked, PathOf, Shaped;
      Closed();
      n := FindOrCreate(prefix, bits, budget);
      if n == null {
        return null;
      }
      BitsOf(n);
      var ok := InitNode(n, ops, v);
      if !ok {
        return null;
      }
    }

    /** Inserts an entry, unless its prefix has one or memory runs out; an empty trie starts from a new root.
        `budget` is how many allocations succeed before one fails.  Nodes that an empty trie still has are lost. */
    method Insert(ops: Option<NodeOps>, v: Data, prefix: seq<bv8>, bits: nat, budget: nat) returns (n: Node?)
      requires Valid() && PrefixSize(bits) <= |prefix|
      modifies this, repr
      ensures Valid() && fresh(repr - old(repr)) && (old(entries) > 0 ==> Kept())
      ensures nodes.Keys == Extend(old(Usable()), PathOf(prefix, bits), budget)
      ensures var q := PathOf(prefix, bits);
        && (n != null <==> q !in old(contents) && Missing(old(Usable()), q) <= budget)
        && (n != null ==> Holds(n) && n.key == q)
        && contents == (if n == null then old(contents) else old(contents)[q := Entry(ops, v)])
        && (old(Pruned()) && (n != null || q in old(contents)) ==> Pruned())
      ensures freed == old(freed) && destroyed == old(destroyed)
      ensures lost == old(lost) + if old(entries) > 0 then 0 else |old(nodes)|
    {
      hide ByteBit, Missing, PathOf, Pruned, Extend, Shaped, Booked, Usable;
      var ok, memory := StartOver(PathOf(prefix, bits), budget);
      if !ok {
        return null;
      }
      n := InsertNode(ops, v, prefix, bits, memory);
      if n != null {
        entries := entries + 1;
      }
    }

    // ----- removal

    /** Takes the entry off a node, calling its destroy hook. */
    method Orphan(n: Node)
      requires Sound() && Holds(n)
      modifies this`entries, this`contents, this`destroyed, n`ops, n`priv
      ensures Sound() && contents == old(contents) - {n.key}
      ensures destroyed == old(destroyed) + if n.key in old(contents) && old(contents)[n.key].Hooked() then [n] else []
    {
      hide Shaped;
      At(n.key);
      if n.priv.Some? {
        MapRemoveOne(contents, n.key);
        entries := entries - 1;
        if n.ops.Some? && n.ops.value.hasDestroy {
          destroyed := destroyed + [n];
        }
        SetEntry(n, None, None);
      }
    }

    method Remove(prefix: seq<bv8>, bits: nat) returns (removed: bool)
      requires Valid() && PrefixSize(bits) <= |prefix|
      modifies this, repr
      ensures Valid()
      ensures removed <==> PathOf(prefix, bits) in old(contents)
      ensures contents == old(contents) - {PathOf(prefix, bits)}
      ensures nodes == old(nodes) && freed == old(freed) && repr == old(repr) && lost == old(lost)
    {
      hide ByteBit, Shaped;
      ghost var q := PathOf(prefix, bits);
      var n := FindLongestMatch(prefix, bits, None);
      if n != null {
        At(n.key);
        PrefixLen(n.key, q);
        if n.prefixBits == bits {
          Orphan(n);
          return true;
        }
      }
      assert Covers(contents, q, q, None) <==> q in contents;
      return false;
    }

    /** The links after a childless inactive node was taken off its parent. */
    twostate lemma Unlinked(n: Node)
      requires old(Shaped()) && old(Holds(n)) && n.key !in old(contents) && Leaf(old(nodes).Keys, n.key)
      requires nodes == old(nodes) - {n.key} && repr == old(repr) - {n}
      requires contents == old(contents) && bent == old(bent) - {n.key}
      requires root == if n.key == Top then null else old(root)
      requires forall m <- old(repr) :: m.priv == old(m.priv) && m.ops == old(m.ops)
      requires forall m <- old(repr) :: m != n ==>
        m.left == if m == n.parent && old(m.left) == n then null else old(m.left)
      requires forall m <- old(repr) :: m != n ==>
        m.right == if m == n.parent && old(m.right) == n then null else old(m.right)
      ensures Shaped()
    {
      if n.key == Top {
        forall k | k in old(nodes)
          ensures Placed(this, old(nodes), old(repr), k)
        {
        }
        NothingElse(old(nodes));
        assert nodes == map[];
      } else {
        assert Top in nodes;
      }
      forall k | k in nodes
        ensures Placed(this, nodes, repr, k)
        ensures Linked(nodes, bent, contents, k, nodes[k].left, nodes[k].right, nodes[k].priv, nodes[k].ops)
      {
        assert Placed(this, old(nodes), old(repr), k) && Placed(this, old(nodes), old(repr), n.key);
        assert n.key.Down? ==> Placed(this, old(nodes), old(repr), n.key.up);
        assert Down(k, false) in old(nodes) ==> Placed(this, old(nodes), old(repr), Down(k, false));
        assert Down(k, true) in old(nodes) ==> Placed(this, old(nodes), old(repr), Down(k, true));
        DropLeaf(this, old(nodes), old(repr), old(bent), contents, n.key, k,
                 old(nodes[k].left), old(nodes[k].right), old(nodes[k].priv), old(nodes[k].ops));
      }
    }

    /** Clears the link to a childless inactive node. */
    method Unlink(n: Node)
      requires Shaped() && Holds(n) && n.key !in contents && Leaf(nodes.Keys, n.key)
      modifies this`root, this`nodes, this`bent, this`repr, n.parent`left, n.parent`right
      ensures Shaped() && nodes == old(nodes) - {n.key} && repr == old(repr) - {n} && bent == old(bent) - {n.key}
      ensures unchanged(n)
    {
      ParentLink(n);
      if n.parent != n {
        if n.parent.right == n {
          n.parent.right := null;
        } else {
          n.parent.left := null;
        }
      } else {
        root := null;
      }
      nodes := nodes - {n.key};
      bent := bent - {n.key};
      repr := repr - {n};
      Unlinked(n);
    }

    /** Frees an inactive childless node and clears the link to it. */
    method FreeNode(n: Node)
      requires Sound() && Holds(n) && n.key !in contents && n.left == null && n.right == null
      modifies this`root, this`nodes, this`bent, this`repr, this`freed, n.parent`left, n.parent`right
      ensures Sound() && nodes == old(nodes) - {n.key} && repr == old(repr) - {n} && freed == old(freed) + [n]
      ensures bent == old(bent) - {n.key} && unchanged(n)
    {
      At(n.key);
      MapRemoveOne(nodes, n.key);
      Unlink(n);
      freed := freed + [n];
    }

    /** The links after a node without right child had its left child moved to the right. */
    twostate lemma Turned(n: Node)
      requires old(Shaped()) && old(Holds(n)) && old(n.right) == null && old(n.left) != null
      requires nodes == old(nodes) && repr == old(repr) && root == old(root)
      requires contents == old(contents) && bent == old(bent) + {n.key}
      requires n.right == old(n.left) && n.left == null
      requires forall m <- old(repr) :: m.priv == old(m.priv) && m.ops == old(m.ops)
      requires forall m <- old(repr) :: m != n ==> m.left == old(m.left) && m.right == old(m.right)
      ensures Shaped()
    {
      assert Placed(this, old(nodes), old(repr), n.key);
      forall k | k in nodes
        ensures Placed(this, nodes, repr, k)
        ensures Linked(nodes, bent, contents, k, nodes[k].left, nodes[k].right, nodes[k].priv, nodes[k].ops)
      {
        assert Placed(this, old(nodes), old(repr), k);
      }
    }

    /** Moves the left child of a node that has no right child to the right. */
    method Turn(n: Node)
      requires Sound() && Holds(n) && n.right == null && n.left != null
      modifies this`bent, n`left, n`right
      ensures Sound() && bent == old(bent) + {n.key} && n.key !in old(bent)
    {
      At(n.key);
      n.right := n.left;
      n.left := null;
      bent := bent + {n.key};
      Turned(n);
    }

    /** Frees an inactive childless node other than the root, and goes to its parent. */
    method FreeAndUp(n: Node) returns (parent: Node)
      requires Valid() && Holds(n) && n.key.Down? && n.key !in contents && n.left == null && n.right == null
      modifies this`root, this`nodes, this`bent, this`repr, this`freed, repr
      ensures Valid() && nodes == old(nodes) - {n.key} && repr <= old(repr) && freed == old(freed) + [n]
      ensures parent == n.parent && Holds(parent) && parent.key == n.key.up
    {
      hide Shaped;
      ParentLink(n);
      parent := n.parent;
      FreeNode(n);
    }

    /** Frees `at` and every ancestor that this leaves inactive and childless, up to the root.  Each test of the
        loop reads the node it is about, freed or not: `stale` lists the freed nodes that were read. */
    method PruneUp(at: Node) returns (ghost stale: seq<Node>)
      requires Valid() && (Holds(at) || (at in freed && at.key == Top && at.parent == at))
      modifies this`root, this`nodes, this`bent, this`repr, this`freed, repr
      ensures Valid() && FreedAlong(at.key, old(nodes), nodes, old(freed), freed) && repr <= old(repr)
      ensures nodes.Keys == Trim(old(nodes).Keys, contents.Keys, at.key)
      ensures old(PrunedBut(nodes.Keys, contents.Keys, at.key)) ==> Pruned()
      ensures stale == if old(Holds(at)) then [] else [at]
    {
      hide FreedAlong, Sound, Trim;
      var n := at;
      ghost var keys, active := nodes.Keys, contents.Keys;
      PruneStart(n);
      stale := if n in freed then [n] else [];
      while n.priv.None? && n.left == null && n.right == null && n != n.parent
        invariant Valid() && (Holds(n) || (n == at && n.key == Top && n.parent == n)) && IsPrefix(n.key, at.key)
        invariant FreedAlong(at.key, old(nodes), nodes, old(freed), freed) && repr <= old(repr)
        invariant Trim(nodes.Keys, active, n.key) == Trim(keys, active, at.key)
        invariant PrunedBut(keys, active, at.key) ==> PrunedBut(nodes.Keys, active, n.key)
        invariant stale == if old(Holds(at)) then [] else [at]
        decreases n.key
      {
        Tested(n);
        PruneStep(at.key, n);
        FreeOneMore(at.key, old(nodes), nodes, old(freed), freed, n.key);
        n := FreeAndUp(n);
        Tested(n);
        stale := stale + if n in freed then [n] else [];
      }
      PruneStop(n);
    }

    lemma PruneStart(at: Node)
      requires Valid()
      ensures Holds(at) ==> at !in freed
      ensures FreedAlong(at.key, nodes, nodes, freed, freed) && IsPrefix(at.key, at.key)
    {
      if Holds(at) {
        At(at.key);
      }
    }

    lemma PruneStep(path: Path, n: Node)
      requires Valid() && Holds(n) && n.key.Down? && n.key !in contents && Leaf(nodes.Keys, n.key) && IsPrefix(n.key, path)
      ensures (nodes - {n.key}).Keys == nodes.Keys - {n.key} && IsPrefix(n.key.up, path)
      ensures Trim(nodes.Keys, contents.Keys, n.key) == Trim(nodes.Keys - {n.key}, contents.Keys, n.key.up)
      ensures PrunedBut(nodes.Keys, contents.Keys, n.key) ==>
        PrunedBut(nodes.Keys - {n.key}, contents.Keys, n.key.up)
    {
      PrefixTransitive(n.key.up, n.key, path);
      if PrunedBut(nodes.Keys, contents.Keys, n.key) {
        CutLeaf(nodes.Keys, contents.Keys, n.key);
      }
    }

    lemma PruneStop(n: Node)
      requires Valid() && (Holds(n) || n.key == Top)
      requires !(n.priv.None? && n.left == null && n.right == null && n != n.parent)
      ensures Trim(nodes.Keys, contents.Keys, n.key) == nodes.Keys
      ensures PrunedBut(nodes.Keys, contents.Keys, n.key) ==> Pruned()
    {
      if Holds(n) {
        Tested(n);
      }
    }

    /** Frees a childless inactive node and every ancestor that this leaves inactive and childless.  A root is
        its own parent, so it is read once more after it was freed. */
    method FreeUp(n: Node) returns (ghost stale: seq<Node>)
      requires Valid() && Holds(n) && n.key !in contents && n.left == null && n.right == null
      modifies this`root, this`nodes, this`bent, this`repr, this`freed, repr
      ensures Valid() && FreedAlong(n.key, old(nodes), nodes, old(freed), freed) && repr <= old(repr)
      ensures nodes.Keys == ReleaseShape(old(nodes).Keys, contents.Keys, n.key)
      ensures old(PrunedBut(nodes.Keys, contents.Keys, n.key)) ==> Pruned()
      ensures stale == if n.key == Top then [n] else []
    {
      hide FreedAlong, Shaped, Trim, PrunedBut;
      ParentLink(n);
      Tested(n);
      PruneStart(n);
      FreeOneMore(n.key, nodes, nodes, freed, freed, n.key);
      assert (nodes - {n.key}).Keys == nodes.Keys - {n.key} && contents.Keys - {n.key} == contents.Keys;
      if n.key == Top {
        Closed();
        NothingElse(nodes);
        TrimTop(nodes.Keys - {n.key}, contents.Keys);
      } else {
        PruneStep(n.key, n);
      }
      FreeNode(n);
      ghost var after, freedAfter := nodes, freed;
      stale := PruneUp(n.parent);
      FreedTransitive(n.key, n.parent.key, old(nodes), after, nodes, old(freed), freedAfter, freed);
    }

    /** Takes the entry off a node, then frees it and every ancestor that this leaves inactive and childless.
        A freed node is read exactly when the root is released while it has no children. */
    method Release(n: Node) returns (ghost stale: seq<Node>)
      requires Valid() && Holds(n)
      modifies this, repr
      ensures Valid() && contents == old(contents) - {n.key}
      ensures nodes.Keys == ReleaseShape(old(nodes).Keys, old(contents).Keys, n.key)
      ensures old(Pruned()) ==> Pruned()
      ensures FreedAlong(n.key, old(nodes), nodes, old(freed), freed) && repr <= old(repr) && lost == old(lost)
      ensures destroyed == old(destroyed) + if n.key in old(contents) && old(contents)[n.key].Hooked() then [n] else []
      ensures stale == if n.key == Top && old(n.left == null && n.right == null) then [n] else []
    {
      hide FreedAlong, Sound, Trim;
      Tested(n);
      Orphan(n);
      Tested(n);
      PruneStart(n);
      assert contents.Keys - {n.key} == contents.Keys && contents.Keys == old(contents).Keys - {n.key};
      stale := [];
      if n.left != null || n.right != null {
        assert !Leaf(nodes.Keys, n.key);
        return;
      }
      stale := FreeUp(n);
    }
  }
}

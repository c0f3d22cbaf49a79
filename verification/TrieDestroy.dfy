/** Destruction of a subtree without recursion and without a stack: the walk goes down right links,
    turns a left link into a right link where there is no right child, and climbs by parent links. */
module TrieDestroy {
  import opened Wrappers
  import opened Bits
  import opened Trie
  import opened TrieWalk

  /** `s` lists the nodes on the given paths, each exactly once. */
  ghost predicate Lists(s: seq<Node>, ps: set<Path>, nodes: map<Path, Node>) {
    && NoDup(s)
    && (forall n <- s :: n.key in ps && n.key in nodes && nodes[n.key] == n)
    && (forall p <- ps :: p in nodes && nodes[p] in s)
  }

  lemma ListsOneMore(s: seq<Node>, ps: set<Path>, nodes: map<Path, Node>, n: Node)
    requires Lists(s, ps, nodes) && n.key !in ps && n.key in nodes && nodes[n.key] == n
    ensures Lists(s + [n], ps + {n.key}, nodes)
  {
  }

  /** The paths of entries that have a destroy hook. */
  ghost function HookedPaths(m: map<Path, Entry>): set<Path> {
    set p | p in m && m[p].Hooked()
  }

  /** The hook calls that destroying a node makes. */
  ghost function HookCall(n: Node, m: map<Path, Entry>): seq<Node> {
    if n.key in m && m[n.key].Hooked() then [n] else []
  }

  /** Part of what lies below `top` has been destroyed: the nodes no longer there were freed once each,
      and those of them with a hooked entry had it called once each. */
  ghost predicate Ledger(top: Path, nodes0: map<Path, Node>, nodes: map<Path, Node>,
                         contents0: map<Path, Entry>, contents: map<Path, Entry>, freed: seq<Node>, destroyed: seq<Node>)
  {
    && nodes == (map p | p in nodes0 && p in nodes :: nodes0[p])
    && (forall p <- nodes0 :: p in nodes || IsPrefix(top, p))
    && contents == (map p | p in contents0 && p in nodes :: contents0[p])
    && Lists(freed, nodes0.Keys - nodes.Keys, nodes0)
    && Lists(destroyed, HookedPaths(contents0) - nodes.Keys, nodes0)
  }

  lemma LedgerStep(top: Path, nodes0: map<Path, Node>, nodes: map<Path, Node>,
                   contents0: map<Path, Entry>, contents: map<Path, Entry>, freed: seq<Node>, destroyed: seq<Node>, n: Node)
    requires Ledger(top, nodes0, nodes, contents0, contents, freed, destroyed)
    requires n.key in nodes && nodes[n.key] == n && IsPrefix(top, n.key)
    ensures Ledger(top, nodes0, nodes - {n.key}, contents0, contents - {n.key}, freed + [n],
                   destroyed + HookCall(n, contents))
  {
    ListsOneMore(freed, nodes0.Keys - nodes.Keys, nodes0, n);
    assert nodes0.Keys - (nodes - {n.key}).Keys == nodes0.Keys - nodes.Keys + {n.key};
    if n.key in contents && contents[n.key].Hooked() {
      ListsOneMore(destroyed, HookedPaths(contents0) - nodes.Keys, nodes0, n);
      assert HookedPaths(contents0) - (nodes - {n.key}).Keys == HookedPaths(contents0) - nodes.Keys + {n.key};
    } else {
      assert HookedPaths(contents0) - (nodes - {n.key}).Keys == HookedPaths(contents0) - nodes.Keys;
    }
  }

  /** Takes the entry off a childless node and frees the node. */
  method FreeLeaf(t: Trie, n: Node)
    requires t.Sound() && t.Holds(n) && n.left == null && n.right == null
    modifies t, n, n.parent`left, n.parent`right
    ensures t.Sound() && t.nodes == old(t.nodes) - {n.key} && t.contents == old(t.contents) - {n.key}
    ensures t.lost == old(t.lost) && t.bent == old(t.bent) - {n.key} && t.repr == old(t.repr) - {n} && t.freed == old(t.freed) + [n]
    ensures t.destroyed == old(t.destroyed) + HookCall(n, old(t.contents))
  {
    t.Orphan(n);
    t.FreeNode(n);
  }

  /** Below a childless node there is nothing. */
  lemma NothingUnder(t: Trie, n: Node, k: Path)
    requires t.Sound() && t.Holds(n) && n.left == null && n.right == null && k in t.nodes && IsPrefix(n.key, k)
    ensures k == n.key
  {
    t.At(n.key);
    t.Closed();
    BelowSplits(n.key, k);
    if k != n.key {
      if IsPrefix(Down(n.key, false), k) {
        ClosedUp(t.nodes.Keys, Down(n.key, false), k);
      } else {
        ClosedUp(t.nodes.Keys, Down(n.key, true), k);
      }
    }
  }

  /** The state of the walk: at node `n`, with links turned only below `top`. */
  ghost predicate Destroying(t: Trie, top: Path, n: Node)
    reads t, t.repr
  {
    t.Sound() && t.Holds(n) && IsPrefix(top, n.key) && forall p <- t.bent :: IsPrefix(top, p)
  }

  lemma {:induction false} PrefixUp(top: Path, k: Path)
    requires IsPrefix(top, k) && top != k
    ensures k.Down? && IsPrefix(top, k.up)
  {
  }

  /** Frees a childless node other than `top`, and goes to its parent. */
  method FreeAndClimb(t: Trie, ghost top: Path, n: Node) returns (parent: Node)
    requires Destroying(t, top, n) && n.key != top && n.left == null && n.right == null
    modifies t, t.repr
    ensures Destroying(t, top, parent)
    ensures t.nodes == old(t.nodes) - {n.key} && t.contents == old(t.contents) - {n.key} && t.repr <= old(t.repr)
    ensures t.freed == old(t.freed) + [n] && t.lost == old(t.lost)
    ensures t.destroyed == old(t.destroyed) + HookCall(n, old(t.contents))
  {
    PrefixUp(top, n.key);
    t.ParentLink(n);
    parent := n.parent;
    FreeLeaf(t, n);
  }

  /** A right link leads to a smaller subtree below `top`. */
  lemma GoRight(t: Trie, top: Path, n: Node)
    requires Destroying(t, top, n) && n.right != null
    ensures Destroying(t, top, n.right) && Below(t.nodes.Keys, n.right.key) < Below(t.nodes.Keys, n.key)
  {
    t.At(n.key);
    var k := Down(n.key, n.key !in t.bent);
    t.At(k);
    PrefixTransitive(top, n.key, k);
    BelowShrinks(t.nodes.Keys, n.key, k.bit);
  }

  method TurnLeft(t: Trie, ghost top: Path, n: Node)
    requires Destroying(t, top, n) && n.right == null && n.left != null
    modifies t`bent, n`left, n`right
    ensures Destroying(t, top, n)
    ensures t.nodes.Keys - t.bent < old(t.nodes.Keys - t.bent)
  {
    t.Turn(n);
    assert n.key in old(t.nodes.Keys - t.bent);
  }

  /** Frees `top` itself, once nothing else is left below it. */
  method FreeTop(t: Trie, n: Node)
    requires Destroying(t, n.key, n) && n.left == null && n.right == null
    modifies t, t.repr
    ensures t.Valid() && forall p <- t.nodes :: !IsPrefix(n.key, p)
    ensures t.nodes == old(t.nodes) - {n.key} && t.contents == old(t.contents) - {n.key} && t.repr <= old(t.repr)
    ensures t.freed == old(t.freed) + [n] && t.lost == old(t.lost)
    ensures t.destroyed == old(t.destroyed) + HookCall(n, old(t.contents))
  {
    forall p <- t.nodes | IsPrefix(n.key, p)
      ensures p == n.key
    {
      NothingUnder(t, n, p);
    }
    t.ParentLink(n);
    FreeLeaf(t, n);
  }

  /** Destroys every node at and below `start`. */
  method DestroySubtree(t: Trie, start: Node)
    requires t.Valid() && t.Holds(start)
    modifies t, t.repr
    ensures t.Valid() && t.repr <= old(t.repr) && t.lost == old(t.lost)
    ensures old(t.freed) <= t.freed && old(t.destroyed) <= t.destroyed
    ensures Ledger(start.key, old(t.nodes), t.nodes, old(t.contents), t.contents,
                   t.freed[|old(t.freed)|..], t.destroyed[|old(t.destroyed)|..])
    ensures forall p <- t.nodes :: !IsPrefix(start.key, p)
  {
    hide Ledger, IsPrefix, Below, Destroying, HookCall, Trie.Sound, Trie.Shaped;
    var n: Node := start;
    ghost var freed: seq<Node>, destroyed: seq<Node> := [], [];
    LedgerStart(t, start.key);
    Here(t, start.key, start);
    while true
      invariant Destroying(t, start.key, n) && t.Holds(start) && t.repr <= old(t.repr) && t.lost == old(t.lost)
      invariant t.freed == old(t.freed) + freed && t.destroyed == old(t.destroyed) + destroyed
      invariant Ledger(start.key, old(t.nodes), t.nodes, old(t.contents), t.contents, freed, destroyed)
      decreases t.nodes.Keys, t.nodes.Keys - t.bent, Below(t.nodes.Keys, n.key)
    {
      Here(t, start.key, n);
      LedgerStep(start.key, old(t.nodes), t.nodes, old(t.contents), t.contents, freed, destroyed, n);
      if n == start && n.left == null && n.right == null {
        freed, destroyed := freed + [n], destroyed + HookCall(n, t.contents);
        FreeTop(t, n);
        break;
      }
      if n.right == null {
        if n.left == null {
          freed, destroyed := freed + [n], destroyed + HookCall(n, t.contents);
          n := FreeAndClimb(t, start.key, n);
        } else {
          TurnLeft(t, start.key, n);
        }
      } else {
        GoRight(t, start.key, n);
        n := n.right;
      }
    }
    assert t.freed[|old(t.freed)|..] == freed && t.destroyed[|old(t.destroyed)|..] == destroyed;
  }

  lemma Here(t: Trie, top: Path, n: Node)
    ensures t.Valid() && t.Holds(n) && IsPrefix(top, n.key) ==> Destroying(t, top, n)
    ensures Destroying(t, top, n) ==> t.Holds(n) && IsPrefix(top, n.key) && n in t.repr
    ensures Destroying(t, top, n) && n.key == top ==> Destroying(t, n.key, n)
  {
    if Destroying(t, top, n) {
      t.At(n.key);
    }
  }

  lemma LedgerStart(t: Trie, top: Path)
    requires t.Valid()
    ensures Ledger(top, t.nodes, t.nodes, t.contents, t.contents, [], []) && IsPrefix(top, top)
  {
    assert HookedPaths(t.contents) - t.nodes.Keys == {};
  }

  lemma {:induction false} BelowTop(p: Path)
    ensures IsPrefix(Top, p)
  {
    if p.Down? {
      BelowTop(p.up);
    }
  }

  /** Once nothing is left, the ledger lists everything. */
  lemma LedgerEnd(nodes0: map<Path, Node>, nodes: map<Path, Node>, contents0: map<Path, Entry>, contents: map<Path, Entry>,
                  freed: seq<Node>, destroyed: seq<Node>)
    requires Ledger(Top, nodes0, nodes, contents0, contents, freed, destroyed)
    requires forall p <- nodes :: !IsPrefix(Top, p)
    ensures nodes == map[] && contents == map[]
    ensures Lists(freed, nodes0.Keys, nodes0) && Lists(destroyed, HookedPaths(contents0), nodes0)
  {
    forall p <- nodes
      ensures false
    {
      BelowTop(p);
    }
    assert nodes0.Keys - nodes.Keys == nodes0.Keys;
    assert HookedPaths(contents0) - nodes.Keys == HookedPaths(contents0);
  }

  /** Destroys a trie that has entries: every node is freed once, every destroy hook is called once.
      A trie without entries is left as it is, and keeps any nodes it still has.  Whatever was allocated for
      a trie with entries has then been freed, except what was lost before. */
  method Destroy(t: Trie)
    requires t.Valid()
    modifies t, t.repr
    ensures t.Valid() && t.contents == map[]
    ensures old(t.entries) > 0 ==>
      && t.nodes == map[] && t.made == |t.freed| + t.lost && t.lost == old(t.lost)
      && old(t.freed) <= t.freed && Lists(t.freed[|old(t.freed)|..], old(t.nodes).Keys, old(t.nodes))
      && old(t.destroyed) <= t.destroyed
      && Lists(t.destroyed[|old(t.destroyed)|..], HookedPaths(old(t.contents)), old(t.nodes))
    ensures old(t.entries) == 0 ==> unchanged(t) && unchanged(t.repr)
  {
    hide Ledger, Lists, HookedPaths, IsPrefix;
    if t.entries > 0 {
      t.Rooted();
      DestroySubtree(t, t.root);
      LedgerEnd(old(t.nodes), t.nodes, old(t.contents), t.contents,
                t.freed[|old(t.freed)|..], t.destroyed[|old(t.destroyed)|..]);
      t.root := null;
      t.entries := 0;
    }
  }

  /** A trie that lost its last entry by removal keeps its nodes when it is destroyed. */
  method DestroyAfterLastRemove(data: Data) returns (t: Trie)
    ensures t.Valid() && t.nodes != map[] && t.freed == []
  {
    t := new Trie();
    var n := t.Insert(None, data, [], 0, 1);
    var removed := t.Remove([], 0);
    Destroy(t);
  }
}

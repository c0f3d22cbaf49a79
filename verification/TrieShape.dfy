/** The set of paths that have nodes, on its own: how extending it along a path and trimming it from a leaf upwards
    bear on whether its childless paths are active. */
module TrieShape {
  import opened Bits
  import opened Trie

  lemma {:induction false} EmptyWithoutTop(keys: set<Path>, p: Path)
    requires PrefixClosed(keys) && Top !in keys
    ensures p !in keys
  {
    if p.Down? {
      EmptyWithoutTop(keys, p.up);
    }
  }

  /** Extending adds prefixes of the path only, and keeps the shape a tree. */
  lemma {:induction false} ExtendIsTree(keys: set<Path>, q: Path, memory: nat)
    requires PrefixClosed(keys)
    ensures PrefixClosed(Extend(keys, q, memory)) && keys <= Extend(keys, q, memory)
    ensures Missing(keys, q) <= memory <==> q in Extend(keys, q, memory)
    ensures forall p :: p in Extend(keys, q, memory) && p !in keys ==> IsPrefix(p, q)
  {
    if q !in keys && q.Down? {
      ExtendIsTree(keys, q.up, memory);
      if q in Extend(keys, q.up, memory) {
        PrefixLen(q, q.up);
      }
    }
  }

  /** With memory enough, only the end of the path may be a new inactive leaf. */
  lemma {:induction false} ExtendWhole(keys: set<Path>, active: set<Path>, q: Path, memory: nat)
    requires PrefixClosed(keys) && PrunedShape(keys, active) && Missing(keys, q) <= memory
    ensures PrunedBut(Extend(keys, q, memory), active, q)
  {
    if q !in keys {
      if q.Top? {
        assert forall p :: p in keys ==> Leaf(keys, p) == Leaf(keys + {q}, p);
      } else {
        ExtendWhole(keys, active, q.up, memory);
        GrowLeaf(Extend(keys, q.up, memory), active, q);
      }
    }
  }

  /** The end of a new path is a leaf. */
  lemma NewLeaf(keys: set<Path>, q: Path, memory: nat)
    requires PrefixClosed(keys) && q !in keys
    ensures Leaf(Extend(keys, q, memory), q)
  {
    ExtendIsTree(keys, q, memory);
    forall bit: bool
      ensures Down(q, bit) !in Extend(keys, q, memory)
    {
      var c := Down(q, bit);
      assert c.up == q;
      if IsPrefix(c, q) {
        PrefixLen(c, q);
      }
    }
  }

  /** Where memory ends before the path does, the last new node is an inactive leaf, unless it is the root. */
  lemma {:induction false} ExtendShort(keys: set<Path>, active: set<Path>, q: Path, memory: nat)
    requires PrefixClosed(keys) && PrunedShape(keys, active) && active <= keys && Missing(keys, q) > memory
    ensures PrunedShape(Extend(keys, q, memory), active) <==> memory <= if Top in keys then 0 else 1
  {
    if q.Top? {
      assert Extend(keys, q, memory) == keys;
    } else if Missing(keys, q.up) > memory {
      ExtendShort(keys, active, q.up, memory);
      assert Extend(keys, q, memory) == Extend(keys, q.up, memory);
    } else {
      assert Extend(keys, q, memory) == Extend(keys, q.up, memory);
      LastNode(keys, active, q.up, memory);
    }
  }

  lemma LastNode(keys: set<Path>, active: set<Path>, p: Path, memory: nat)
    requires PrefixClosed(keys) && PrunedShape(keys, active) && active <= keys && Missing(keys, p) == memory
    ensures PrunedShape(Extend(keys, p, memory), active) <==> memory <= if Top in keys then 0 else 1
  {
    if memory > 0 {
      ExtendWhole(keys, active, p, memory);
      ExtendIsTree(keys, p, memory);
      NewLeaf(keys, p, memory);
      TopMissing(keys, p);
    }
  }

  lemma {:induction false} TopMissing(keys: set<Path>, p: Path)
    requires PrefixClosed(keys) && p !in keys
    ensures p.Top? <==> Top !in keys && Missing(keys, p) == 1
  {
    if p.Down? && Top !in keys {
      EmptyWithoutTop(keys, p.up);
    }
  }

  /** Trimming from a path upwards leaves no inactive leaf, if there was none but that one. */
  lemma {:induction false} TrimPrunes(keys: set<Path>, active: set<Path>, p: Path)
    requires PrunedBut(keys, active, p)
    ensures PrunedShape(Trim(keys, active, p), active)
    decreases p
  {
    if p.Down? && p !in active && Leaf(keys, p) {
      CutLeaf(keys, active, p);
      TrimPrunes(keys - {p}, active, p.up);
    }
  }

  lemma {:induction false} TrimIsTree(keys: set<Path>, active: set<Path>, p: Path)
    requires PrefixClosed(keys)
    ensures PrefixClosed(Trim(keys, active, p)) && Trim(keys, active, p) <= keys && keys * active <= Trim(keys, active, p)
    decreases p
  {
    if p.Down? && p !in active && Leaf(keys, p) {
      WithoutLeaf(keys, p);
      TrimIsTree(keys - {p}, active, p.up);
    }
  }

  lemma WithoutLeaf(keys: set<Path>, p: Path)
    requires PrefixClosed(keys) && Leaf(keys, p)
    ensures PrefixClosed(keys - {p})
  {
    forall k | k in keys - {p} && k.Down?
      ensures k.up in keys - {p}
    {
      assert k == Down(k.up, k.bit);
    }
  }

  lemma ReleaseIsTree(keys: set<Path>, active: set<Path>, q: Path)
    requires PrefixClosed(keys) && active <= keys
    ensures PrefixClosed(ReleaseShape(keys, active, q)) && active - {q} <= ReleaseShape(keys, active, q)
  {
    if Leaf(keys, q) {
      WithoutLeaf(keys, q);
      if q.Down? {
        TrimIsTree(keys - {q}, active - {q}, q.up);
      }
    }
  }

  /** Releasing an entry leaves no inactive leaf behind. */
  lemma ReleasePrunes(keys: set<Path>, active: set<Path>, q: Path)
    requires PrefixClosed(keys) && PrunedShape(keys, active)
    ensures PrunedShape(ReleaseShape(keys, active, q), active - {q})
  {
    if !Leaf(keys, q) {
      assert PrunedShape(keys, active - {q});
    } else if q.Top? {
      forall p | p in keys && p.Down?
        ensures false
      {
        HasTop(keys, p);
      }
    } else {
      assert PrunedBut(keys, active - {q}, q);
      CutLeaf(keys, active - {q}, q);
      TrimPrunes(keys - {q}, active - {q}, q.up);
    }
  }
}

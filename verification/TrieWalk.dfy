/** Walks over a subtree of the trie: the explicit-stack walk that applies a function, and the
    two printers.  All three follow one reference order, the pre-order of the subtree's paths. */
module TrieWalk {
  import opened Wrappers
  import opened Bits
  import opened Trie

  // ----- the reference order

  ghost function Below(keys: set<Path>, p: Path): set<Path> {
    set k | k in keys && IsPrefix(p, k)
  }

  lemma BelowShrinks(keys: set<Path>, p: Path, bit: bool)
    requires p in keys
    ensures Below(keys, Down(p, bit)) < Below(keys, p)
  {
    forall k | k in Below(keys, Down(p, bit))
      ensures k in Below(keys, p) && k != p
    {
      PrefixTransitive(p, Down(p, bit), k);
      PrefixLen(Down(p, bit), k);
    }
    assert p in Below(keys, p);
  }

  /** Pre-order of the paths at and below `p`: left before right. */
  ghost function Preorder(keys: set<Path>, p: Path): seq<Path>
    decreases Below(keys, p)
  {
    if p !in keys then [] else
      BelowShrinks(keys, p, false);
      BelowShrinks(keys, p, true);
      [p] + Preorder(keys, Down(p, false)) + Preorder(keys, Down(p, true))
  }

  /** Two siblings have nothing below both. */
  lemma {:induction false} SiblingsApart(p: Path, k: Path)
    ensures !(IsPrefix(Down(p, false), k) && IsPrefix(Down(p, true), k))
  {
    if IsPrefix(Down(p, false), k) && IsPrefix(Down(p, true), k) {
      PrefixesNest(Down(p, false), Down(p, true), k);
    }
  }

  /** Whatever lies below a path is that path or lies below one of its children. */
  lemma {:induction false} BelowSplits(p: Path, k: Path)
    requires IsPrefix(p, k)
    ensures k == p || IsPrefix(Down(p, false), k) || IsPrefix(Down(p, true), k)
  {
    if k != p && k.up != p {
      BelowSplits(p, k.up);
    }
  }

  lemma {:induction false} ClosedUp(keys: set<Path>, p: Path, k: Path)
    requires PrefixClosed(keys) && k in keys && IsPrefix(p, k)
    ensures p in keys
  {
    if k != p {
      ClosedUp(keys, p, k.up);
    }
  }

  /** The pre-order lists every path at or below `p` exactly once. */
  lemma {:induction false} PreorderIsComplete(keys: set<Path>, p: Path)
    requires PrefixClosed(keys)
    ensures NoDup(Preorder(keys, p))
    ensures forall k :: k in Preorder(keys, p) <==> k in Below(keys, p)
    decreases Below(keys, p)
  {
    if p !in keys {
      forall k | k in Below(keys, p)
        ensures false
      {
        ClosedUp(keys, p, k);
      }
    } else {
      var l, r := Preorder(keys, Down(p, false)), Preorder(keys, Down(p, true));
      BelowShrinks(keys, p, false);
      BelowShrinks(keys, p, true);
      PreorderIsComplete(keys, Down(p, false));
      PreorderIsComplete(keys, Down(p, true));
      forall k | k in Below(keys, p)
        ensures k == p || k in l || k in r
      {
        BelowSplits(p, k);
      }
      forall k | k in l
        ensures k !in r && k != p
      {
        SiblingsApart(p, k);
        PrefixLen(Down(p, false), k);
      }
      forall k | k in r
        ensures k != p
      {
        PrefixLen(Down(p, true), k);
      }
      NoDupConcat([p], l);
      NoDupConcat([p] + l, r);
    }
  }

  /** Where two paths part, one goes left and the other right. */
  ghost predicate PartAt(c: Path, a: Path, b: Path) {
    IsPrefix(Down(c, false), a) && IsPrefix(Down(c, true), b)
  }

  /** The order of a dictionary: a proper prefix first, otherwise left first where the paths part. */
  ghost predicate Precedes(a: Path, b: Path) {
    (a != b && IsPrefix(a, b)) || exists c :: PartAt(c, a, b)
  }

  /** The pre-order lists paths in the order of a dictionary. */
  lemma {:induction false} PreorderIsSorted(keys: set<Path>, p: Path, i: nat, j: nat)
    requires PrefixClosed(keys) && i < j < |Preorder(keys, p)|
    ensures Precedes(Preorder(keys, p)[i], Preorder(keys, p)[j])
    decreases Below(keys, p)
  {
    hide Precedes;
    var order, l, r := Preorder(keys, p), Preorder(keys, Down(p, false)), Preorder(keys, Down(p, true));
    BelowShrinks(keys, p, false);
    BelowShrinks(keys, p, true);
    PreorderIsComplete(keys, Down(p, false));
    PreorderIsComplete(keys, Down(p, true));
    var a, b := order[i], order[j];
    assert order == [p] + l + r;
    if i == 0 {
      assert b in l || b in r;
      RootFirst(p, b);
    } else if j <= |l| {
      PreorderIsSorted(keys, Down(p, false), i - 1, j - 1);
    } else if i > |l| {
      PreorderIsSorted(keys, Down(p, true), i - 1 - |l|, j - 1 - |l|);
    } else {
      assert a in l && b in r;
      LeftFirst(p, a, b);
    }
  }

  lemma RootFirst(p: Path, b: Path)
    requires IsPrefix(Down(p, false), b) || IsPrefix(Down(p, true), b)
    ensures Precedes(p, b)
  {
    var bit := IsPrefix(Down(p, true), b);
    PrefixTransitive(p, Down(p, bit), b);
    PrefixLen(Down(p, bit), b);
  }

  lemma LeftFirst(p: Path, a: Path, b: Path)
    requires IsPrefix(Down(p, false), a) && IsPrefix(Down(p, true), b)
    ensures Precedes(a, b)
  {
    assert PartAt(p, a, b);
  }

  // ----- the explicit stack

  ghost function Keys(stack: seq<Node>): seq<Path> {
    seq(|stack|, i requires 0 <= i < |stack| => stack[i].key)
  }

  /** What is still to be visited: the subtrees on the stack, top first. */
  ghost function Pending(keys: set<Path>, stack: seq<Path>): seq<Path> {
    if stack == [] then [] else Preorder(keys, stack[0]) + Pending(keys, stack[1..])
  }

  lemma {:induction false} PendingHolds(keys: set<Path>, stack: seq<Path>, i: nat)
    requires i < |stack| && stack[i] in keys
    ensures stack[i] in Pending(keys, stack)
  {
    if i > 0 {
      PendingHolds(keys, stack[1..], i - 1);
    } else {
      assert Preorder(keys, stack[0])[0] == stack[0];
    }
  }

  /** The stack with one more subtree on it, if there is such a subtree. */
  ghost function PushIf(keys: set<Path>, p: Path, rest: seq<Path>): seq<Path> {
    if p in keys then [p] + rest else rest
  }

  lemma PendingPush(keys: set<Path>, p: Path, rest: seq<Path>)
    ensures Pending(keys, PushIf(keys, p, rest)) == Preorder(keys, p) + Pending(keys, rest)
  {
    assert ([p] + rest)[1..] == rest;
  }

  /** The stack after a node was popped off `rest` and its children were pushed. */
  ghost function Pushed(keys: set<Path>, p: Path, rest: seq<Path>): seq<Path> {
    PushIf(keys, Down(p, false), PushIf(keys, Down(p, true), rest))
  }

  /** Popping a node and pushing its children visits exactly that node. */
  lemma Expand(keys: set<Path>, p: Path, rest: seq<Path>)
    requires p in keys
    ensures Pending(keys, [p] + rest) == [p] + Pending(keys, Pushed(keys, p, rest))
  {
    hide PushIf, Pending;
    assert PushIf(keys, p, rest) == [p] + rest by { UnfoldPush(keys, p, rest); }
    PendingPush(keys, p, rest);
    PendingPush(keys, Down(p, true), rest);
    PendingPush(keys, Down(p, false), PushIf(keys, Down(p, true), rest));
  }

  lemma UnfoldPush(keys: set<Path>, p: Path, rest: seq<Path>)
    ensures p in keys ==> PushIf(keys, p, rest) == [p] + rest
  {
  }

  lemma NoDupApart<T>(a: seq<T>, b: seq<T>, x: T)
    requires NoDup(a + b) && x in a
    ensures x !in b
  {
    var i :| 0 <= i < |a| && a[i] == x;
    forall j | 0 <= j < |b|
      ensures b[j] != x
    {
      assert (a + b)[i] != (a + b)[|a| + j];
    }
  }

  /** No child of a popped node is on the stack already. */
  lemma ChildNotStacked(keys: set<Path>, p: Path, bit: bool, rest: seq<Path>)
    requires p in keys && Down(p, bit) in keys && NoDup(Pending(keys, [p] + rest))
    requires forall k :: k in rest ==> k in keys
    ensures Down(p, bit) !in rest
  {
    PendingPush(keys, p, rest);
    assert Preorder(keys, Down(p, bit))[0] == Down(p, bit);
    NoDupApart(Preorder(keys, p), Pending(keys, rest), Down(p, bit));
    forall i | 0 <= i < |rest|
      ensures rest[i] != Down(p, bit)
    {
      PendingHolds(keys, rest, i);
    }
  }

  /** Pushes onto the stack.  The link is a field of the node, so no node may be on it twice. */
  method StackPush(stack: seq<Node>, n: Node) returns (r: seq<Node>)
    requires n !in stack
    ensures r == [n] + stack && Keys(r) == [n.key] + Keys(stack)
  {
    r := [n] + stack;
  }

  /** Takes the top node off the stack. */
  method StackPop(stack: seq<Node>) returns (n: Node?, rest: seq<Node>)
    ensures n == null <==> stack == []
    ensures n != null ==> stack == [n] + rest && Keys(stack) == [n.key] + Keys(rest)
  {
    if stack == [] {
      return null, [];
    }
    n, rest := stack[0], stack[1..];
  }

  /** The nodes on the stack are nodes of the trie. */
  ghost predicate OnTrie(t: Trie, stack: seq<Node>)
    reads t`nodes
  {
    forall n <- stack :: t.Holds(n)
  }

  lemma KeysOnTrie(t: Trie, stack: seq<Node>, n: Node)
    requires OnTrie(t, stack) && t.Holds(n)
    ensures forall k <- Keys(stack) :: k in t.nodes
    ensures n.key !in Keys(stack) ==> n !in stack
  {
    forall k | k in Keys(stack)
      ensures k in t.nodes
    {
      var i :| 0 <= i < |stack| && Keys(stack)[i] == k;
      assert t.Holds(stack[i]);
    }
    if n in stack {
      var i :| 0 <= i < |stack| && stack[i] == n;
      assert Keys(stack)[i] == n.key;
    }
  }

  /** The nodes on the stack are nodes of the trie, and no path is reached from two of them. */
  ghost predicate Walking(t: Trie, stack: seq<Node>)
    reads t`nodes
  {
    OnTrie(t, stack) && NoDup(Todo(t, stack))
  }

  /** What a walk with this stack will visit. */
  ghost function Todo(t: Trie, stack: seq<Node>): seq<Path>
    reads t`nodes
  {
    Pending(t.nodes.Keys, Keys(stack))
  }

  /** A stack that holds only the start of the walk. */
  method StartWalk(t: Trie, start: Node) returns (stack: seq<Node>)
    requires t.Valid() && t.Holds(start)
    ensures Walking(t, stack) && Todo(t, stack) == Preorder(t.nodes.Keys, start.key)
    ensures PrefixClosed(t.nodes.Keys) && t.contents.Keys <= t.nodes.Keys
  {
    stack := StackPush([], start);
    t.Closed();
    PendingPush(t.nodes.Keys, start.key, []);
    PreorderIsComplete(t.nodes.Keys, start.key);
  }

  /** The stack with the children of a popped node on it. */
  ghost function WithChildren(left: Node?, right: Node?, rest: seq<Node>): seq<Node> {
    (if left != null then [left] else []) + (if right != null then [right] else []) + rest
  }

  /** Pushes the children of a popped node, right before left. */
  method PushChildren(left: Node?, right: Node?, rest: seq<Node>) returns (stack: seq<Node>)
    requires (right != null ==> right !in rest) && (left != null ==> left !in rest && left != right)
    ensures stack == WithChildren(left, right, rest)
  {
    stack := rest;
    if right != null {
      stack := StackPush(stack, right);
    }
    if left != null {
      stack := StackPush(stack, left);
    }
  }

  lemma KeysWithChildren(keys: set<Path>, p: Path, left: Node?, right: Node?, rest: seq<Node>)
    requires KeyOf(left) == (if Down(p, false) in keys then Some(Down(p, false)) else None)
    requires KeyOf(right) == (if Down(p, true) in keys then Some(Down(p, true)) else None)
    ensures Keys(WithChildren(left, right, rest)) == Pushed(keys, p, Keys(rest))
  {
    var stack := if right != null then [right] + rest else rest;
    assert Keys(stack) == PushIf(keys, Down(p, true), Keys(rest));
    assert left != null ==> Keys([left] + stack) == [left.key] + Keys(stack);
    assert WithChildren(left, right, rest) == if left != null then [left] + stack else stack;
  }

  /** Once the children are pushed, the walk visits what it would have visited after the node itself. */
  lemma NextStack(t: Trie, n: Node, left: Node?, right: Node?, rest: seq<Node>)
    requires t.Valid() && left == n.left && right == n.right && Walking(t, [n] + rest)
    ensures (right != null ==> right !in rest) && (left != null ==> left !in rest && left != right)
    ensures var next := WithChildren(left, right, rest);
      Walking(t, next) && Todo(t, [n] + rest) == [n.key] + Todo(t, next) && n.key !in Todo(t, next)
  {
    var next := WithChildren(left, right, rest);
    assert t.Holds(n) && OnTrie(t, rest) by {
      assert n == ([n] + rest)[0];
      assert forall m <- rest :: m in [n] + rest;
    }
    assert Keys([n] + rest) == [n.key] + Keys(rest);
    t.At(n.key);
    Expand(t.nodes.Keys, n.key, Keys(rest));
    if right != null {
      t.At(Down(n.key, true));
      KeysOnTrie(t, rest, right);
      ChildNotStacked(t.nodes.Keys, n.key, true, Keys(rest));
    }
    if left != null {
      t.At(Down(n.key, false));
      KeysOnTrie(t, rest, left);
      ChildNotStacked(t.nodes.Keys, n.key, false, Keys(rest));
    }
    KeysWithChildren(t.nodes.Keys, n.key, left, right, rest);
    NoDupTail(n.key, Todo(t, next));
  }

  // ----- applying a function to the entries of a subtree

  /** The active paths among some. */
  ghost function Actives(ks: seq<Path>, m: map<Path, Entry>): seq<Path> {
    if ks == [] then [] else (if ks[0] in m then [ks[0]] else []) + Actives(ks[1..], m)
  }

  lemma {:induction false} ActivesOnly(ks: seq<Path>, m: map<Path, Entry>)
    ensures forall k :: k in Actives(ks, m) <==> k in ks && k in m
    ensures NoDup(ks) ==> NoDup(Actives(ks, m))
  {
    if ks != [] {
      ActivesOnly(ks[1..], m);
      if NoDup(ks) {
        NoDupTail(ks[0], ks[1..]);
        NoDupConcat(if ks[0] in m then [ks[0]] else [], Actives(ks[1..], m));
      }
    }
  }

  /** What a callback makes of an entry: the value it returns, and whether it releases the node first. */
  datatype Outcome = Outcome(value: int, release: bool)

  /** The first negative value of `f` on the active paths, or else the sum of its values. */
  ghost function FuncResult(f: Data -> Outcome, ks: seq<Path>, m: map<Path, Entry>): int {
    if ks == [] then 0 else
      var tail := FuncResult(f, ks[1..], m);
      if ks[0] !in m then tail else
        var head := f(m[ks[0]].data).value;
        if head < 0 then head else if tail < 0 then tail else head + tail
  }

  /** The active paths up to and including the first on which `f` is negative. */
  ghost function FuncCalls(f: Data -> Outcome, ks: seq<Path>, m: map<Path, Entry>): seq<Path> {
    if ks == [] then [] else
      var tail := FuncCalls(f, ks[1..], m);
      if ks[0] !in m then tail else [ks[0]] + if f(m[ks[0]].data).value < 0 then [] else tail
  }

  /** The calls are the active paths in order, all of them unless one gives a negative value. */
  lemma {:induction false} CallsAreActives(f: Data -> Outcome, ks: seq<Path>, m: map<Path, Entry>)
    ensures FuncCalls(f, ks, m) <= Actives(ks, m)
    ensures FuncResult(f, ks, m) >= 0 ==> FuncCalls(f, ks, m) == Actives(ks, m)
    ensures FuncResult(f, ks, m) < 0 <==> exists k :: k in FuncCalls(f, ks, m) && k in m && f(m[k].data).value < 0
  {
    if ks != [] {
      CallsAreActives(f, ks[1..], m);
    }
  }

  /** The values of the calls, added up. */
  ghost function SumOf(f: Data -> Outcome, calls: seq<Path>, m: map<Path, Entry>): int {
    if calls == [] then 0 else (if calls[0] in m then f(m[calls[0]].data).value else 0) + SumOf(f, calls[1..], m)
  }

  /** The result is the sum of all calls where none is negative, and otherwise the last and only negative one. */
  lemma {:induction false} ResultIsSum(f: Data -> Outcome, ks: seq<Path>, m: map<Path, Entry>)
    ensures var r, calls := FuncResult(f, ks, m), FuncCalls(f, ks, m);
      && (forall i :: 0 <= i < |calls| ==> calls[i] in m)
      && (r >= 0 ==> r == SumOf(f, calls, m) && forall i :: 0 <= i < |calls| ==> f(m[calls[i]].data).value >= 0)
      && (r < 0 ==>
            && calls != [] && r == f(m[calls[|calls| - 1]].data).value
            && forall i :: 0 <= i < |calls| - 1 ==> f(m[calls[i]].data).value >= 0)
  {
    if ks != [] {
      ResultIsSum(f, ks[1..], m);
      if ks[0] in m {
        var calls, tail := FuncCalls(f, ks, m), FuncCalls(f, ks[1..], m);
        assert f(m[ks[0]].data).value >= 0 ==> calls[1..] == tail;
      }
    }
  }

  /** The calls on `ks` gave `sum` so far, and those on `todo` complete what applying `f` along `order` makes. */
  ghost predicate Partial(f: Data -> Outcome, order: seq<Path>, m: map<Path, Entry>, sum: int, ks: seq<Path>, todo: seq<Path>) {
    var rest := FuncResult(f, todo, m);
    && sum >= 0
    && FuncResult(f, order, m) == (if rest < 0 then rest else sum + rest)
    && FuncCalls(f, order, m) == ks + FuncCalls(f, todo, m)
  }

  lemma PartialStep(f: Data -> Outcome, order: seq<Path>, m: map<Path, Entry>, sum: int, ks: seq<Path>, k: Path, rest: seq<Path>)
    requires Partial(f, order, m, sum, ks, [k] + rest)
    ensures k !in m ==> Partial(f, order, m, sum, ks, rest)
    ensures k in m ==>
      var value := f(m[k].data).value;
      && (value >= 0 ==> Partial(f, order, m, sum + value, ks + [k], rest))
      && (value < 0 ==> FuncResult(f, order, m) == value && FuncCalls(f, order, m) == ks + [k])
  {
    assert ([k] + rest)[1..] == rest;
  }

  lemma PartialEnds(f: Data -> Outcome, order: seq<Path>, m: map<Path, Entry>, sum: int, ks: seq<Path>)
    ensures Partial(f, order, m, 0, [], order)
    ensures Partial(f, order, m, sum, ks, []) ==> FuncResult(f, order, m) == sum >= 0 && FuncCalls(f, order, m) == ks
  {
    assert [] + FuncCalls(f, order, m) == FuncCalls(f, order, m);
  }

  /** Unless a value is negative, every entry of the subtree is called on, and each of them once. */
  lemma EveryEntryOnce(f: Data -> Outcome, keys: set<Path>, p: Path, m: map<Path, Entry>)
    requires PrefixClosed(keys) && m.Keys <= keys && FuncResult(f, Preorder(keys, p), m) >= 0
    ensures var calls := FuncCalls(f, Preorder(keys, p), m);
      NoDup(calls) && forall k :: k in calls <==> k in m && IsPrefix(p, k)
  {
    PreorderIsComplete(keys, p);
    ActivesOnly(Preorder(keys, p), m);
    CallsAreActives(f, Preorder(keys, p), m);
  }

  /** The pre-order of a subtree depends on nothing outside it. */
  lemma {:induction false} PreorderFrame(keys: set<Path>, keys': set<Path>, p: Path)
    requires Below(keys, p) == Below(keys', p)
    ensures Preorder(keys, p) == Preorder(keys', p)
    decreases Below(keys, p)
  {
    assert p in keys <==> p in Below(keys, p);
    assert p in keys' <==> p in Below(keys', p);
    if p in keys {
      BelowShrinks(keys, p, false);
      BelowShrinks(keys, p, true);
      BelowFrame(keys, keys', p, Down(p, false));
      BelowFrame(keys, keys', p, Down(p, true));
      PreorderFrame(keys, keys', Down(p, false));
      PreorderFrame(keys, keys', Down(p, true));
    }
  }

  lemma BelowFrame(keys: set<Path>, keys': set<Path>, p: Path, c: Path)
    requires Below(keys, p) == Below(keys', p) && IsPrefix(p, c)
    ensures Below(keys, c) == Below(keys', c)
  {
    forall k | IsPrefix(c, k)
      ensures k in keys <==> k in keys'
    {
      PrefixTransitive(p, c, k);
      assert k in keys <==> k in Below(keys, p);
      assert k in keys' <==> k in Below(keys', p);
    }
  }

  /** Nodes freed along the way to `k` are in no subtree that does not hold `k`. */
  lemma NotInTheWay(keys: set<Path>, keys': set<Path>, k: Path, s: Path)
    requires PrefixClosed(keys) && keys' <= keys && k in keys && k !in Preorder(keys, s)
    requires forall p :: p in keys && p !in keys' ==> IsPrefix(p, k)
    ensures Below(keys, s) == Below(keys', s) && Preorder(keys, s) == Preorder(keys', s)
  {
    PreorderIsComplete(keys, s);
    forall p | p in Below(keys, s)
      ensures p in keys'
    {
      if p !in keys' {
        PrefixTransitive(s, p, k);
      }
    }
    PreorderFrame(keys, keys', s);
  }

  lemma {:induction false} PendingFrame(keys: set<Path>, keys': set<Path>, k: Path, stack: seq<Path>)
    requires PrefixClosed(keys) && keys' <= keys && k in keys && k !in Pending(keys, stack)
    requires forall p :: p in keys && p !in keys' ==> IsPrefix(p, k)
    ensures Pending(keys, stack) == Pending(keys', stack)
    ensures forall s <- stack :: s in keys ==> s in keys'
  {
    if stack != [] {
      NotInTheWay(keys, keys', k, stack[0]);
      assert stack[0] in keys ==> stack[0] in Below(keys, stack[0]);
      PendingFrame(keys, keys', k, stack[1..]);
      assert forall s <- stack :: s == stack[0] || s in stack[1..];
    }
  }

  /** Releasing the node just popped disturbs nothing that is on the stack. */
  lemma Undisturbed(t: Trie, nodes: map<Path, Node>, freed: seq<Node>, k: Path, stack: seq<Node>)
    requires t.Valid() && FreedAlong(k, nodes, t.nodes, freed, t.freed) && PrefixClosed(nodes.Keys) && k in nodes
    requires forall n <- stack :: n.key in nodes && nodes[n.key] == n
    requires NoDup(Pending(nodes.Keys, Keys(stack))) && k !in Pending(nodes.Keys, Keys(stack))
    ensures Walking(t, stack) && Todo(t, stack) == Pending(nodes.Keys, Keys(stack))
  {
    PendingFrame(nodes.Keys, t.nodes.Keys, k, Keys(stack));
    forall n <- stack
      ensures t.Holds(n)
    {
      var i :| 0 <= i < |stack| && stack[i] == n;
      assert Keys(stack)[i] == n.key;
    }
  }

  /** The paths whose nodes the calls release. */
  ghost function ReleasedBy(f: Data -> Outcome, calls: seq<Path>, m: map<Path, Entry>): set<Path> {
    set k | k in calls && k in m && f(m[k].data).release
  }

  /** What a walk has done so far: `calls` were made, and the entries that they release are gone. */
  ghost predicate Progress(t: Trie, f: Data -> Outcome, m: map<Path, Entry>, calls: seq<Path>, todo: seq<Path>)
    reads t`contents
  {
    t.contents == m - ReleasedBy(f, calls, m) && forall k <- calls :: k !in todo
  }

  lemma ProgressStep(t: Trie, f: Data -> Outcome, m: map<Path, Entry>, calls: seq<Path>, k: Path, rest: seq<Path>)
    requires Progress(t, f, m, calls, [k] + rest) && k !in rest
    ensures k in t.contents <==> k in m
    ensures k in m ==> t.contents[k] == m[k]
    ensures Progress(t, f, m, calls, rest) && forall j <- calls + [k] :: j !in rest
    ensures k in m ==>
      m - ReleasedBy(f, calls + [k], m) == if f(m[k].data).release then t.contents - {k} else t.contents
  {
    assert k in [k] + rest && forall j <- rest :: j in [k] + rest;
    if k in m {
      assert ReleasedBy(f, calls + [k], m) == ReleasedBy(f, calls, m) + if f(m[k].data).release then {k} else {};
    }
  }

  /** The paths that have nodes once the calls have released theirs, one after the other. */
  ghost function ShapeAfter(f: Data -> Outcome, keys: set<Path>, calls: seq<Path>, m: map<Path, Entry>): set<Path> {
    if calls == [] then keys else
      var front, last := calls[..|calls| - 1], calls[|calls| - 1];
      var shape := ShapeAfter(f, keys, front, m);
      if last in m && f(m[last].data).release then ReleaseShape(shape, m.Keys - ReleasedBy(f, front, m), last) else shape
  }

  /** The nodes whose destroy hooks the calls make run, in order. */
  ghost function HooksOf(f: Data -> Outcome, calls: seq<Node>, m: map<Path, Entry>): seq<Node> {
    if calls == [] then [] else
      var n := calls[|calls| - 1];
      HooksOf(f, calls[..|calls| - 1], m)
      + if n.key in m && f(m[n.key].data).release && m[n.key].Hooked() then [n] else []
  }

  /** What the calls have left of the nodes, and which hooks they have run. */
  ghost predicate Aftermath(t: Trie, f: Data -> Outcome, keys: set<Path>, m: map<Path, Entry>, hooks: seq<Node>, calls: seq<Node>)
    reads t`nodes, t`destroyed
  {
    t.nodes.Keys == ShapeAfter(f, keys, Keys(calls), m) && t.destroyed == hooks + HooksOf(f, calls, m)
  }

  lemma AfterNothing(t: Trie, f: Data -> Outcome)
    ensures Aftermath(t, f, t.nodes.Keys, t.contents, t.destroyed, [])
  {
  }

  /** One more call, and what it does to nodes and hooks. */
  lemma AfterOne(f: Data -> Outcome, keys: set<Path>, m: map<Path, Entry>, hooks: seq<Node>, calls: seq<Node>, n: Node)
    requires n.key in m
    ensures var e, before := m[n.key], ShapeAfter(f, keys, Keys(calls), m);
      && ShapeAfter(f, keys, Keys(calls + [n]), m)
         == (if f(e.data).release then ReleaseShape(before, m.Keys - ReleasedBy(f, Keys(calls), m), n.key) else before)
      && hooks + HooksOf(f, calls + [n], m)
         == hooks + HooksOf(f, calls, m) + (if f(e.data).release && e.Hooked() then [n] else [])
  {
    KeysMore(calls, n);
    assert Keys(calls + [n])[..|calls|] == Keys(calls) && (calls + [n])[..|calls|] == calls;
  }

  /** Releases the node that a callback was given: the walk goes on as if it were still there. */
  method ReleaseVisited(t: Trie, n: Node, ghost next: seq<Node>)
    requires t.Valid() && t.Holds(n) && Walking(t, next) && n.key !in Todo(t, next)
    modifies t, t.repr
    ensures t.Valid() && t.repr <= old(t.repr) && (old(t.Pruned()) ==> t.Pruned()) && t.lost == old(t.lost)
    ensures t.contents == old(t.contents) - {n.key}
    ensures t.nodes.Keys == ReleaseShape(old(t.nodes).Keys, old(t.contents).Keys, n.key)
    ensures t.destroyed == old(t.destroyed) + if n.key in old(t.contents) && old(t.contents)[n.key].Hooked() then [n] else []
    ensures Walking(t, next) && Todo(t, next) == old(Todo(t, next)) && forall m <- next :: m !in t.freed
  {
    hide FreedAlong, Pending, Trie.Shaped, NoDup;
    ghost var k, nodes, freed := n.key, t.nodes, t.freed;
    t.Closed();
    ghost var _ := t.Release(n);
    Undisturbed(t, nodes, freed, k, next);
    forall m <- next
      ensures m !in t.freed
    {
      t.Tested(m);
    }
  }

  /** Applies `f` to the entries of a subtree in pre-order, stopping at the first negative value; `f` may release
      the node it is given.  `calls` are the nodes it was applied to, `stale` the nodes that had
      been freed when they came off the stack. */
  method SubtreeFunc(t: Trie, start: Node, f: Data -> Outcome)
      returns (ret: int, calls: seq<Node>, ghost stale: seq<Node>)
    requires t.Valid() && t.Holds(start)
    modifies t, t.repr
    ensures t.Valid() && t.repr <= old(t.repr) && (old(t.Pruned()) ==> t.Pruned()) && t.lost == old(t.lost)
    ensures var order, m := Preorder(old(t.nodes).Keys, start.key), old(t.contents);
      && ret == FuncResult(f, order, m)
      && Keys(calls) == FuncCalls(f, order, m)
      && t.contents == m - ReleasedBy(f, Keys(calls), m)
      && t.nodes.Keys == ShapeAfter(f, old(t.nodes).Keys, Keys(calls), m)
      && t.destroyed == old(t.destroyed) + HooksOf(f, calls, m)
    ensures ret >= 0 ==>
      NoDup(Keys(calls)) && forall k :: k in Keys(calls) <==> k in old(t.contents) && IsPrefix(start.key, k)
    ensures stale == []
  {
    hide Walking, Todo, Preorder, NoDup, FuncResult, FuncCalls, Partial, Progress, ReleasedBy, Aftermath;
    hide Trie.Valid, Trie.Pruned, IsPrefix, Keys, WithChildren, PrefixClosed;
    ghost var order, m, ks := Preorder(t.nodes.Keys, start.key), t.contents, [];
    ghost var keys, hooks := t.nodes.Keys, t.destroyed;
    var stack := StartWalk(t, start);
    ret, calls, stale := 0, [], [];
    ProgressStart(t, f, Todo(t, stack));
    AfterNothing(t, f);
    PartialEnds(f, order, m, ret, ks);
    while stack != []
      invariant t.Valid() && Walking(t, stack) && stale == []
      invariant t.repr <= old(t.repr) && (old(t.Pruned()) ==> t.Pruned()) && t.lost == old(t.lost)
      invariant ks == Keys(calls) && Progress(t, f, m, ks, Todo(t, stack))
      invariant Partial(f, order, m, ret, ks, Todo(t, stack)) && Aftermath(t, f, keys, m, hooks, calls)
      decreases |Todo(t, stack)|
    {
      var top, rest := StackPop(stack);
      var n: Node := top;
      TopNode(t, stack, n);
      stale := stale + if n in t.freed then [n] else [];
      var left, right := n.left, n.right;
      ghost var next := WithChildren(left, right, rest);
      NextStack(t, n, left, right, rest);
      ghost var todo := Todo(t, next);
      ProgressStep(t, f, m, ks, n.key, todo);
      PartialStep(f, order, m, ret, ks, n.key, todo);
      if n.priv.Some? {
        var outcome := f(n.priv.value);
        KeysMore(calls, n);
        AfterCall(t, f, keys, m, hooks, calls, n, todo);
        calls, ks := calls + [n], ks + [n.key];
        if outcome.release {
          ReleaseVisited(t, n, next);
        }
        Progressed(t, f, m, ks, todo);
        IsAftermath(t, f, keys, m, hooks, calls);
        if outcome.value < 0 {
          return outcome.value, calls, stale;
        }
        ret := ret + outcome.value;
      }
      stack := PushChildren(left, right, rest);
    }
    Emptied(t);
    PartialEnds(f, order, m, ret, ks);
    Progressed(t, f, m, ks, []);
    IsAftermath(t, f, keys, m, hooks, calls);
    EveryEntryOnce(f, old(t.nodes).Keys, start.key, m);
  }

  lemma ProgressStart(t: Trie, f: Data -> Outcome, todo: seq<Path>)
    ensures Progress(t, f, t.contents, [], todo) && Keys([]) == []
  {
  }

  lemma Progressed(t: Trie, f: Data -> Outcome, m: map<Path, Entry>, calls: seq<Path>, todo: seq<Path>)
    ensures Progress(t, f, m, calls, todo) <==>
      t.contents == m - ReleasedBy(f, calls, m) && forall k <- calls :: k !in todo
  {
  }

  lemma IsAftermath(t: Trie, f: Data -> Outcome, keys: set<Path>, m: map<Path, Entry>, hooks: seq<Node>, calls: seq<Node>)
    ensures Aftermath(t, f, keys, m, hooks, calls) <==>
      t.nodes.Keys == ShapeAfter(f, keys, Keys(calls), m) && t.destroyed == hooks + HooksOf(f, calls, m)
  {
  }

  /** What one more call will have made of a trie. */
  lemma AfterCall(t: Trie, f: Data -> Outcome, keys: set<Path>, m: map<Path, Entry>, hooks: seq<Node>,
                  calls: seq<Node>, n: Node, todo: seq<Path>)
    requires Aftermath(t, f, keys, m, hooks, calls) && Progress(t, f, m, Keys(calls), todo) && n.key in t.contents
    ensures n.key in m && m[n.key] == t.contents[n.key]
    ensures ShapeAfter(f, keys, Keys(calls + [n]), m)
      == if f(m[n.key].data).release then ReleaseShape(t.nodes.Keys, t.contents.Keys, n.key) else t.nodes.Keys
    ensures hooks + HooksOf(f, calls + [n], m)
      == t.destroyed + if f(m[n.key].data).release && t.contents[n.key].Hooked() then [n] else []
  {
    hide Keys, ShapeAfter, HooksOf;
    AfterOne(f, keys, m, hooks, calls, n);
    assert (m - ReleasedBy(f, Keys(calls), m)).Keys == m.Keys - ReleasedBy(f, Keys(calls), m);
  }

  lemma KeysMore(calls: seq<Node>, n: Node)
    ensures Keys(calls + [n]) == Keys(calls) + [n.key]
  {
  }

  /** What the fields of the top node say. */
  lemma TopNode(t: Trie, stack: seq<Node>, n: Node)
    requires t.Valid() && Walking(t, stack) && stack != [] && n == stack[0]
    ensures t.Holds(n) && n !in t.freed
    ensures n.priv == if n.key in t.contents then Some(t.contents[n.key].data) else None
    ensures n.key in t.contents ==> n.ops == t.contents[n.key].ops
    ensures Todo(t, stack) != [] && Todo(t, stack) == [n.key] + Todo(t, stack)[1..]
  {
    assert n in stack;
    t.At(n.key);
    assert Keys(stack) == [n.key] + Keys(stack[1..]);
    PendingPush(t.nodes.Keys, n.key, Keys(stack[1..]));
  }

  lemma Emptied(t: Trie)
    ensures Todo(t, []) == []
  {
  }

  // ----- the printers

  /** One call of an entry's print hook: where it prints, and how much room it is given. */
  datatype Call = Call(key: Path, offset: nat, room: nat)

  /** What is left of a buffer once `len` more characters were asked for. */
  ghost function Shrink(room: nat, len: nat): nat {
    if len > room then 0 else room - len
  }

  ghost predicate Prints(m: map<Path, Entry>, k: Path) {
    k in m && m[k].Printable()
  }

  /** How much was asked for after the entries on `ks` were printed, starting at offset `used`. */
  ghost function PrintEnd(hook: (Data, nat) -> nat, ks: seq<Path>, m: map<Path, Entry>, buflen: nat, used: nat): nat {
    if ks == [] then used
    else if Prints(m, ks[0]) then
      PrintEnd(hook, ks[1..], m, buflen, used + hook(m[ks[0]].data, Shrink(buflen, used)))
    else PrintEnd(hook, ks[1..], m, buflen, used)
  }

  /** The print calls that this makes, in order. */
  ghost function PrintCalls(hook: (Data, nat) -> nat, ks: seq<Path>, m: map<Path, Entry>, buflen: nat, used: nat): seq<Call> {
    if ks == [] then []
    else if Prints(m, ks[0]) then
      [Call(ks[0], used, Shrink(buflen, used))]
      + PrintCalls(hook, ks[1..], m, buflen, used + hook(m[ks[0]].data, Shrink(buflen, used)))
    else PrintCalls(hook, ks[1..], m, buflen, used)
  }

  /** Calls follow each other from offset `used` to `end`: each starts where the one before it stopped printing. */
  ghost predicate Consecutive(hook: (Data, nat) -> nat, m: map<Path, Entry>, calls: seq<Call>, used: nat, end: nat) {
    if calls == [] then end == used else
      && calls[0].key in m && calls[0].offset == used
      && Consecutive(hook, m, calls[1..], used + hook(m[calls[0].key].data, calls[0].room), end)
  }

  /** The entries among some paths that have a print hook. */
  ghost function Printables(ks: seq<Path>, m: map<Path, Entry>): seq<Path> {
    if ks == [] then [] else
      (if ks[0] in m && m[ks[0]].ops.Some? && m[ks[0]].ops.value.hasPrint then [ks[0]] else [])
      + Printables(ks[1..], m)
  }

  ghost function CallKeys(calls: seq<Call>): seq<Path> {
    seq(|calls|, i requires 0 <= i < |calls| => calls[i].key)
  }

  lemma {:induction false} CalledKeys(hook: (Data, nat) -> nat, ks: seq<Path>, m: map<Path, Entry>, buflen: nat,
                                      used: nat)
    ensures CallKeys(PrintCalls(hook, ks, m, buflen, used)) == Printables(ks, m)
    decreases ks
  {
    if ks != [] {
      var used' := if Prints(m, ks[0]) then used + hook(m[ks[0]].data, Shrink(buflen, used)) else used;
      CalledKeys(hook, ks[1..], m, buflen, used');
      if Prints(m, ks[0]) {
        var calls := PrintCalls(hook, ks, m, buflen, used);
        assert CallKeys(calls) == [ks[0]] + CallKeys(calls[1..]);
      }
    }
  }

  /** What print calls there are: one for each printable entry, in order, each behind the output of the one before,
      with the rest of the buffer as room, or none once the buffer is used up. */
  lemma {:induction false} PrintLaw(hook: (Data, nat) -> nat, ks: seq<Path>, m: map<Path, Entry>, buflen: nat,
                                    used: nat)
    ensures var calls := PrintCalls(hook, ks, m, buflen, used);
      && (forall c <- calls :: c.room == if c.offset <= buflen then buflen - c.offset else 0)
      && Consecutive(hook, m, calls, used, PrintEnd(hook, ks, m, buflen, used))
      && CallKeys(calls) == Printables(ks, m)
    decreases ks
  {
    hide CallKeys, Printables;
    CalledKeys(hook, ks, m, buflen, used);
    if ks != [] {
      var used' := if Prints(m, ks[0]) then used + hook(m[ks[0]].data, Shrink(buflen, used)) else used;
      PrintLaw(hook, ks[1..], m, buflen, used');
      if Prints(m, ks[0]) {
        var calls := PrintCalls(hook, ks, m, buflen, used);
        assert calls[1..] == PrintCalls(hook, ks[1..], m, buflen, used');
      }
    }
  }

  lemma {:induction false} PrintSplit(hook: (Data, nat) -> nat, a: seq<Path>, b: seq<Path>, m: map<Path, Entry>,
                                      buflen: nat, used: nat)
    ensures var mid := PrintEnd(hook, a, m, buflen, used);
      && PrintEnd(hook, a + b, m, buflen, used) == PrintEnd(hook, b, m, buflen, mid)
      && PrintCalls(hook, a + b, m, buflen, used)
         == PrintCalls(hook, a, m, buflen, used) + PrintCalls(hook, b, m, buflen, mid)
  {
    if a == [] {
      assert a + b == b;
    } else {
      assert (a + b)[1..] == a[1..] + b;
      var used' := if Prints(m, a[0]) then used + hook(m[a[0]].data, Shrink(buflen, used)) else used;
      PrintSplit(hook, a[1..], b, m, buflen, used');
    }
  }

  /** Printing a subtree is printing its root, then the left subtree, then the right one. */
  lemma PrintSubtree(hook: (Data, nat) -> nat, keys: set<Path>, p: Path, m: map<Path, Entry>, whole: nat, base: nat)
    ensures p !in keys ==>
      && PrintEnd(hook, Preorder(keys, p), m, whole, base) == base
      && PrintCalls(hook, Preorder(keys, p), m, whole, base) == []
    ensures p in keys ==>
      var prints := Prints(m, p);
      var l, r := Preorder(keys, Down(p, false)), Preorder(keys, Down(p, true));
      var base1 := base + if prints then hook(m[p].data, Shrink(whole, base)) else 0;
      var base2 := PrintEnd(hook, l, m, whole, base1);
      && PrintEnd(hook, Preorder(keys, p), m, whole, base) == PrintEnd(hook, r, m, whole, base2)
      && PrintCalls(hook, Preorder(keys, p), m, whole, base)
         == (if prints then [Call(p, base, Shrink(whole, base))] else [])
            + PrintCalls(hook, l, m, whole, base1) + PrintCalls(hook, r, m, whole, base2)
  {
    var l, r := Preorder(keys, Down(p, false)), Preorder(keys, Down(p, true));
    assert p in keys ==> Preorder(keys, p) == [p] + l + r;
    PrintSplit(hook, [p] + l, r, m, whole, base);
    PrintSplit(hook, [p], l, m, whole, base);
  }

  /** Prints the entries of a subtree with an explicit stack. */
  method PrintNonrecursive(t: Trie, start: Node, hook: (Data, nat) -> nat, buflen: nat)
      returns (total: nat, ghost calls: seq<Call>)
    requires t.Valid() && t.Holds(start)
    ensures total == PrintEnd(hook, Preorder(t.nodes.Keys, start.key), t.contents, buflen, 0)
    ensures calls == PrintCalls(hook, Preorder(t.nodes.Keys, start.key), t.contents, buflen, 0)
    ensures forall c <- calls :: c.room == if c.offset <= buflen then buflen - c.offset else 0
    ensures Consecutive(hook, t.contents, calls, 0, total)
    ensures CallKeys(calls) == Printables(Preorder(t.nodes.Keys, start.key), t.contents)
  {
    hide Walking, Todo, Preorder, NoDup, Consecutive, Printables, CallKeys;
    ghost var order, m := Preorder(t.nodes.Keys, start.key), t.contents;
    var stack := StartWalk(t, start);
    var room := buflen;
    total, calls := 0, [];
    while stack != []
      invariant Walking(t, stack) && room == Shrink(buflen, total)
      invariant PrintEnd(hook, order, m, buflen, 0) == PrintEnd(hook, Todo(t, stack), m, buflen, total)
      invariant PrintCalls(hook, order, m, buflen, 0) == calls + PrintCalls(hook, Todo(t, stack), m, buflen, total)
      decreases |Todo(t, stack)|
    {
      var n, rest := StackPop(stack);
      TopNode(t, stack, n);
      NextStack(t, n, n.left, n.right, rest);
      if n.priv.Some? && n.ops.Some? && n.ops.value.hasPrint {
        var len := hook(n.priv.value, room);
        calls := calls + [Call(n.key, total, room)];
        total := total + len;
        room := if len > room then 0 else room - len;
      }
      ghost var before := stack;
      stack := PushChildren(n.left, n.right, rest);
      assert Todo(t, before)[1..] == Todo(t, stack);
    }
    Emptied(t);
    PrintLaw(hook, order, m, buflen, 0);
  }

  /** Prints the entries at and below path `p` by recursion, into what is left of a buffer of length `whole`
      once the output before offset `base` is in it. */
  method PrintRecursive(t: Trie, n: Node?, hook: (Data, nat) -> nat, buflen: nat,
                        ghost p: Path, ghost whole: nat, ghost base: nat)
      returns (total: nat, ghost calls: seq<Call>)
    requires t.Valid() && n == (if p in t.nodes then t.nodes[p] else null) && buflen == Shrink(whole, base)
    ensures base + total == PrintEnd(hook, Preorder(t.nodes.Keys, p), t.contents, whole, base)
    ensures calls == PrintCalls(hook, Preorder(t.nodes.Keys, p), t.contents, whole, base)
    ensures forall c <- calls :: c.room == if c.offset <= whole then whole - c.offset else 0
    ensures Consecutive(hook, t.contents, calls, base, base + total)
    ensures CallKeys(calls) == Printables(Preorder(t.nodes.Keys, p), t.contents)
    decreases Below(t.nodes.Keys, p)
  {
    hide PrintEnd, PrintCalls, Preorder, Consecutive, Printables, CallKeys;
    total, calls := 0, [];
    PrintLaw(hook, Preorder(t.nodes.Keys, p), t.contents, whole, base);
    PrintSubtree(hook, t.nodes.Keys, p, t.contents, whole, base);
    if n != null {
      t.At(p);
      BelowShrinks(t.nodes.Keys, p, false);
      BelowShrinks(t.nodes.Keys, p, true);
      var room := buflen;
      if n.priv.Some? && n.ops.Some? && n.ops.value.hasPrint {
        var len := hook(n.priv.value, room);
        calls := [Call(p, base, room)];
        total := total + len;
        room := if len > room then 0 else room - len;
      }
      var len;
      ghost var below;
      len, below := PrintRecursive(t, n.left, hook, room, Down(p, false), whole, base + total);
      calls := calls + below;
      total := total + len;
      room := if len > room then 0 else room - len;
      len, below := PrintRecursive(t, n.right, hook, room, Down(p, true), whole, base + total);
      calls := calls + below;
      total := total + len;
    }
  }
}

/** Whole runs of the trie: whatever sequence of insertions, removals, releases and lookups it is given, and
    wherever memory runs out, it answers as a finite map from bit strings would, and keeps the nodes that a
    set of paths would. */
module TrieRun {
  import opened Wrappers
  import opened Bits
  import opened Trie
  import opened TrieShape
  import opened TrieWalk

  /** One request; `memory` is how many allocations succeed during an insertion before one fails. */
  datatype Request =
    | Insert(prefix: seq<bv8>, bits: nat, ops: Option<NodeOps>, data: Data, memory: nat)
    | Remove(prefix: seq<bv8>, bits: nat)
    | Release(prefix: seq<bv8>, bits: nat)
    | Lookup(prefix: seq<bv8>, bits: nat, matcher: Matcher)
  {
    predicate WellFormed() {
      PrefixSize(bits) <= |prefix|
    }

    ghost function Key(): Path
      requires WellFormed()
    {
      PathOf(prefix, bits)
    }
  }

  /** A request whose buffer holds as many bits as it says. */
  type Op = op: Request | op.WellFormed() witness Lookup([], 0, None)

  /** What a request gives back. */
  datatype Answer = Done(ok: bool) | Found(key: Option<Path>)

  // ----- reference: a finite map, the paths that have nodes, and a count of lost nodes

  datatype State = State(m: map<Path, Entry>, keys: set<Path>, lost: nat) {
    /** The paths whose nodes an insertion builds on. */
    ghost function Usable(): set<Path> {
      if m == map[] then {} else keys
    }

    /** An insertion is carried out exactly when its place is free and memory lasts for the missing nodes. */
    ghost predicate Takes(op: Op)
      requires op.Insert?
    {
      op.Key() !in m && Missing(Usable(), op.Key()) <= op.memory
    }
  }

  ghost function Apply(s: State, op: Op): State {
    match op
    case Insert(_, _, ops, data, memory) =>
      State(if s.Takes(op) then s.m[op.Key() := Entry(ops, data)] else s.m,
            Extend(s.Usable(), op.Key(), memory),
            s.lost + if s.m == map[] then |s.keys| else 0)
    case Remove(_, _) => s.(m := s.m - {op.Key()})
    case Release(_, _) =>
      if op.Key() !in s.m then s
      else State(s.m - {op.Key()}, ReleaseShape(s.keys, s.m.Keys, op.Key()), s.lost)
    case Lookup(_, _, _) => s
  }

  ghost function Replay(s: State, ops: seq<Op>): State {
    if ops == [] then s else Apply(Replay(s, ops[..|ops| - 1]), ops[|ops| - 1])
  }

  /** The answer to a request: a lookup gives the longest match, a change reports whether it was made. */
  ghost predicate Answers(s: State, op: Op, a: Answer) {
    match op
    case Lookup(_, _, matcher) => a.Found? && IsLongestMatch(s.m, op.Key(), matcher, a.key)
    case Insert(_, _, _, _, _) => a == Done(s.Takes(op))
    case _ => a == Done(op.Key() in s.m)
  }

  // ----- when childless nodes stay active

  /** The paths form a tree that has every entry in it. */
  ghost predicate IsTree(s: State) {
    PrefixClosed(s.keys) && s.m.Keys <= s.keys
  }

  ghost predicate Pruned(s: State) {
    PrunedShape(s.keys, s.m.Keys)
  }

  /** A request that leaves no inactive leaf behind: not the removal of a childless entry other than the root's,
      nor an insertion for which memory ends after a new node other than the root. */
  ghost predicate Tidy(s: State, op: Op) {
    && (op.Remove? ==> !(op.Key() in s.m && op.Key().Down? && Leaf(s.keys, op.Key())))
    && (op.Insert? ==>
          || op.Key() in s.m || s.Takes(op)
          || op.memory <= if Top in s.Usable() then 0 else 1)
  }

  lemma ApplyKeepsTree(s: State, op: Op)
    requires IsTree(s)
    ensures IsTree(Apply(s, op))
  {
    if op.Insert? {
      ExtendIsTree(s.Usable(), op.Key(), op.memory);
    } else if op.Release? {
      ReleaseIsTree(s.keys, s.m.Keys, op.Key());
      assert (s.m - {op.Key()}).Keys == s.m.Keys - {op.Key()};
    }
  }

  lemma InsertKeepsPruned(s: State, op: Op)
    requires IsTree(s) && Pruned(s) && op.Insert?
    ensures Pruned(Apply(s, op)) <==> Tidy(s, op)
  {
    hide PathOf, Missing;
    var keys, k := s.Usable(), op.Key();
    if k in s.m {
      ExtendHere(keys, k, op.memory);
    } else if s.Takes(op) {
      ExtendWhole(keys, s.m.Keys, k, op.memory);
      assert Apply(s, op).m.Keys == s.m.Keys + {k};
    } else {
      ExtendShort(keys, s.m.Keys, k, op.memory);
    }
  }

  lemma RemoveKeepsPruned(s: State, op: Op)
    requires IsTree(s) && Pruned(s) && op.Remove?
    ensures Pruned(Apply(s, op)) <==> Tidy(s, op)
  {
    var k := op.Key();
    assert (s.m - {k}).Keys == s.m.Keys - {k};
    if Tidy(s, op) {
      forall p | p in s.keys && p.Down? && Leaf(s.keys, p)
        ensures p in s.m.Keys - {k}
      {
      }
    }
  }

  /** A request keeps every childless node but the root active if and only if it is tidy. */
  lemma TidyKeepsPruned(s: State, op: Op)
    requires IsTree(s) && Pruned(s)
    ensures Pruned(Apply(s, op)) <==> Tidy(s, op)
  {
    hide PathOf;
    match op
    case Insert(_, _, _, _, _) => InsertKeepsPruned(s, op);
    case Remove(_, _) => RemoveKeepsPruned(s, op);
    case Release(_, _) =>
      assert (s.m - {op.Key()}).Keys == s.m.Keys - {op.Key()};
      ReleasePrunes(s.keys, s.m.Keys, op.Key());
    case Lookup(_, _, _) =>
  }

  /** Every request of a run is tidy where it is made. */
  ghost predicate AllTidy(s: State, ops: seq<Op>) {
    ops != [] ==>
      var front := ops[..|ops| - 1];
      AllTidy(s, front) && Tidy(Replay(s, front), ops[|ops| - 1])
  }

  /** Every state of a run keeps its childless nodes active. */
  ghost predicate AlwaysPruned(s: State, ops: seq<Op>) {
    Pruned(Replay(s, ops)) && (ops != [] ==> AlwaysPruned(s, ops[..|ops| - 1]))
  }

  /** So all states of a run keep childless nodes active if and only if all its requests are tidy. */
  lemma {:induction false} RunStaysPruned(s: State, ops: seq<Op>)
    requires IsTree(s) && Pruned(s)
    ensures IsTree(Replay(s, ops))
    ensures AlwaysPruned(s, ops) <==> AllTidy(s, ops)
  {
    hide Apply, Tidy, IsTree, Pruned;
    if ops != [] {
      var last := |ops| - 1;
      var front := ops[..last];
      RunStaysPruned(s, front);
      ApplyKeepsTree(Replay(s, front), ops[last]);
      if Pruned(Replay(s, front)) {
        TidyKeepsPruned(Replay(s, front), ops[last]);
      }
    }
  }

  lemma {:induction false} MissingIsBounded(keys: set<Path>, q: Path)
    ensures Missing(keys, q) <= Len(q) + 1
  {
    if q.Down? {
      MissingIsBounded(keys, q.up);
    }
  }

  /** Releasing instead of removing, with memory for a whole new path, is always tidy. */
  lemma AmpleIsTidy(s: State, op: Op)
    requires !op.Remove? && (op.Insert? ==> op.memory > op.bits)
    ensures Tidy(s, op)
  {
    if op.Insert? {
      MissingIsBounded(s.Usable(), op.Key());
    }
  }

  /** The state that a trie refines. */
  ghost function View(t: Trie): State
    reads t
  {
    State(t.contents, t.nodes.Keys, t.lost)
  }

  // ----- the trie does what the reference does

  /** Releases the entry at a prefix, if there is one. */
  method ReleasePrefix(t: Trie, prefix: seq<bv8>, bits: nat) returns (ok: bool)
    requires t.Valid() && PrefixSize(bits) <= |prefix|
    modifies t, t.repr
    ensures t.Valid() && t.repr <= old(t.repr)
    ensures ok <==> PathOf(prefix, bits) in old(t.contents)
    ensures View(t) == Apply(old(View(t)), Release(prefix, bits))
    ensures old(t.Pruned()) ==> t.Pruned()
  {
    hide ByteBit, PathOf, Trie.Shaped, ReleaseShape, FreedAlong;
    ghost var q := PathOf(prefix, bits);
    var n := t.FindLongestMatch(prefix, bits, None);
    if n != null {
      t.Tested(n);
      PrefixLen(n.key, q);
      if n.prefixBits == bits {
        ghost var _ := t.Release(n);
        return true;
      }
    }
    assert Covers(t.contents, q, q, None) <==> q in t.contents;
    return false;
  }

  /** Hands a request to the trie. */
  method Serve(t: Trie, op: Op) returns (ghost a: Answer)
    requires t.Valid()
    modifies t, t.repr
    ensures t.Valid() && fresh(t.repr - old(t.repr))
    ensures View(t) == Apply(old(View(t)), op) && Answers(old(View(t)), op, a)
  {
    hide ByteBit, PathOf, Trie.Shaped, Extend, Missing, ReleaseShape;
    assert t.entries == 0 <==> t.contents == map[];
    match op
    case Insert(prefix, bits, ops, data, memory) =>
      var n := t.Insert(ops, data, prefix, bits, memory);
      a := Done(n != null);
    case Remove(prefix, bits) =>
      var ok := t.Remove(prefix, bits);
      a := Done(ok);
    case Release(prefix, bits) =>
      var ok := ReleasePrefix(t, prefix, bits);
      a := Done(ok);
    case Lookup(prefix, bits, matcher) =>
      var n := t.FindLongestMatch(prefix, bits, matcher);
      a := Found(KeyOf(n));
  }

  /** Carries out one request. */
  method Perform(t: Trie, op: Op) returns (ghost a: Answer)
    requires t.Valid()
    modifies t, t.repr
    ensures t.Valid() && fresh(t.repr - old(t.repr))
    ensures View(t) == Apply(old(View(t)), op) && Answers(old(View(t)), op, a)
    ensures old(t.Pruned()) ==> (t.Pruned() <==> Tidy(old(View(t)), op))
  {
    hide Apply, Answers, Tidy, Pruned, Trie.Pruned, Trie.Valid;
    Described(t);
    if Pruned(View(t)) {
      TidyKeepsPruned(View(t), op);
    }
    a := Serve(t, op);
    Described(t);
  }

  /** Every request of a run is answered from the state that the requests before it have left. */
  ghost predicate Explains(s: State, ops: seq<Op>, answers: seq<Answer>) {
    |answers| == |ops| && forall i :: 0 <= i < |ops| ==> Answers(Replay(s, ops[..i]), ops[i], answers[i])
  }

  lemma ExplainsNone(s: State)
    ensures Explains(s, [], []) && Replay(s, []) == s
  {
  }

  lemma ExplainsMore(s: State, ops: seq<Op>, answers: seq<Answer>, k: nat, a: Answer)
    requires k < |ops| && Explains(s, ops[..k], answers)
    requires Answers(Replay(s, ops[..k]), ops[k], a)
    ensures Explains(s, ops[..k + 1], answers + [a])
    ensures Replay(s, ops[..k + 1]) == Apply(Replay(s, ops[..k]), ops[k])
  {
    hide Answers, Apply;
    forall i | 0 <= i < k + 1
      ensures Answers(Replay(s, ops[..k + 1][..i]), ops[..k + 1][i], (answers + [a])[i])
    {
      assert ops[..k + 1][..i] == ops[..i];
      if i < k {
        assert ops[..k][..i] == ops[..i] && Answers(Replay(s, ops[..k][..i]), ops[..k][i], answers[i]);
      }
    }
    assert ops[..k + 1][..k] == ops[..k] && ops[..k + 1] == ops[..k] + [ops[k]];
  }

  /** Carries out a run of requests. */
  method RunAll(t: Trie, ops: seq<Op>) returns (ghost answers: seq<Answer>)
    requires t.Valid()
    modifies t, t.repr
    ensures t.Valid() && fresh(t.repr - old(t.repr))
    ensures View(t) == Replay(old(View(t)), ops) && Explains(old(View(t)), ops, answers)
    ensures old(t.Pruned()) && AllTidy(old(View(t)), ops) ==> t.Pruned()
  {
    hide Answers, Apply, Replay, Explains, AllTidy, Tidy, Trie.Valid;
    ghost var s := View(t);
    Described(t);
    answers := [];
    ExplainsNone(s);
    for k := 0 to |ops|
      invariant t.Valid() && fresh(t.repr - old(t.repr))
      invariant View(t) == Replay(s, ops[..k]) && Explains(s, ops[..k], answers)
    {
      ghost var a := Perform(t, ops[k]);
      ExplainsMore(s, ops, answers, k, a);
      answers := answers + [a];
    }
    assert ops[..|ops|] == ops;
    if old(t.Pruned()) {
      RunStaysPruned(s, ops);
    }
  }

  lemma Described(t: Trie)
    requires t.Valid()
    ensures IsTree(View(t)) && (t.Pruned() <==> Pruned(View(t)))
  {
    t.Closed();
  }

  // ----- what a run leaves in the map

  /** A request that takes away whatever is at `k`. */
  ghost predicate Clears(op: Op, k: Path) {
    (op.Remove? || op.Release?) && op.Key() == k
  }

  /** Request `i` of a run put the entry `e` at `k`, and no later one took it away. */
  ghost predicate Live(s: State, ops: seq<Op>, i: nat, k: Path, e: Entry) {
    && i < |ops| && ops[i].Insert? && ops[i].Key() == k && e == Entry(ops[i].ops, ops[i].data)
    && Replay(s, ops[..i]).Takes(ops[i])
    && forall j :: i < j < |ops| ==> !Clears(ops[j], k)
  }

  ghost predicate MapsTo(m: map<Path, Entry>, k: Path, e: Entry) {
    k in m && m[k] == e
  }

  lemma MapAfter(s: State, op: Op, k: Path, e: Entry)
    ensures MapsTo(Apply(s, op).m, k, e) <==>
      if op.Insert? && op.Key() == k && s.Takes(op) then e == Entry(op.ops, op.data)
      else MapsTo(s.m, k, e) && !Clears(op, k)
  {
  }

  lemma LiveBefore(s: State, ops: seq<Op>, i: nat, k: Path, e: Entry)
    requires i < |ops| - 1
    ensures Live(s, ops, i, k, e) <==> Live(s, ops[..|ops| - 1], i, k, e) && !Clears(ops[|ops| - 1], k)
  {
    hide Replay;
    var front := ops[..|ops| - 1];
    assert front[..i] == ops[..i];
    if Live(s, ops, i, k, e) {
      assert forall j :: i < j < |front| ==> front[j] == ops[j];
    } else if Live(s, front, i, k, e) {
      assert forall j :: i < j < |front| ==> ops[j] == front[j];
    }
  }

  lemma LiveLast(s: State, ops: seq<Op>, k: Path, e: Entry)
    requires ops != []
    ensures var n := |ops| - 1;
      Live(s, ops, n, k, e) <==>
        ops[n].Insert? && ops[n].Key() == k && Replay(s, ops[..n]).Takes(ops[n]) && e == Entry(ops[n].ops, ops[n].data)
  {
  }

  /** Taking in a request at a path and having a live entry there exclude each other. */
  lemma NotBoth(s: State, op: Op, k: Path, e: Entry)
    requires op.Insert? && op.Key() == k && s.Takes(op)
    ensures !MapsTo(s.m, k, e)
  {
  }

  /** A run from an empty trie leaves exactly the entries that some request inserted and none took away since. */
  lemma {:induction false} EntriesAreLive(s: State, ops: seq<Op>, k: Path, e: Entry)
    requires s.m == map[]
    ensures MapsTo(Replay(s, ops).m, k, e) <==> exists i :: Live(s, ops, i, k, e)
  {
    hide Live, Apply, State.Takes, Clears;
    if ops == [] {
      NothingLive(s, k, e);
    } else {
      var n := |ops| - 1;
      var front, last := ops[..n], ops[n];
      EntriesAreLive(s, front, k, e);
      MapAfter(Replay(s, front), last, k, e);
      LiveLast(s, ops, k, e);
      LiveInRange(s, ops, k, e);
      forall i: nat | i < n
        ensures Live(s, ops, i, k, e) <==> Live(s, front, i, k, e) && !Clears(last, k)
      {
        LiveBefore(s, ops, i, k, e);
      }
      LiveInRange(s, front, k, e);
      if last.Insert? && last.Key() == k && Replay(s, front).Takes(last) {
        NotBoth(Replay(s, front), last, k, e);
      }
    }
  }

  lemma NothingLive(s: State, k: Path, e: Entry)
    ensures forall i: nat :: !Live(s, [], i, k, e)
  {
  }

  lemma LiveInRange(s: State, ops: seq<Op>, k: Path, e: Entry)
    ensures forall i: nat :: Live(s, ops, i, k, e) ==> i < |ops|
  {
  }

  /** So a lookup in a run gives the longest path, among those with a live insertion, that is a prefix of the
      query and whose data the filter accepts. */
  lemma LookupInRun(s: State, ops: seq<Op>, answers: seq<Answer>, n: nat)
    requires s.m == map[] && Explains(s, ops, answers)
    requires n < |ops| && ops[n].Lookup?
    ensures answers[n].Found?
    ensures answers[n].key.Some? ==> exists i, e ::
      && Live(s, ops[..n], i, answers[n].key.value, e)
      && (ops[n].matcher.Some? ==> ops[n].matcher.value(e.data))
    ensures answers[n].key.Some? ==> IsPrefix(answers[n].key.value, ops[n].Key())
    ensures forall i, k, e ::
      Live(s, ops[..n], i, k, e) && IsPrefix(k, ops[n].Key()) && (ops[n].matcher.Some? ==> ops[n].matcher.value(e.data)) ==>
        answers[n].key.Some? && Len(k) <= Len(answers[n].key.value)
  {
    var front, m, matcher := ops[..n], Replay(s, ops[..n]).m, ops[n].matcher;
    assert Answers(Replay(s, front), ops[n], answers[n]);
    LongestMeans(m, ops[n].Key(), matcher, answers[n].key);
    if answers[n].key.Some? {
      EntriesAreLive(s, front, answers[n].key.value, m[answers[n].key.value]);
    }
    forall i, k, e | Live(s, front, i, k, e) && IsPrefix(k, ops[n].Key()) && (matcher.Some? ==> matcher.value(e.data))
      ensures answers[n].key.Some? && Len(k) <= Len(answers[n].key.value)
    {
      EntriesAreLive(s, front, k, e);
    }
  }

  // ----- nodes that are lost or read too late

  /** An insertion loses nodes exactly when the trie has no entries but has a root, and a pruned trie then
      has nothing but that root. */
  lemma WhatIsLost(t: Trie, op: Op)
    requires t.Valid() && op.Insert?
    ensures Apply(View(t), op).lost > t.lost <==> t.entries == 0 && t.root != null
    ensures t.Pruned() ==> Apply(View(t), op).lost <= t.lost + 1
  {
    assert t.entries == 0 <==> t.contents == map[];
    assert |t.nodes| == |t.nodes.Keys|;
    if t.entries == 0 && t.Pruned() {
      t.Closed();
      forall p <- t.nodes
        ensures p == Top
      {
        OnlyTheRoot(t.nodes.Keys, p);
      }
      assert t.nodes.Keys <= {Top};
      assert t.nodes.Keys == {} || t.nodes.Keys == {Top};
    }
  }

  /** Where every childless path but the root would have to be active and nothing is, only the root remains. */
  lemma {:induction false} OnlyTheRoot(keys: set<Path>, p: Path)
    requires PrunedShape(keys, {}) && p in keys
    ensures p == Top
    decreases Below(keys, p)
  {
    if p.Down? {
      assert !Leaf(keys, p);
      var bit := Down(p, true) in keys;
      BelowShrinks(keys, p, bit);
      OnlyTheRoot(keys, Down(p, bit));
    }
  }

  /** The default entry, at no bits, is the root's: releasing it from a trie that has no other reads the root
      after freeing it. */
  method ReleaseDefaultEntry(data: Data) returns (ghost stale: seq<Node>)
    ensures |stale| == 1
  {
    var t := new Trie();
    var n := t.Insert(None, data, [], 0, 1);
    t.Tested(n);
    stale := t.Release(n);
  }

  /** A trie emptied by a release keeps its root, and loses it to the next insertion. */
  method InsertAfterLastRelease(data: Data) returns (t: Trie)
    ensures t.Valid() && t.lost == 1
  {
    hide ByteBit, Extend, Missing, ReleaseShape, Trie.Shaped, FreedAlong;
    t := new Trie();
    ghost var k := PathOf([0], 1);
    OneLevel(k);
    var n := t.Insert(None, data, [0], 1, 2);
    assert t.contents.Keys == {k};
    ghost var _ := t.Release(n);
    assert t.contents == map[] && |t.nodes| == |t.nodes.Keys|;
    var again := t.Insert(None, data, [0], 1, 2);
  }

  lemma OneLevel(k: Path)
    requires k.Down? && k.up == Top
    ensures Missing({}, k) == 2 && Extend({}, k, 2) == {Top, k} && ReleaseShape({Top, k}, {k}, k) == {Top}
  {
    assert Missing({}, Top) == 1 && Extend({}, Top, 2) == {Top};
    assert {Top, k} - {k} == {Top} && Leaf({Top, k}, k) && Trim({Top}, {}, Top) == {Top};
    assert {k} - {k} == {};
  }

  /** A new trie, and two runs on it. */
  method RunTwice(first: seq<Op>, second: seq<Op>) returns (t: Trie)
    ensures t.Valid() && fresh(t) && fresh(t.repr)
    ensures View(t) == Replay(State(map[], {}, 0), first + second)
  {
    t := new Trie();
    ghost var _ := RunAll(t, first);
    ghost var _ := RunAll(t, second);
    ReplayMore(State(map[], {}, 0), first, second);
  }

  lemma {:induction false} ReplayMore(s: State, first: seq<Op>, second: seq<Op>)
    ensures Replay(s, first + second) == Replay(Replay(s, first), second)
  {
    hide Apply;
    if second == [] {
      assert first + second == first;
    } else {
      var n := |first + second| - 1;
      assert (first + second)[..n] == first + second[..|second| - 1];
      ReplayMore(s, first, second[..|second| - 1]);
    }
  }
}

/** A doubly linked deque with head and tail pointers and a length, and iterators from either end. */
module Deque {
  import opened Wrappers

  type Value = nat

  class Node {
    var prev: Node?
    var next: Node?
    var val: Value

    constructor (val: Value)
      ensures prev == null && next == null && this.val == val
    {
      prev, next, this.val := null, null, val;
    }
  }

  /** The node at a place, and nothing outside the sequence. */
  ghost function At(s: seq<Node>, i: int): Node? {
    if 0 <= i < |s| then s[i] else null
  }

  /** All different, and linked both ways from end to end. */
  ghost predicate Chain(s: seq<Node>)
    reads s
  {
    && NoDup(s)
    && (forall i {:trigger s[i].next} :: 0 <= i < |s| ==> s[i].next == At(s, i + 1))
    && (forall i {:trigger s[i].prev} :: 0 <= i < |s| ==> s[i].prev == At(s, i - 1))
  }

  /** The same nodes from the other end. */
  ghost function Backwards(s: seq<Node>): seq<Node> {
    seq(|s|, i requires 0 <= i < |s| => s[|s| - 1 - i])
  }

  /** Taking one node out leaves the others, all different, in their order. */
  lemma Without(s: seq<Node>, k: nat)
    requires NoDup(s) && k < |s|
    ensures var r := s[..k] + s[k + 1..];
      && NoDup(r) && s[k] !in r
      && forall i {:trigger r[i]} :: 0 <= i < |r| ==> r[i] == s[if i < k then i else i + 1]
  {
  }

  /** Which of the values match: those the list's own function accepts, or the equal ones. */
  ghost predicate Matches(matcher: Option<(Value, Value) -> bool>, val: Value, other: Value) {
    if matcher.Some? then matcher.value(val, other) else val == other
  }

  datatype Direction = FromHead | FromTail

  /** The node that comes after `k` others from one end. */
  ghost function Nth(s: seq<Node>, direction: Direction, k: nat): Node? {
    if direction == FromHead then At(s, k) else At(s, |s| - 1 - k)
  }

  lemma NthLinks(s: seq<Node>, direction: Direction, k: nat)
    requires Chain(s) && k < |s|
    ensures var n := Nth(s, direction, k);
      n != null && (if direction == FromHead then n.next else n.prev) == Nth(s, direction, k + 1)
  {
    var i := if direction == FromHead then k else |s| - 1 - k;
    assert s[i].next == At(s, i + 1) && s[i].prev == At(s, i - 1);
  }

  class Iterator {
    var next: Node?
    const direction: Direction

    constructor (list: List, direction: Direction)
      requires list.Valid()
      ensures this.direction == direction && Passed(list.nodes, 0)
    {
      this.direction := direction;
      next := if direction == FromHead then list.head else list.tail;
    }

    /** This iterator has returned `k` nodes of a list from its end. */
    ghost predicate Passed(s: seq<Node>, k: nat)
      reads this
    {
      next == Nth(s, direction, k)
    }

    /** Returns the next node from this end, or nothing once all have been returned. */
    method Next(ghost s: seq<Node>, ghost k: nat) returns (curr: Node?)
      requires Chain(s) && Passed(s, k)
      modifies this
      ensures curr == Nth(s, direction, k) && Passed(s, k + 1)
    {
      curr := next;
      if curr != null {
        NthLinks(s, direction, k);
        next := if direction == FromHead then curr.next else curr.prev;
      }
    }
  }

  class List {
    var head: Node?
    var tail: Node?
    var len: nat
    var matcher: Option<(Value, Value) -> bool>
    /** Whether the list has a hook that frees values. */
    var hasFree: bool
    /** The nodes on the list, in order. */
    ghost var nodes: seq<Node>
    /** Nodes freed and values given to the hook so far, in order. */
    ghost var freed: seq<Node>
    ghost var freedValues: seq<Value>

    ghost predicate Valid()
      reads this, nodes
    {
      && len == |nodes|
      && head == At(nodes, 0)
      && tail == At(nodes, |nodes| - 1)
      && Chain(nodes)
    }

    constructor ()
      ensures Valid() && nodes == [] && matcher == None && !hasFree && freed == [] && freedValues == []
    {
      head, tail, len, matcher, hasFree, nodes, freed, freedValues := null, null, 0, None, false, [], [], [];
    }

    /** Appends a node that is on no list. */
    method RPush(node: Node?) returns (r: Node?)
      requires Valid() && node !in nodes
      modifies this`head, this`tail, this`len, this`nodes, node, nodes
      ensures Valid() && r == node
      ensures nodes == if node == null then old(nodes) else old(nodes) + [node]
    {
      if node == null {
        return null;
      }
      ghost var before := nodes;
      if len != 0 {
        node.prev := tail;
        node.next := null;
        tail.next := node;
        tail := node;
      } else {
        head, tail := node, node;
        node.prev, node.next := null, null;
      }
      len := len + 1;
      nodes := nodes + [node];
      NoDupConcat(before, [node]);
      forall i | 0 <= i < |nodes|
        ensures nodes[i].next == At(nodes, i + 1) && nodes[i].prev == At(nodes, i - 1)
      {
        if i < |before| {
          assert old(before[i].next) == At(before, i + 1) && old(before[i].prev) == At(before, i - 1);
        }
      }
      return node;
    }

    /** Prepends a node that is on no list. */
    method LPush(node: Node?) returns (r: Node?)
      requires Valid() && node !in nodes
      modifies this`head, this`tail, this`len, this`nodes, node, nodes
      ensures Valid() && r == node
      ensures nodes == if node == null then old(nodes) else [node] + old(nodes)
    {
      if node == null {
        return null;
      }
      ghost var before := nodes;
      if len != 0 {
        node.next := head;
        node.prev := null;
        head.prev := node;
        head := node;
      } else {
        head, tail := node, node;
        node.prev, node.next := null, null;
      }
      len := len + 1;
      nodes := [node] + nodes;
      NoDupConcat([node], before);
      forall i | 0 <= i < |nodes|
        ensures nodes[i].next == At(nodes, i + 1) && nodes[i].prev == At(nodes, i - 1)
      {
        if i > 0 {
          assert nodes[i] == before[i - 1];
          assert old(before[i - 1].next) == At(before, i) && old(before[i - 1].prev) == At(before, i - 2);
        }
      }
      return node;
    }

    /** Detaches the last node. */
    method RPop() returns (node: Node?)
      requires Valid()
      modifies this`head, this`tail, this`len, this`nodes, nodes
      ensures Valid() && (node == null <==> old(nodes) == [])
      ensures node == null ==> nodes == []
      ensures node != null ==> old(nodes) == nodes + [node] && node.next == null && node.prev == null
    {
      if len == 0 {
        return null;
      }
      ghost var before := nodes;
      node := tail;
      assert before[|before| - 1].prev == At(before, |before| - 2);
      len := len - 1;
      if len != 0 {
        tail := node.prev;
        tail.next := null;
      } else {
        tail, head := null, null;
      }
      node.next, node.prev := null, null;
      nodes := before[..|before| - 1];
      Relinked(|before| - 1);
    }

    /** Detaches the first node. */
    method LPop() returns (node: Node?)
      requires Valid()
      modifies this`head, this`tail, this`len, this`nodes, nodes
      ensures Valid() && (node == null <==> old(nodes) == [])
      ensures node == null ==> nodes == []
      ensures node != null ==> old(nodes) == [node] + nodes && node.next == null && node.prev == null
    {
      if len == 0 {
        return null;
      }
      ghost var before := nodes;
      node := head;
      assert before[0].next == At(before, 1);
      len := len - 1;
      if len != 0 {
        head := node.next;
        head.prev := null;
      } else {
        head, tail := null, null;
      }
      node.next, node.prev := null, null;
      nodes := before[1..];
      Relinked(0);
    }

    /** Takes a node out of the list, wherever it is, frees its value if there is a hook, and frees the node. */
    method Remove(node: Node, ghost k: nat)
      requires Valid() && k < |nodes| && nodes[k] == node
      modifies this`head, this`tail, this`len, this`nodes, this`freed, this`freedValues, nodes
      ensures Valid() && nodes == old(nodes)[..k] + old(nodes)[k + 1..] && node !in nodes
      ensures freed == old(freed) + [node]
      ensures freedValues == old(freedValues) + if hasFree then [old(node.val)] else []
    {
      ghost var before := nodes;
      assert before[k].next == At(before, k + 1) && before[k].prev == At(before, k - 1);
      if node.prev != null {
        node.prev.next := node.next;
      } else {
        head := node.next;
      }
      if node.next != null {
        node.next.prev := node.prev;
      } else {
        tail := node.prev;
      }
      if hasFree {
        freedValues := freedValues + [node.val];
      }
      freed := freed + [node];
      len := len - 1;
      nodes := before[..k] + before[k + 1..];
      Relinked(k);
    }

    /** A new iterator from one end, or nothing when there is no memory for it. */
    method NewIterator(direction: Direction, alloc: bool) returns (it: Iterator?)
      requires Valid()
      ensures it != null <==> alloc
      ensures it != null ==> fresh(it) && it.direction == direction && it.Passed(nodes, 0)
    {
      if !alloc {
        return null;
      }
      it := new Iterator(this, direction);
    }

    /** The chain after the neighbours of one node were made to point past it. */
    twostate lemma Relinked(k: nat)
      requires k < |old(nodes)| && old(Chain(nodes)) && nodes == old(nodes)[..k] + old(nodes)[k + 1..]
      requires var n := old(nodes)[k]; forall m <- old(nodes) :: m != n ==>
        m.next == if m == old(n.prev) then old(n.next) else old(m.next)
      requires var n := old(nodes)[k]; forall m <- old(nodes) :: m != n ==>
        m.prev == if m == old(n.next) then old(n.prev) else old(m.prev)
      ensures Chain(nodes)
    {
      var s := old(nodes);
      assert old(s[k].next) == At(s, k + 1) && old(s[k].prev) == At(s, k - 1);
      Without(s, k);
      forall i | 0 <= i < |nodes|
        ensures nodes[i].next == At(nodes, i + 1) && nodes[i].prev == At(nodes, i - 1)
      {
        var j := if i < k then i else i + 1;
        assert nodes[i] == s[j] && s[j] in s && s[j] != s[k];
        assert old(s[j].next) == At(s, j + 1) && old(s[j].prev) == At(s, j - 1);
      }
    }

    ghost predicate FirstMatch(val: Value, node: Node)
      reads this, nodes
    {
      exists k :: 0 <= k < |nodes| && nodes[k] == node && Matches(matcher, val, nodes[k].val)
                  && (forall i :: 0 <= i < k ==> !Matches(matcher, val, nodes[i].val))
    }

    /** The first node whose value matches, or nothing when none does.  The iterator is used without looking
        whether there was memory for it: if not, the code stops there, with no result. */
    method Find(val: Value, alloc: bool) returns (stopped: bool, node: Node?)
      requires Valid()
      ensures stopped <==> !alloc
      ensures stopped ==> node == null
      ensures !stopped && node == null ==> forall n <- nodes :: !Matches(matcher, val, n.val)
      ensures node != null ==> FirstMatch(val, node)
      ensures matcher.None? && !stopped && node == null ==> forall n <- nodes :: n.val != val
      ensures matcher.None? && node != null ==> node in nodes && node.val == val
      ensures matcher.Some? && !stopped && node == null ==> forall n <- nodes :: !matcher.value(val, n.val)
      ensures matcher.Some? && node != null ==> node in nodes && matcher.value(val, node.val)
    {
      hide Chain;
      var it := NewIterator(FromHead, alloc);
      stopped := it == null;
      if stopped {
        return true, null;
      }
      ghost var k := 0;
      node := it.Next(nodes, k);
      while node != null
        invariant k <= |nodes| && node == At(nodes, k) && it.direction == FromHead && fresh(it) && it.Passed(nodes, k + 1)
        invariant forall i :: 0 <= i < k ==> !Matches(matcher, val, nodes[i].val)
        decreases |nodes| - k
      {
        if (matcher.Some? && matcher.value(val, node.val)) || (matcher.None? && val == node.val) {
          return;
        }
        k := k + 1;
        node := it.Next(nodes, k);
      }
    }

    /** The node at an index, counted from the head, or from the tail if negative; nothing outside.  Inside, this
        needs an iterator, as finding does. */
    method AtIndex(index: int, alloc: bool) returns (stopped: bool, node: Node?)
      requires Valid()
      ensures stopped <==> !alloc && -|nodes| <= index < |nodes|
      ensures node == if stopped then null else if index >= 0 then At(nodes, index) else At(nodes, |nodes| + index)
    {
      hide Chain;
      var direction := FromHead;
      var i := index;
      if i < 0 {
        direction := FromTail;
        i := -i - 1;
      }
      stopped := false;
      if i < len {
        var it := NewIterator(direction, alloc);
        if it == null {
          return true, null;
        }
        ghost var k := 0;
        node := it.Next(nodes, k);
        ghost var start := i;
        while i != 0
          invariant 0 <= i && k == start - i && it.direction == direction && fresh(it)
          invariant it.Passed(nodes, k + 1) && node == Nth(nodes, direction, k)
          decreases i
        {
          k := k + 1;
          node := it.Next(nodes, k);
          i := i - 1;
        }
        return;
      }
      node := null;
    }

    /** All that an iterator returns, up to the first nothing. */
    method Iterate(direction: Direction) returns (visits: seq<Node>)
      requires Valid()
      ensures visits == if direction == FromHead then nodes else Backwards(nodes)
    {
      hide Chain, Backwards;
      var it := new Iterator(this, direction);
      var node := it.Next(nodes, 0);
      visits := [];
      while node != null
        invariant |visits| <= |nodes| && it.direction == direction && fresh(it)
        invariant node == Nth(nodes, direction, |visits|) && it.Passed(nodes, |visits| + 1)
        invariant forall i :: 0 <= i < |visits| ==> visits[i] == Nth(nodes, direction, i)
        decreases |nodes| - |visits|
      {
        visits := visits + [node];
        node := it.Next(nodes, |visits|);
      }
      AllVisited(visits, nodes, direction);
    }
  }

  lemma AllVisited(visits: seq<Node>, s: seq<Node>, direction: Direction)
    requires |visits| == |s| && forall i :: 0 <= i < |visits| ==> visits[i] == Nth(s, direction, i)
    ensures visits == if direction == FromHead then s else Backwards(s)
  {
  }
}

/** Circular doubly linked lists with the links inside the elements.  A list is a ring of links, one
    of which is its head; every operation is proved against the sequence of links on the ring. */
module RingList {
  import opened Wrappers

  class Link {
    var next: Link?
    var prev: Link?

    constructor ()
      ensures next == null && prev == null
    {
      next, prev := null, null;
    }
  }

  function After(i: nat, n: nat): nat {
    if i + 1 < n then i + 1 else 0
  }

  function Before(i: nat, n: nat): nat
    requires i < n
  {
    if i == 0 then n - 1 else i - 1
  }

  /** The links of `c`, all different, follow each other in a circle, forwards and backwards. */
  ghost predicate Ring(c: seq<Link>)
    reads c
  {
    && c != []
    && NoDup(c)
    && (forall i {:trigger c[i].next} :: 0 <= i < |c| ==> c[i].next == c[After(i, |c|)])
    && (forall i {:trigger c[i].prev} :: 0 <= i < |c| ==> c[i].prev == c[Before(i, |c|)])
  }

  /** `head` heads the list of the links `s`. */
  ghost predicate IsList(head: Link, s: seq<Link>)
    reads {head}, s
  {
    Ring([head] + s)
  }

  /** None of some links is among those that may change. */
  ghost predicate Untouched(c: seq<Link>, changing: set<Link>) {
    forall i :: 0 <= i < |c| ==> c[i] !in changing
  }

  /** A ring may be entered anywhere. */
  lemma RingTurns(a: seq<Link>, b: seq<Link>)
    requires Ring(a + b)
    ensures Ring(b + a)
  {
    var c, d, n := a + b, b + a, |a + b|;
    forall i, j | 0 <= i < j < n
      ensures d[i] != d[j]
    {
      var i', j' := if i < |b| then i + |a| else i - |b|, if j < |b| then j + |a| else j - |b|;
      assert d[i] == c[i'] && d[j] == c[j'];
    }
    forall i | 0 <= i < n
      ensures d[i].next == d[After(i, n)] && d[i].prev == d[Before(i, n)]
    {
      var i' := if i < |b| then i + |a| else i - |b|;
      assert d[i] == c[i'];
      assert c[i'].next == c[After(i', n)] && c[i'].prev == c[Before(i', n)];
    }
  }

  /** Where the links of the head lead. */
  lemma Ends(head: Link, s: seq<Link>)
    requires IsList(head, s)
    ensures head.next == (s + [head])[0] && head.prev == ([head] + s)[|s|]
  {
    var c := [head] + s;
    assert c[0].next == c[After(0, |c|)] && c[0].prev == c[|c| - 1];
  }

  lemma {:induction false} SameStart(head: Link, s: seq<Link>, s': seq<Link>, k: nat)
    requires IsList(head, s) && IsList(head, s') && k <= |s| && k <= |s'|
    ensures ([head] + s)[k] == ([head] + s')[k]
    ensures s[..k] == s'[..k]
  {
    var c, c' := [head] + s, [head] + s';
    if k > 0 {
      SameStart(head, s, s', k - 1);
      assert c[k - 1].next == c[k] && c'[k - 1].next == c'[k];
    }
  }

  /** The head and the links determine the list: there is only one sequence to read off. */
  lemma ListIsUnique(head: Link, s: seq<Link>, s': seq<Link>)
    requires IsList(head, s) && IsList(head, s')
    ensures s == s'
  {
    var c, c', k := [head] + s, [head] + s', if |s| < |s'| then |s| else |s'|;
    SameStart(head, s, s', k);
    assert c[k].next == c[After(k, |c|)] && c'[k].next == c'[After(k, |c'|)];
    assert c[0] == c'[0] && |s| == |s'|;
  }

  // ----- the internal operations, on rings

  /** Puts a link between the last and the first of a ring. */
  method AddBetween(n: Link, prev: Link, next: Link, ghost c: seq<Link>)
    requires Ring(c) && prev == c[|c| - 1] && next == c[0] && n !in c
    modifies n, prev`next, next`prev
    ensures Ring(c + [n])
  {
    next.prev := n;
    n.next := next;
    n.prev := prev;
    prev.next := n;
    forall i | 0 <= i <= |c|
      ensures (c + [n])[i].next == (c + [n])[After(i, |c| + 1)] && (c + [n])[i].prev == (c + [n])[Before(i, |c| + 1)]
    {
      if i < |c| {
        assert old(c[i].next) == c[After(i, |c|)] && old(c[i].prev) == c[Before(i, |c|)];
      }
    }
  }

  /** Makes the neighbours of the first link of a ring point to each other. */
  method Bypass(prev: Link, next: Link, ghost x: Link, ghost c: seq<Link>)
    requires Ring([x] + c) && prev == x.prev && next == x.next
    modifies prev`next, next`prev
    ensures c != [] ==> Ring(c) && x.next == old(x.next) && x.prev == old(x.prev)
    ensures c == [] ==> Ring([x])
  {
    ghost var d := [x] + c;
    assert d[0].next == d[After(0, |d|)] && d[0].prev == d[Before(0, |d|)];
    next.prev := prev;
    prev.next := next;
    forall i, j | 0 <= i < j < |c|
      ensures c[i] != c[j]
    {
      assert c[i] == d[i + 1] && c[j] == d[j + 1];
    }
    forall i | 0 <= i < |c|
      ensures c[i].next == c[After(i, |c|)] && c[i].prev == c[Before(i, |c|)]
    {
      assert c[i] == d[i + 1];
      assert old(d[i + 1].next) == d[After(i + 1, |d|)] && old(d[i + 1].prev) == d[Before(i + 1, |d|)];
    }
  }

  /** Puts all links of a list between the last and the first of a ring. */
  method SpliceBetween(list: Link, prev: Link, next: Link, ghost a: seq<Link>, ghost c: seq<Link>)
    requires IsList(list, a) && a != [] && Ring(c) && prev == c[|c| - 1] && next == c[0]
    requires list !in c && forall x <- a :: x !in c
    modifies prev`next, next`prev, a
    ensures Ring(c + a) && list.next == old(list.next) && list.prev == old(list.prev)
  {
    ghost var d, e := [list] + a, c + a;
    assert d[0].next == d[1] && d[0].prev == d[|d| - 1];
    var first, last := list.next, list.prev;
    first.prev := prev;
    prev.next := first;
    last.next := next;
    next.prev := last;
    forall i, j | 0 <= i < j < |e|
      ensures e[i] != e[j]
    {
      if i >= |c| {
        assert e[i] == d[i - |c| + 1] && e[j] == d[j - |c| + 1];
      } else if j >= |c| {
        assert e[j] in a && e[i] in c;
      }
    }
    forall i | 0 <= i < |e|
      ensures e[i].next == e[After(i, |e|)] && e[i].prev == e[Before(i, |e|)]
    {
      if i < |c| {
        assert e[i] in c && e[i] == c[i];
        assert old(c[i].next) == c[After(i, |c|)] && old(c[i].prev) == c[Before(i, |c|)];
      } else {
        assert e[i] in a && e[i] == d[i - |c| + 1];
        assert old(d[i - |c| + 1].next) == d[After(i - |c| + 1, |d|)] && old(d[i - |c| + 1].prev) == d[Before(i - |c| + 1, |d|)];
      }
    }
  }

  lemma PartsNoDup(list: Link, head: Link, a: seq<Link>, b: seq<Link>)
    requires NoDup([head] + (a + b)) && list !in a
    ensures NoDup([list] + a) && NoDup([head] + b)
  {
    var c, d, e := [head] + (a + b), [list] + a, [head] + b;
    forall i, j | 0 <= i < j < |d|
      ensures d[i] != d[j]
    {
      assert d[j] in a && d[j] == c[j] && (i > 0 ==> d[i] == c[i]);
    }
    forall i, j | 0 <= i < j < |e|
      ensures e[i] != e[j]
    {
      assert e[j] == c[j + |a|] && e[i] == c[if i == 0 then 0 else i + |a|];
    }
  }

  /** Closes the links up to `entry` into a ring of their own with `list`. */
  method CloseFront(list: Link, head: Link, entry: Link, ghost a: seq<Link>, ghost b: seq<Link>)
    requires IsList(head, a + b) && a != [] && entry == a[|a| - 1]
    requires list != head && list !in a + b
    modifies list, a
    ensures IsList(list, a)
  {
    ghost var c, d := [head] + (a + b), [list] + a;
    assert c[0].next == c[1] == a[0];
    PartsNoDup(list, head, a, b);
    list.next := head.next;
    list.next.prev := list;
    list.prev := entry;
    entry.next := list;
    forall i | 0 <= i < |d|
      ensures d[i].next == d[After(i, |d|)] && d[i].prev == d[Before(i, |d|)]
    {
      assert d[|a|] == entry && (i == |a| <==> d[i] == entry);
      if i > 0 {
        assert d[i] == c[i] && d[i] in a;
        assert old(c[i].next) == c[After(i, |c|)] && old(c[i].prev) == c[Before(i, |c|)];
      }
    }
  }

  /** Moves the links up to `entry` from the ring of `head` to the ring of `list`. */
  method CutAt(list: Link, head: Link, entry: Link, ghost a: seq<Link>, ghost b: seq<Link>)
    requires IsList(head, a + b) && a != [] && entry == a[|a| - 1]
    requires list != head && list !in a + b
    modifies list, head, a, b
    ensures IsList(list, a) && IsList(head, b)
  {
    ghost var c, e := [head] + (a + b), [head] + b;
    PartsNoDup(list, head, a, b);
    FrontApart(list, head, a, b);
    var newFirst := entry.next;
    assert c[|a|].next == c[After(|a|, |c|)] == e[After(0, |e|)];
    CloseFront(list, head, entry, a, b);
    head.next := newFirst;
    newFirst.prev := head;
    assert Untouched([list] + a, {head} + (set y | y in b));
    forall i | 0 <= i < |e|
      ensures e[i].next == e[After(i, |e|)] && e[i].prev == e[Before(i, |e|)]
    {
      ghost var j := if i == 0 then 0 else i + |a|;
      assert e[i] == c[j] && e[i] !in a && e[i] != list;
      assert e[i] == newFirst <==> i == After(0, |e|);
      assert i > 0 ==> e[i] != e[0] && c[After(j, |c|)] == e[After(i, |e|)];
      assert old(c[j].next) == c[After(j, |c|)] && old(c[j].prev) == c[Before(j, |c|)];
    }
  }

  lemma FrontApart(list: Link, head: Link, a: seq<Link>, b: seq<Link>)
    requires NoDup([head] + (a + b)) && list != head && list !in a + b
    ensures Untouched([head] + b, {list} + set y | y in a) && Untouched([list] + a, {head} + set y | y in b)
  {
    var c, d, e := [head] + (a + b), [list] + a, [head] + b;
    forall i, j | 0 <= i < |d| && 0 <= j < |e|
      ensures d[i] != e[j]
    {
      assert e[j] == c[if j == 0 then 0 else j + |a|] && (i > 0 ==> d[i] == c[i]);
      assert j > 0 ==> e[j] in a + b;
    }
    forall j | 0 <= j < |e|
      ensures e[j] !in {list} + set y | y in a
    {
      assert e[j] != d[0];
      assert forall i :: 0 <= i < |a| ==> a[i] == d[i + 1];
    }
    forall i | 0 <= i < |d|
      ensures d[i] !in {head} + set y | y in b
    {
      assert d[i] != e[0];
      assert forall j :: 0 <= j < |b| ==> b[j] == e[j + 1];
    }
  }

  // ----- the operations, on lists

  method Init(list: Link)
    modifies list
    ensures IsList(list, [])
  {
    list.next := list;
    list.prev := list;
  }

  method IsEmpty(head: Link, ghost s: seq<Link>) returns (r: bool)
    requires IsList(head, s)
    ensures r <==> s == []
  {
    r := head.next == head;
    assert ([head] + s)[0].next == ([head] + s)[After(0, 1 + |s|)];
  }

  method IsSingular(head: Link, ghost s: seq<Link>) returns (r: bool)
    requires IsList(head, s)
    ensures r <==> |s| == 1
  {
    var empty := IsEmpty(head, s);
    r := !empty && head.next == head.prev;
    ghost var c := [head] + s;
    assert c[0].next == c[After(0, |c|)] && c[0].prev == c[|c| - 1];
  }

  /** Adds a link right after the head. */
  method Add(n: Link, head: Link, ghost s: seq<Link>)
    requires IsList(head, s) && n != head && n !in s
    modifies n, head, s
    ensures IsList(head, [n] + s)
  {
    Ends(head, s);
    RingTurns([head], s);
    AddBetween(n, head, head.next, s + [head]);
    assert s + [head] + [n] == s + ([head] + [n]);
    RingTurns(s, [head] + [n]);
    assert [head] + [n] + s == [head] + ([n] + s);
  }

  /** Adds a link right before the head. */
  method AddTail(n: Link, head: Link, ghost s: seq<Link>)
    requires IsList(head, s) && n != head && n !in s
    modifies n, head, s
    ensures IsList(head, s + [n])
  {
    Ends(head, s);
    AddBetween(n, head.prev, head, [head] + s);
    assert [head] + s + [n] == [head] + (s + [n]);
  }

  /** A list, entered at one of its links. */
  lemma EnterAt(head: Link, a: seq<Link>, x: Link, b: seq<Link>)
    requires IsList(head, a + [x] + b)
    ensures Ring([x] + (b + ([head] + a))) && x != head && x !in a + b
  {
    assert [head] + (a + [x] + b) == ([head] + a) + ([x] + b);
    RingTurns([head] + a, [x] + b);
    var c := [x] + (b + ([head] + a));
    assert ([x] + b) + ([head] + a) == c;
    assert c[1..] == b + ([head] + a);
    forall y | y in c[1..]
      ensures y != x
    {
      var i :| 0 <= i < |c[1..]| && c[1..][i] == y;
      assert c[0] != c[i + 1];
    }
    assert head in c[1..] && forall y <- a + b :: y in c[1..];
  }

  /** A ring, read from its head again. */
  lemma EnterAtHead(head: Link, a: seq<Link>, b: seq<Link>)
    requires Ring(b + ([head] + a))
    ensures IsList(head, a + b)
  {
    RingTurns(b, [head] + a);
    assert [head] + a + b == [head] + (a + b);
  }

  /** Takes a link out of its list, leaving the link itself as it is. */
  method Unhook(x: Link, ghost head: Link, ghost a: seq<Link>, ghost b: seq<Link>)
    requires IsList(head, a + [x] + b)
    modifies {head} + (set y | y in a + b)
    ensures IsList(head, a + b) && x != head && x !in a + b
  {
    hide Ring, NoDup;
    EnterAt(head, a, x, b);
    Ends(x, b + ([head] + a));
    assert x.next in b + ([head] + a) && x.prev in b + ([head] + a);
    Bypass(x.prev, x.next, x, b + ([head] + a));
    EnterAtHead(head, a, b);
  }

  /** Takes a link out of its list and clears it. */
  method Delete(x: Link, ghost head: Link, ghost a: seq<Link>, ghost b: seq<Link>)
    requires IsList(head, a + [x] + b)
    modifies {head, x} + (set y | y in a + b)
    ensures IsList(head, a + b) && x.next == null && x.prev == null
  {
    Unhook(x, head, a, b);
    x.next := null;
    x.prev := null;
  }

  /** Takes a link out of its list and makes it an empty list. */
  method DeleteInit(x: Link, ghost head: Link, ghost a: seq<Link>, ghost b: seq<Link>)
    requires IsList(head, a + [x] + b)
    modifies {head, x} + (set y | y in a + b)
    ensures IsList(head, a + b) && IsList(x, [])
  {
    Unhook(x, head, a, b);
    Init(x);
  }

  /** Two lists share no link. */
  ghost predicate Apart(head: Link, s: seq<Link>, head': Link, s': seq<Link>) {
    head != head' && head !in s' && head' !in s && forall x <- s :: x !in s'
  }

  lemma ApartUntouched(from: Link, a: seq<Link>, x: Link, b: seq<Link>, head: Link, s: seq<Link>)
    requires Apart(from, a + [x] + b, head, s)
    ensures Untouched([head] + s, {from} + (set y | y in a + b))
  {
    forall i | 0 <= i < |[head] + s|
      ensures ([head] + s)[i] !in {from} + (set y | y in a + b)
    {
      var y := ([head] + s)[i];
      assert y in a + b ==> y in a + [x] + b;
    }
  }

  /** Moves a link from its list to the front of the list of `head`, which is another list or the same one;
      `s` is what that list holds without the link. */
  method Move(x: Link, head: Link, ghost from: Link, ghost a: seq<Link>, ghost b: seq<Link>, ghost s: seq<Link>)
    requires IsList(from, a + [x] + b)
    requires if from == head then s == a + b else IsList(head, s) && Apart(from, a + [x] + b, head, s)
    modifies {from, head, x} + (set y | y in a + b + s)
    ensures IsList(head, [x] + s) && (from != head ==> IsList(from, a + b))
  {
    if from != head {
      ApartUntouched(from, a, x, b, head, s);
    }
    Unhook(x, from, a, b);
    assert from != head ==> Untouched([from] + (a + b), {head, x} + (set y | y in s));
    Add(x, head, s);
  }

  /** Moves a link from its list to the end of the list of `head`, which is another list or the same one. */
  method MoveTail(x: Link, head: Link, ghost from: Link, ghost a: seq<Link>, ghost b: seq<Link>, ghost s: seq<Link>)
    requires IsList(from, a + [x] + b)
    requires if from == head then s == a + b else IsList(head, s) && Apart(from, a + [x] + b, head, s)
    modifies {from, head, x} + (set y | y in a + b + s)
    ensures IsList(head, s + [x]) && (from != head ==> IsList(from, a + b))
  {
    if from != head {
      ApartUntouched(from, a, x, b, head, s);
    }
    Unhook(x, from, a, b);
    assert from != head ==> Untouched([from] + (a + b), {head, x} + (set y | y in s));
    AddTail(x, head, s);
  }

  /** Rotates a list to the left; an empty list stays as it is. */
  method RotateLeft(head: Link, ghost s: seq<Link>)
    requires IsList(head, s)
    modifies {head} + (set y | y in s)
    ensures IsList(head, if s == [] then [] else s[1..] + [s[0]])
  {
    var empty := IsEmpty(head, s);
    if !empty {
      Ends(head, s);
      var first := head.next;
      assert s == [] + [first] + s[1..];
      MoveTail(first, head, head, [], s[1..], s[1..]);
    }
  }

  /** Puts a link in the place of another, which may be the head of its list. */
  method Replace(x: Link, n: Link, ghost c: seq<Link>)
    requires Ring([x] + c) && n != x && n !in c
    modifies {x, n} + (set y | y in c)
    ensures Ring([n] + c)
  {
    ghost var d, e := [x] + c, [n] + c;
    assert d[0].next == d[After(0, |d|)] && d[0].prev == d[Before(0, |d|)];
    n.next := x.next;
    n.next.prev := n;
    n.prev := x.prev;
    n.prev.next := n;
    forall i | 0 <= i < |e|
      ensures i > 0 ==> e[i] == d[i]
      ensures e[i].next == e[After(i, |e|)] && e[i].prev == e[Before(i, |e|)]
    {
      if i > 0 {
        assert e[i] == d[i];
        assert old(d[i].next) == d[After(i, |d|)] && old(d[i].prev) == d[Before(i, |d|)];
      }
    }
  }

  /** Where `entry` stands on a list: how many links come up to and including it. */
  ghost predicate Reaches(head: Link, s: seq<Link>, entry: Link, k: nat) {
    k <= |s| && entry == ([head] + s)[k]
  }

  lemma CutApart(list: Link, head: Link, a: seq<Link>, b: seq<Link>)
    requires NoDup([head] + (a + b)) && list != head && list !in a + b
    ensures Apart(list, a, head, b)
  {
    FrontApart(list, head, a, b);
    var d, e := [list] + a, [head] + b;
    assert forall i :: 0 <= i < |a| ==> a[i] == d[i + 1];
    assert forall j :: 0 <= j < |b| ==> b[j] == e[j + 1];
  }

  /** Cuts a list after `entry`: what comes up to it moves to `list`, the rest stays.
      An empty list is not cut, nor is a list of one link when `entry` is not on it. */
  method Cut(list: Link, head: Link, entry: Link, ghost s: seq<Link>, ghost k: nat)
    requires IsList(head, s) && list != head && list !in s
    requires s == [] || Reaches(head, s, entry, k) || (|s| == 1 && entry != head && entry !in s)
    modifies {list, head} + (set y | y in s)
    ensures s != [] && Reaches(head, s, entry, k) ==>
      IsList(list, s[..k]) && IsList(head, s[k..]) && Apart(list, s[..k], head, s[k..])
    ensures s == [] || (entry != head && entry !in s) ==>
      IsList(head, s) && list.next == old(list.next) && list.prev == old(list.prev)
  {
    var empty := IsEmpty(head, s);
    if empty {
      return;
    }
    var singular := IsSingular(head, s);
    Ends(head, s);
    if singular && head.next != entry && head != entry {
      return;
    }
    assert s == s[..k] + s[k..];
    CutApart(list, head, s[..k], s[k..]);
    if entry == head {
      NotOwnLink(head, s);
      Init(list);
    } else {
      CutAt(list, head, entry, s[..k], s[k..]);
    }
  }

  /** Joins the list of `list` to the front of the list of `head`; `list` itself is left as it is. */
  method Splice(list: Link, head: Link, ghost a: seq<Link>, ghost s: seq<Link>)
    requires IsList(list, a) && IsList(head, s) && Apart(list, a, head, s)
    modifies {head} + (set y | y in a + s)
    ensures IsList(head, a + s)
  {
    var empty := IsEmpty(list, a);
    if !empty {
      Ends(head, s);
      RingTurns([head], s);
      SpliceBetween(list, head, head.next, a, s + [head]);
      assert s + [head] + a == s + ([head] + a);
      RingTurns(s, [head] + a);
      assert [head] + a + s == [head] + (a + s);
    } else {
      assert a + s == s;
    }
  }

  /** Joins the list of `list` to the end of the list of `head`; `list` itself is left as it is. */
  method SpliceTail(list: Link, head: Link, ghost a: seq<Link>, ghost s: seq<Link>)
    requires IsList(list, a) && IsList(head, s) && Apart(list, a, head, s)
    modifies {head} + (set y | y in a + s)
    ensures IsList(head, s + a)
  {
    var empty := IsEmpty(list, a);
    if !empty {
      Ends(head, s);
      SpliceBetween(list, head.prev, head, a, [head] + s);
      assert [head] + s + a == [head] + (s + a);
    } else {
      assert s + a == s;
    }
  }

  /** Joins the list of `list` to the front of the list of `head`, and empties `list`. */
  method SpliceInit(list: Link, head: Link, ghost a: seq<Link>, ghost s: seq<Link>)
    requires IsList(list, a) && IsList(head, s) && Apart(list, a, head, s)
    modifies {list, head} + (set y | y in a + s)
    ensures IsList(head, a + s) && IsList(list, [])
  {
    var empty := IsEmpty(list, a);
    Splice(list, head, a, s);
    if !empty {
      assert Untouched([head] + (a + s), {list}) by { NotOwnLink(list, a); }
      Init(list);
    }
  }

  /** Joins the list of `list` to the end of the list of `head`, and empties `list`. */
  method SpliceTailInit(list: Link, head: Link, ghost a: seq<Link>, ghost s: seq<Link>)
    requires IsList(list, a) && IsList(head, s) && Apart(list, a, head, s)
    modifies {list, head} + (set y | y in a + s)
    ensures IsList(head, s + a) && IsList(list, [])
  {
    var empty := IsEmpty(list, a);
    SpliceTail(list, head, a, s);
    if !empty {
      assert Untouched([head] + (s + a), {list}) by { NotOwnLink(list, a); }
      Init(list);
    }
  }

  lemma NotOwnLink(head: Link, s: seq<Link>)
    requires NoDup([head] + s)
    ensures head !in s
  {
    assert ([head] + s)[0] == head && forall i :: 0 <= i < |s| ==> ([head] + s)[i + 1] == s[i];
  }

  /** Cutting a list and splicing the cut part back in front restores every link of the list, both ways. */
  method CutThenSplice(list: Link, head: Link, entry: Link, ghost s: seq<Link>, ghost k: nat)
    requires IsList(head, s) && list != head && list !in s && s != [] && Reaches(head, s, entry, k)
    modifies {list, head} + (set y | y in s)
    ensures IsList(head, s) && IsList(list, [])
    ensures forall x <- [head] + s :: x.next == old(x.next) && x.prev == old(x.prev)
  {
    Cut(list, head, entry, s, k);
    SpliceInit(list, head, s[..k], s[k..]);
    assert s[..k] + s[k..] == s;
    forall x | x in [head] + s
      ensures x.next == old(x.next) && x.prev == old(x.prev)
    {
      ghost var c := [head] + s;
      ghost var i :| 0 <= i < |c| && c[i] == x;
      assert c[i].next == c[After(i, |c|)] && c[i].prev == c[Before(i, |c|)];
      assert old(c[i].next) == c[After(i, |c|)] && old(c[i].prev) == c[Before(i, |c|)];
    }
  }
}

/** A hash table of reference-counted elements: an element belongs to its clients and, while it is hashed,
    to the table. */
module Hashtable {
  import opened Division
  import opened Wrappers

  type Key = nat

  /** Bitwise and. */
  function And(a: nat, b: nat): (r: nat)
    ensures r <= a && r <= b
    decreases a
  {
    if a == 0 || b == 0 then 0 else (if a % 2 == 1 && b % 2 == 1 then 1 else 0) + 2 * And(a / 2, b / 2)
  }

  /** With a table of a power of two slots, masking a hash is its remainder. */
  lemma {:induction false} MaskIsRemainder(hash: nat, size: nat)
    requires PowerOfTwo(size)
    ensures And(hash, size - 1) == hash % size
    decreases size
  {
    if size > 1 {
      var half := size / 2;
      MaskIsRemainder(hash / 2, half);
      MaskStep(hash, half);
    }
  }

  lemma MaskStep(hash: nat, half: nat)
    requires half > 0 && And(hash / 2, half - 1) == hash / 2 % half
    ensures And(hash, 2 * half - 1) == hash % (2 * half)
  {
    UnfoldAnd(hash, half);
    hide And;
    BitAndRest(hash, hash / 2, half, hash % 2);
  }

  lemma BitAndRest(hash: nat, h: nat, half: nat, bit: nat)
    requires half > 0 && bit < 2 && hash == 2 * h + bit
    ensures hash % (2 * half) == 2 * (h % half) + bit
  {
    var q, r := h / half, h % half;
    Doubled(h, half, q, r, bit);
    QuotientIsUnique(hash, 2 * half, q, 2 * r + bit);
  }

  lemma Doubled(h: nat, half: nat, q: nat, r: nat, bit: nat)
    requires h == half * q + r
    ensures 2 * h + bit == (2 * half) * q + (2 * r + bit)
  {
  }

  lemma UnfoldAnd(hash: nat, half: nat)
    requires half > 0
    ensures And(hash, 2 * half - 1) == hash % 2 + 2 * And(hash / 2, half - 1)
  {
    assert (2 * half - 1) % 2 == 1 && (2 * half - 1) / 2 == half - 1;
  }

  class Elm {
    /** What the element's own functions say about keys. */
    const hashfn: Key -> nat
    const equalfn: Key -> bool

    var hashed: bool
    var hash: nat
    var refcount: nat
    var freed: bool
    /** References held outside tables. */
    ghost var clients: nat

    ghost predicate Counted()
      reads this
    {
      refcount == clients + (if hashed then 1 else 0) && (freed <==> refcount == 0)
    }

    constructor (hashfn: Key -> nat, equalfn: Key -> bool)
      ensures Counted() && !hashed && clients == 1 && this.hashfn == hashfn && this.equalfn == equalfn
    {
      this.hashfn, this.equalfn, hashed, hash, refcount, freed, clients := hashfn, equalfn, false, 0, 1, false, 1;
    }

    /** A client takes one more reference to an element it can reach. */
    method Hold()
      requires Counted() && !freed
      modifies this`refcount, this`clients
      ensures Counted() && clients == old(clients) + 1
    {
      refcount := refcount + 1;
      clients := clients + 1;
    }

    /** A client gives a reference back; the last one frees the element, which is then not hashed. */
    method Put()
      requires Counted() && clients > 0
      modifies this`refcount, this`clients, this`freed
      ensures Counted() && clients == old(clients) - 1 && (freed ==> !hashed)
    {
      clients := clients - 1;
      Drop();
    }

    method Drop()
      requires refcount > 0 && !freed
      modifies this`refcount, this`freed
      ensures refcount == old(refcount) - 1 && (freed <==> refcount == 0)
    {
      refcount := refcount - 1;
      if refcount == 0 {
        freed := true;
      }
    }
  }

  /** The first element of a chain that matches a key. */
  ghost predicate FirstIn(c: seq<Elm>, key: Key, r: Elm) {
    exists k :: 0 <= k < |c| && c[k] == r && r.equalfn(key) && forall j :: 0 <= j < k ==> !c[j].equalfn(key)
  }

  ghost function Lengths(chains: seq<seq<Elm>>): nat {
    if chains == [] then 0 else |chains[0]| + Lengths(chains[1..])
  }

  lemma {:induction false} LengthsUpdate(chains: seq<seq<Elm>>, i: nat, c: seq<Elm>)
    requires i < |chains|
    ensures Lengths(chains[i := c]) == Lengths(chains) - |chains[i]| + |c|
  {
    if i == 0 {
      assert chains[0 := c][1..] == chains[1..];
    } else {
      LengthsUpdate(chains[1..], i - 1, c);
      assert chains[i := c][1..] == chains[1..][i - 1 := c];
    }
  }

  lemma {:induction false} LengthsAppend(chains: seq<seq<Elm>>, c: seq<Elm>)
    ensures Lengths(chains + [c]) == Lengths(chains) + |c|
  {
    if chains == [] {
      assert ([] + [c])[1..] == [];
    } else {
      LengthsAppend(chains[1..], c);
      assert (chains + [c])[1..] == chains[1..] + [c];
    }
  }

  class Table {
    const mask: nat
    const chains: array<seq<Elm>>
    const counts: array<nat>
    var count: nat
    /** The elements that are hashed here. */
    ghost var elms: set<Elm>

    function Slot(hash: nat): (i: nat)
      ensures i <= mask
    {
      And(hash, mask)
    }

    /** In a table of a power of two slots, a hash leads to the slot of its remainder. */
    lemma SlotIsRemainder(hash: nat)
      requires PowerOfTwo(mask + 1)
      ensures Slot(hash) == hash % (mask + 1)
    {
      MaskIsRemainder(hash, mask + 1);
    }

    /** One slot: its count is its length, and its elements are hashed, here, and to this slot. */
    ghost predicate SlotValid(i: nat)
      requires i < chains.Length && i < counts.Length
      reads this, chains, counts, elms
    {
      && counts[i] == |chains[i]|
      && NoDup(chains[i])
      && forall e <- chains[i] :: e in elms && Slot(e.hash) == i
    }

    /** One element: it is hashed, counted, and on the chain of its hash. */
    ghost predicate ElmValid(e: Elm)
      requires chains.Length == mask + 1
      reads this, chains, e
    {
      e.hashed && e.Counted() && e in chains[Slot(e.hash)]
    }

    /** Every element is on the chain of its hash, once, and every count is right. */
    ghost predicate Valid()
      reads this, chains, counts, elms
    {
      && chains.Length == mask + 1 && counts.Length == mask + 1
      && (forall i :: 0 <= i <= mask ==> SlotValid(i))
      && (forall e <- elms :: ElmValid(e))
      && count == Lengths(chains[..]) == |elms|
    }

    constructor (size: nat)
      requires size > 0
      ensures Valid() && elms == {} && mask == size - 1 && fresh(chains) && fresh(counts)
    {
      mask, count, elms := size - 1, 0, {};
      chains := new seq<Elm>[size](_ => []);
      counts := new nat[size](_ => 0);
      new;
      NoLengths(chains[..]);
    }

    /** A new table, or none when there is no memory for its slots. */
    static method Create(size: nat, alloc: bool) returns (t: Table?)
      requires size > 0
      ensures t != null <==> alloc
      ensures t != null ==> fresh(t) && t.Valid() && t.elms == {} && t.count == 0 && t.mask == size - 1
    {
      if !alloc {
        return null;
      }
      t := new Table(size);
    }

    /** Adds an element under a key; refuses one that is hashed already. */
    method Hash(he: Elm, key: Key) returns (ok: bool)
      requires Valid() && he.Counted() && !he.freed
      modifies this`count, this`elms, chains, counts, he`hash, he`hashed, he`refcount
      ensures Valid() && he.Counted() && he.clients == old(he.clients)
      ensures ok <==> !old(he.hashed)
      ensures elms == (if ok then old(elms) + {he} else old(elms)) && (ok ==> he.hashed && he.hash == he.hashfn(key))
      ensures ok ==> chains[Slot(he.hash)] == [he] + old(chains[..])[Slot(he.hash)] && OthersKept(Slot(he.hash))
    {
      if he.hashed {
        return false;
      }
      assert he !in elms;
      he.hash := he.hashfn(key);
      PushFront(he);
      return true;
    }

    /** The table after an element was put at the head of its chain. */
    twostate lemma Pushed(he: Elm)
      requires old(Valid()) && he !in old(elms) && he.hashed && he.Counted() && he.hash == old(he.hash)
      requires elms == old(elms) + {he} && count == old(count) + 1
      requires var slot := Slot(he.hash);
        && chains[..] == old(chains[..])[slot := [he] + old(chains[slot])]
        && counts[..] == old(counts[..])[slot := old(counts[slot]) + 1]
      requires forall e <- old(elms) :: unchanged(e)
      ensures Valid()
    {
      var slot := Slot(he.hash);
      assert forall i :: 0 <= i <= mask ==> chains[..][i] == chains[i] && counts[..][i] == counts[i];
      forall i | 0 <= i <= mask
        ensures SlotValid(i)
      {
        assert old(SlotValid(i));
        if i == slot {
          NoDupConcat([he], old(chains[i]));
        }
      }
      forall e <- elms
        ensures ElmValid(e)
      {
        assert e != he ==> old(ElmValid(e));
      }
      LengthsUpdate(old(chains[..]), slot, [he] + old(chains[slot]));
    }

    /** Puts an element that is not hashed at the head of its chain. */
    method PushFront(he: Elm)
      requires Valid() && he.Counted() && !he.freed && he !in elms && !he.hashed
      modifies this`count, this`elms, chains, counts, he`hashed, he`refcount
      ensures Valid() && he.Counted() && elms == old(elms) + {he}
      ensures chains[Slot(he.hash)] == [he] + old(chains[..])[Slot(he.hash)] && OthersKept(Slot(he.hash))
    {
      var slot := Slot(he.hash);
      counts[slot] := counts[slot] + 1;
      count := count + 1;
      chains[slot] := [he] + chains[slot];
      he.hashed := true;
      he.refcount := he.refcount + 1;
      elms := elms + {he};
      Pushed(he);
    }

    /** The other slots have the chains they had. */
    twostate predicate OthersKept(i: nat)
      reads this, chains
    {
      chains.Length == mask + 1 && forall j :: 0 <= j <= mask && j != i ==> chains[j] == old(chains[j])
    }

    /** Elements keep the references of their clients, and those no longer in the table lack its reference. */
    twostate predicate ClientsKept()
      reads *
    {
      forall e <- old(elms) :: e.clients == old(e.clients) && (e !in elms ==> !e.hashed && e.Counted())
    }

    /** Takes an element that is hashed here out again. */
    method Unhash(he: Elm)
      requires Valid() && he in elms
      modifies this`count, this`elms, chains, counts, he`hashed, he`refcount, he`freed
      ensures Valid() && he.Counted() && !he.hashed && elms == old(elms) - {he}
      ensures OthersKept(Slot(he.hash)) && OneLess(old(chains[..])[Slot(he.hash)], he, chains[Slot(he.hash)])
    {
      ghost var before := chains[..];
      var slot := Slot(he.hash);
      assert SlotValid(slot);
      WithoutFacts(chains[slot], he);
      WithoutIsOneLess(chains[slot], he);
      hide NoDup, Lengths, And;
      var rest := Without(chains[slot], he);
      chains[slot] := rest;
      he.hashed := false;
      counts[slot] := counts[slot] - 1;
      count := count - 1;
      elms := elms - {he};
      he.Drop();
      LengthsUpdate(before, slot, rest);
      assert chains[..] == before[slot := rest];
      forall i | 0 <= i <= mask
        ensures SlotValid(i)
      {
        assert old(SlotValid(i));
      }
      forall e <- elms
        ensures ElmValid(e)
      {
        assert old(ElmValid(e));
      }
    }

    /** The first element of a chain that matches a key. */
    method FindIn(i: nat, key: Key) returns (r: Elm?)
      requires Valid() && i <= mask
      ensures r == null <==> forall e <- chains[i] :: !e.equalfn(key)
      ensures r != null ==> r in chains[i] && FirstIn(chains[i], key, r)
    {
      r := null;
      for k := 0 to |chains[i]|
        invariant forall j :: 0 <= j < k ==> !chains[i][j].equalfn(key)
      {
        if chains[i][k].equalfn(key) {
          return chains[i][k];
        }
      }
    }

    /** A matching element that the hash of the key leads to. */
    ghost predicate Reachable(key: Key, hashfn: Key -> nat, e: Elm)
      reads this, e
    {
      e in elms && e.equalfn(key) && Slot(e.hash) == Slot(hashfn(key))
    }

    /** Finds an element by key and takes a reference to it: one that matches, in the slot of the key. */
    method Lookup(key: Key, hashfn: Key -> nat) returns (r: Elm?)
      requires Valid()
      modifies set e | e in elms && e.equalfn(key)
      ensures Valid() && elms == old(elms)
      ensures r == null <==> forall e <- elms :: !Reachable(key, hashfn, e)
      ensures r != null ==> Reachable(key, hashfn, r) && r.clients == old(r.clients) + 1
      ensures r != null ==> FirstIn(chains[Slot(hashfn(key))], key, r)
      ensures forall e <- elms :: e != r ==> unchanged(e)
    {
      var slot := Slot(hashfn(key));
      assert SlotValid(slot);
      r := FindIn(slot, key);
      if r != null {
        r.Hold();
        forall i | 0 <= i <= mask
          ensures SlotValid(i)
        {
          assert old(SlotValid(i));
        }
      }
    }

    /** A lookup succeeds exactly when a scan of the whole table would, if matching elements hash as the key. */
    lemma LookupIsScan(key: Key, hashfn: Key -> nat)
      requires Valid() && forall e <- elms :: e.equalfn(key) ==> e.hash == hashfn(key)
      ensures (exists e :: Reachable(key, hashfn, e)) <==> exists e <- elms :: e.equalfn(key)
    {
      if e :| e in elms && e.equalfn(key) {
        assert Reachable(key, hashfn, e);
      }
    }

    lemma SlotFacts(i: nat)
      requires Valid() && i <= mask
      ensures chains.Length == mask + 1 && NoDup(chains[i]) && forall e <- chains[i] :: e in elms && Slot(e.hash) == i
    {
      assert SlotValid(i);
    }

    /** Of the elements visited, exactly those that the action unhashes have left the table. */
    twostate predicate Thinned(visits: seq<Elm>, unhashes: set<Elm>)
      reads this
    {
      elms <= old(elms) && forall e <- old(elms) :: e !in elms <==> e in visits && e in unhashes
    }

    /** Applies an action to an element: whether it stays hashed is up to the action. */
    method Visit(he: Elm, unhash: bool)
      requires Valid() && he in elms
      modifies this`count, this`elms, chains, counts, he`hashed, he`refcount, he`freed
      ensures Valid() && Thinned([he], if unhash then {he} else {}) && OthersKept(Slot(he.hash))
      ensures unhash ==> !he.hashed && he.Counted()
      ensures !unhash ==> unchanged(he)
    {
      if unhash {
        Unhash(he);
      }
    }

    /** Applies an action to the elements of one slot, in order; the action unhashes some of those it is given. */
    method VisitSlot(i: nat, unhashes: set<Elm>) returns (visits: seq<Elm>)
      requires Valid() && i <= mask
      modifies this`count, this`elms, chains, counts, elms
      ensures Valid() && OthersKept(i) && ClientsKept()
      ensures visits == old(chains[i]) && Thinned(visits, unhashes)
    {
      hide And, Lengths, Table.Valid;
      SlotFacts(i);
      visits := chains[i];
      var k := 0;
      while k < |visits|
        invariant k <= |visits| && Valid() && OthersKept(i) && ClientsKept()
        invariant elms <= old(elms) && forall e <- old(elms) :: e !in elms ==> e in visits && e in unhashes
        invariant forall j :: 0 <= j < k ==> (visits[j] in unhashes ==> visits[j] !in elms)
        invariant forall j :: k <= j < |visits| ==> visits[j] in elms && Slot(visits[j].hash) == i
      {
        var he := visits[k];
        Visit(he, he in unhashes);
        k := k + 1;
      }
    }

    /** The chains together hold every element once. */
    lemma {:induction false} FlatIsElms(i: nat)
      requires Valid() && i <= mask + 1
      ensures NoDup(Flat(chains[..], i)) && |Flat(chains[..], i)| == Lengths(chains[..i])
      ensures forall e <- Flat(chains[..], i) :: e in elms && Slot(e.hash) < i
      ensures forall e <- elms :: Slot(e.hash) < i ==> e in Flat(chains[..], i)
      decreases i
    {
      if i > 0 {
        FlatIsElms(i - 1);
        assert SlotValid(i - 1);
        LengthsAppend(chains[..i - 1], chains[i - 1]);
        assert chains[..i] == chains[..i - 1] + [chains[i - 1]];
        NoDupConcat(Flat(chains[..], i - 1), chains[i - 1]);
      }
    }

    lemma AllFlat()
      requires Valid()
      ensures chains.Length == mask + 1
      ensures NoDup(Flat(chains[..], mask + 1)) && |Flat(chains[..], mask + 1)| == count
      ensures forall e <- Flat(chains[..], mask + 1) :: e in elms
      ensures forall e <- elms :: e in Flat(chains[..], mask + 1)
    {
      FlatIsElms(mask + 1);
      assert chains[..mask + 1] == chains[..];
    }

    /** Applies an action, if there is one, to every element once; the action unhashes some of those it is given. */
    method ForEach(hasAction: bool, unhashes: set<Elm>) returns (n: int, visits: seq<Elm>)
      requires Valid()
      modifies this`count, this`elms, chains, counts, elms
      ensures Valid() && (!hasAction ==> n == -1 && visits == [] && elms == old(elms))
      ensures hasAction ==>
        && n == old(count) && n == |visits| && NoDup(visits)
        && (forall e <- visits :: e in old(elms)) && (forall e <- old(elms) :: e in visits)
        && elms == old(elms) - unhashes
      ensures ClientsKept()
    {
      n, visits := 0, [];
      if !hasAction {
        return -1, [];
      }
      hide And, Lengths, NoDup, Flat, Table.Valid;
      ghost var before := chains[..];
      AllFlat();
      FlatMore(before, 0);
      for i := 0 to mask + 1
        invariant Valid() && n == |visits| && visits == Flat(before, i) && ClientsKept() && Thinned(visits, unhashes)
        invariant forall j :: i <= j <= mask ==> chains[j] == before[j]
      {
        FlatMore(before, i);
        SlotFacts(i);
        var more := VisitSlot(i, unhashes);
        visits := visits + more;
        n := n + |more|;
      }
      AllThinned(old(elms), elms, visits, unhashes);
    }

    /** Takes every element off one chain. */
    method EmptySlot(i: nat)
      requires Valid() && i <= mask
      modifies this`count, this`elms, chains, counts, elms
      ensures Valid() && elms <= old(elms) && chains[i] == []
      ensures OthersKept(i)
      ensures ClientsKept()
    {
      while chains[i] != []
        invariant Valid() && elms <= old(elms)
        invariant OthersKept(i)
        invariant ClientsKept()
        decreases |elms|
      {
        assert SlotValid(i);
        var he := chains[i][0];
        Unhash(he);
      }
    }

    /** Empties the table: every element loses the table's reference and keeps those of its clients. */
    method Fini()
      requires Valid()
      modifies this`count, this`elms, chains, counts, elms
      ensures Valid() && elms == {} && count == 0
      ensures forall e <- old(elms) :: !e.hashed && e.Counted() && e.clients == old(e.clients)
    {
      for i := 0 to mask + 1
        invariant Valid() && elms <= old(elms)
        invariant forall j :: 0 <= j < i ==> chains[j] == []
        invariant ClientsKept()
      {
        EmptySlot(i);
      }
      NoElements();
    }

    lemma NoElements()
      requires Valid() && forall i :: 0 <= i <= mask ==> chains[i] == []
      ensures elms == {} && count == 0
    {
      NoLengths(chains[..]);
    }
  }

  lemma AllThinned(before: set<Elm>, after: set<Elm>, visits: seq<Elm>, unhashes: set<Elm>)
    requires after <= before && forall e <- before :: e !in after <==> e in visits && e in unhashes
    requires forall e <- before :: e in visits
    ensures after == before - unhashes
  {
  }

  /** The elements of the first `i` chains, in order. */
  ghost function Flat(chains: seq<seq<Elm>>, i: nat): seq<Elm>
    requires i <= |chains|
  {
    if i == 0 then [] else Flat(chains, i - 1) + chains[i - 1]
  }

  lemma FlatMore(chains: seq<seq<Elm>>, i: nat)
    requires i < |chains|
    ensures Flat(chains, 0) == [] && Flat(chains, i + 1) == Flat(chains, i) + chains[i]
  {
  }

  /** A chain without its element at `i`, the others in their order. */
  ghost predicate LessAt(c: seq<Elm>, he: Elm, r: seq<Elm>, i: nat) {
    && i < |c| == |r| + 1 && c[i] == he
    && forall j :: 0 <= j < |r| ==> r[j] == if j < i then c[j] else c[j + 1]
  }

  ghost predicate OneLess(c: seq<Elm>, he: Elm, r: seq<Elm>) {
    exists i :: LessAt(c, he, r, i)
  }

  lemma {:induction false} WithoutIsOneLess(c: seq<Elm>, he: Elm)
    requires he in c
    ensures OneLess(c, he, Without(c, he))
  {
    var r := Without(c, he);
    if c[0] == he {
      assert LessAt(c, he, r, 0);
    } else {
      WithoutIsOneLess(c[1..], he);
      var i: nat :| LessAt(c[1..], he, Without(c[1..], he), i);
      assert LessAt(c, he, r, i + 1);
    }
  }

  function Without(c: seq<Elm>, he: Elm): seq<Elm> {
    if c == [] then [] else if c[0] == he then c[1..] else [c[0]] + Without(c[1..], he)
  }

  lemma {:induction false} WithoutFacts(c: seq<Elm>, he: Elm)
    requires NoDup(c) && he in c
    ensures |Without(c, he)| == |c| - 1 && NoDup(Without(c, he))
    ensures forall e :: e in Without(c, he) <==> e in c && e != he
  {
    assert c == [c[0]] + c[1..];
    NoDupTail(c[0], c[1..]);
    if c[0] != he {
      WithoutFacts(c[1..], he);
      NoDupConcat([c[0]], Without(c[1..], he));
    }
  }

  lemma {:induction false} NoLengths(chains: seq<seq<Elm>>)
    requires forall i :: 0 <= i < |chains| ==> chains[i] == []
    ensures Lengths(chains) == 0
  {
    if chains != [] {
      NoLengths(chains[1..]);
    }
  }
}

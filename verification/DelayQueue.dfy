/** The queue of packets that wait for a verdict, as the threads of the stack share it: the atomic steps of
    those threads, every run of such steps, and the code that takes them. */
module DelayQueue {
  import opened Wrappers

  type Packet = nat
  type Sock = nat

  datatype Entry = Entry(id: nat, skb: Packet, sk: Option<Sock>)

  const QUEUE_MAX := 1024
  const ID_MODULUS := 0x1_0000_0000
  const DELAY_RELEASE := 0
  const DELAY_DROP := 1
  const ENOMEM := 12
  const EBUSY := 16
  const ENOSPC := 28
  const EHOSTUNREACH := 113

  // ----- sequences

  ghost function Count<T(!new)>(s: seq<T>, f: T -> bool): nat {
    if s == [] then 0 else (if f(s[0]) then 1 else 0) + Count(s[1..], f)
  }

  lemma {:induction false} CountConcat<T(!new)>(a: seq<T>, b: seq<T>, f: T -> bool)
    ensures Count(a + b, f) == Count(a, f) + Count(b, f)
  {
    if a == [] {
      assert a + b == b;
    } else {
      assert (a + b)[1..] == a[1..] + b;
      CountConcat(a[1..], b, f);
    }
  }

  lemma CountMore<T(!new)>(s: seq<T>, x: T, f: T -> bool)
    ensures Count(s + [x], f) == Count(s, f) + if f(x) then 1 else 0
    ensures Count([x], f) == if f(x) then 1 else 0
  {
    CountConcat(s, [x], f);
  }

  /** A sequence without one of its elements. */
  function Cut<T>(s: seq<T>, i: nat): (r: seq<T>)
    requires i < |s|
    ensures |r| == |s| - 1 && forall j :: 0 <= j < |r| ==> r[j] == if j < i then s[j] else s[j + 1]
  {
    s[..i] + s[i + 1..]
  }

  lemma CutLast<T>(s: seq<T>, x: T)
    ensures Cut(s + [x], |s|) == s
  {
  }

  lemma {:induction false} CountCut<T(!new)>(s: seq<T>, i: nat, f: T -> bool)
    requires i < |s|
    ensures Count(s, f) == Count(Cut(s, i), f) + if f(s[i]) then 1 else 0
  {
    if i == 0 {
      assert Cut(s, 0) == s[1..];
    } else {
      CountCut(s[1..], i - 1, f);
      assert Cut(s, i)[1..] == Cut(s[1..], i - 1) && Cut(s, i)[0] == s[0];
    }
  }

  /** The place of the first entry with an id. */
  function FirstWithId(es: seq<Entry>, id: nat): (i: nat)
    ensures i <= |es| && (forall j :: 0 <= j < i ==> es[j].id != id) && (i < |es| ==> es[i].id == id)
  {
    if es == [] || es[0].id == id then 0 else 1 + FirstWithId(es[1..], id)
  }

  /** What a purge keeps and what it throws away; no socket stands for all. */
  ghost predicate Purges(sk: Option<Sock>, e: Entry) {
    sk.None? || e.sk == sk
  }

  ghost function Kept(es: seq<Entry>, sk: Option<Sock>): seq<Entry> {
    if es == [] then [] else (if Purges(sk, es[0]) then [] else [es[0]]) + Kept(es[1..], sk)
  }

  ghost function Thrown(es: seq<Entry>, sk: Option<Sock>): seq<Entry> {
    if es == [] then [] else (if Purges(sk, es[0]) then [es[0]] else []) + Thrown(es[1..], sk)
  }

  lemma {:induction false} PurgeSplits(es: seq<Entry>, sk: Option<Sock>, f: Entry -> bool)
    ensures Count(es, f) == Count(Kept(es, sk), f) + Count(Thrown(es, sk), f)
    ensures |es| == |Kept(es, sk)| + |Thrown(es, sk)|
  {
    if es != [] {
      PurgeSplits(es[1..], sk, f);
      CountConcat(if Purges(sk, es[0]) then [] else [es[0]], Kept(es[1..], sk), f);
      CountConcat(if Purges(sk, es[0]) then [es[0]] else [], Thrown(es[1..], sk), f);
      CountMore([], es[0], f);
    }
  }

  /** Some elements of a sequence, in their order. */
  ghost predicate IsSubsequence<T(!new)>(r: seq<T>, s: seq<T>)
    decreases s
  {
    r == [] || (s != [] && ((r[0] == s[0] && IsSubsequence(r[1..], s[1..])) || IsSubsequence(r, s[1..])))
  }

  ghost function Same(e: Entry): Entry -> bool {
    (x: Entry) => x == e
  }

  /** Entries of a socket whose packets are of a kind. */
  ghost function HasBoth(x: Sock, f: Packet -> bool): Entry -> bool {
    (e: Entry) => e.sk == Some(x) && f(e.skb)
  }

  /** A purge of a socket leaves the entries of other sockets, and those of none, all of them and in their order, and
      throws away those of the socket and no others. */
  lemma {:induction false} PurgeTakesSocket(es: seq<Entry>, x: Sock)
    ensures (forall e <- Kept(es, Some(x)) :: e.sk != Some(x)) && (forall e <- Thrown(es, Some(x)) :: e.sk == Some(x))
    ensures IsSubsequence(Kept(es, Some(x)), es) && IsSubsequence(Thrown(es, Some(x)), es)
    ensures forall e: Entry :: e.sk != Some(x) ==> Count(Kept(es, Some(x)), Same(e)) == Count(es, Same(e))
    ensures forall f: Packet -> bool :: Count(Thrown(es, Some(x)), HasPacket(f)) == Count(es, HasBoth(x, f))
  {
    if es != [] {
      var rest := es[1..];
      PurgeTakesSocket(rest, x);
      if es[0].sk == Some(x) {
        assert Kept(es, Some(x)) == Kept(rest, Some(x)) && Thrown(es, Some(x)) == [es[0]] + Thrown(rest, Some(x));
        assert Thrown(es, Some(x))[1..] == Thrown(rest, Some(x));
      } else {
        assert Kept(es, Some(x)) == [es[0]] + Kept(rest, Some(x)) && Thrown(es, Some(x)) == Thrown(rest, Some(x));
        assert Kept(es, Some(x))[1..] == Kept(rest, Some(x));
      }
    }
  }

  // ----- the steps

  /** What happens to a packet or a socket reference: a packet gets an entry or, for want of memory, none; it is
      freed, sent on its way, or left where nothing refers to it. */
  datatype Effect =
    | Taken(skb: Packet)
    | Rejected(skb: Packet)
    | Freed(skb: Packet)
    | Released(skb: Packet)
    | Lost(skb: Packet)
    | Held(sk: Sock)
    | Put(sk: Sock)

  /** The queue, the counters and the bound peer, and the entries in the hands of threads: made but not yet
      admitted, refused but not yet dropped, and judged but not yet freed. */
  datatype State = State(queue: seq<Entry>, dropped: nat, nextId: nat, peerPid: int,
                         incoming: seq<Entry>, refused: seq<Entry>, finished: seq<Entry>)

  const INITIAL := State([], 0, 0, 0, [], [], [])

  /** One atomic step of some thread: a locked section, or what a thread does to its own entry outside of one.
      An index says which of the entries in the hands of threads the step is about. */
  datatype Step =
    | Make(skb: Packet, sk: Option<Sock>)
    | Reject(skb: Packet)
    | Admit(i: nat, sent: bool)
    | DropRefused(i: nat)
    | Verdict(pktId: nat, verdict: int, pid: int, dead: Sock -> bool)
    | FreeFinished(i: nat)
    | Purge(sk: Option<Sock>)
    | Reset
    | SocketClosed(pid: int)

  predicate Enabled(s: State, step: Step) {
    && (step.Admit? ==> step.i < |s.incoming|)
    && (step.DropRefused? ==> step.i < |s.refused|)
    && (step.FreeFinished? ==> step.i < |s.finished|)
  }

  /** Another peer than the one that gives this verdict is bound. */
  predicate Busy(s: State, pid: int) {
    s.peerPid != 0 && s.peerPid != pid
  }

  /** What becomes of a packet by its verdict. */
  function Fate(e: Entry, verdict: int, dead: Sock -> bool): Effect {
    if verdict == DELAY_DROP then Freed(e.skb)
    else if verdict != DELAY_RELEASE then Lost(e.skb)
    else if e.sk.Some? && dead(e.sk.value) then Freed(e.skb)
    else Released(e.skb)
  }

  /** The value that a step gives its caller. */
  function Ret(s: State, step: Step): int
    requires Enabled(s, step)
  {
    match step
    case Reject(_) => -ENOMEM
    case Admit(_, sent) => if |s.queue| >= QUEUE_MAX then -ENOSPC else if !sent then -EHOSTUNREACH else 0
    case Verdict(pktId, verdict, pid, dead) =>
      if Busy(s, pid) then -EBUSY else
        var i := FirstWithId(s.queue, pktId);
        if i < |s.queue| && Fate(s.queue[i], verdict, dead).Released? then 1 else 0
    case _ => 0
  }

  ghost function Purged(s: State, sk: Option<Sock>): State {
    s.(queue := Kept(s.queue, sk), dropped := s.dropped + |Thrown(s.queue, sk)|)
  }

  ghost function Next(s: State, step: Step): State
    requires Enabled(s, step)
  {
    match step
    case Make(skb, sk) =>
      s.(incoming := s.incoming + [Entry(s.nextId, skb, sk)], nextId := (s.nextId + 1) % ID_MODULUS)
    case Reject(_) => s
    case Admit(i, _) =>
      if Ret(s, step) == 0 then s.(incoming := Cut(s.incoming, i), queue := s.queue + [s.incoming[i]])
      else s.(incoming := Cut(s.incoming, i), refused := s.refused + [s.incoming[i]])
    case DropRefused(i) => s.(refused := Cut(s.refused, i), dropped := s.dropped + 1)
    case Verdict(pktId, verdict, pid, dead) =>
      var i := FirstWithId(s.queue, pktId);
      if Busy(s, pid) then s
      else if i == |s.queue| then s.(peerPid := pid)
      else s.(peerPid := pid, queue := Cut(s.queue, i), finished := s.finished + [s.queue[i]],
              dropped := s.dropped + if Fate(s.queue[i], verdict, dead).Freed? then 1 else 0)
    case FreeFinished(i) => s.(finished := Cut(s.finished, i))
    case Purge(sk) => Purged(s, sk)
    case Reset => Purged(s, None).(peerPid := 0)
    case SocketClosed(pid) => if pid == s.peerPid then Purged(s, None).(peerPid := 0) else s
  }

  /** The reference that a new entry takes to its packet's socket. */
  ghost function HeldOf(sk: Option<Sock>): seq<Effect> {
    if sk.Some? then [Held(sk.value)] else []
  }

  /** That reference, given back. */
  ghost function PutOf(e: Entry): seq<Effect> {
    if e.sk.Some? then [Put(e.sk.value)] else []
  }

  ghost function ThrowAway(es: seq<Entry>): seq<Effect> {
    if es == [] then [] else [Freed(es[0].skb)] + PutOf(es[0]) + ThrowAway(es[1..])
  }

  ghost function Effects(s: State, step: Step): seq<Effect>
    requires Enabled(s, step)
  {
    match step
    case Make(skb, sk) => [Taken(skb)] + HeldOf(sk)
    case Reject(skb) => [Rejected(skb)]
    case Admit(_, _) => []
    case DropRefused(i) => [Freed(s.refused[i].skb)] + PutOf(s.refused[i])
    case Verdict(pktId, verdict, pid, dead) =>
      var i := FirstWithId(s.queue, pktId);
      if Busy(s, pid) || i == |s.queue| then [] else [Fate(s.queue[i], verdict, dead)]
    case FreeFinished(i) => PutOf(s.finished[i])
    case Purge(sk) => ThrowAway(Thrown(s.queue, sk))
    case Reset => ThrowAway(Thrown(s.queue, None))
    case SocketClosed(pid) => if pid == s.peerPid then ThrowAway(Thrown(s.queue, None)) else []
  }

  // ----- what each step conserves

  /** Packets are counted by kind: any property of packets is one, such as being a certain packet. */
  ghost function HasPacket(f: Packet -> bool): Entry -> bool {
    (e: Entry) => f(e.skb)
  }

  ghost function Any(): Packet -> bool {
    (p: Packet) => true
  }

  ghost function HasSock(sk: Sock): Entry -> bool {
    (e: Entry) => e.sk == Some(sk)
  }

  ghost function Is(effect: Effect): Effect -> bool {
    e => e == effect
  }

  ghost function Takes(f: Packet -> bool): Effect -> bool {
    (e: Effect) => e.Taken? && f(e.skb)
  }

  ghost function Frees(f: Packet -> bool): Effect -> bool {
    (e: Effect) => e.Freed? && f(e.skb)
  }

  ghost function Releases(f: Packet -> bool): Effect -> bool {
    (e: Effect) => e.Released? && f(e.skb)
  }

  ghost function LosesOne(f: Packet -> bool): Effect -> bool {
    (e: Effect) => e.Lost? && f(e.skb)
  }

  /** A packet has been freed, released or lost. */
  ghost function Disposes(f: Packet -> bool): Effect -> bool {
    (e: Effect) => (e.Freed? || e.Released? || e.Lost?) && f(e.skb)
  }

  /** How many entries hold a packet that is not yet disposed of. */
  ghost function Waiting(s: State, f: Packet -> bool): nat {
    Count(s.queue, HasPacket(f)) + Count(s.incoming, HasPacket(f)) + Count(s.refused, HasPacket(f))
  }

  /** How many entries hold a reference to a socket. */
  ghost function References(s: State, sk: Sock): nat {
    Count(s.queue, HasSock(sk)) + Count(s.incoming, HasSock(sk)) + Count(s.refused, HasSock(sk))
    + Count(s.finished, HasSock(sk))
  }

  lemma CountPut(e: Entry, sk: Sock, f: Packet -> bool)
    ensures Count(PutOf(e), Is(Put(sk))) == (if HasSock(sk)(e) then 1 else 0) && Count(PutOf(e), Is(Held(sk))) == 0
    ensures Count(PutOf(e), Disposes(f)) == 0 && Count(PutOf(e), Takes(f)) == 0 && Count(PutOf(e), Frees(Any())) == 0
  {
    if e.sk.Some? {
      assert PutOf(e)[1..] == [];
    }
  }

  lemma CountDrop(e: Entry, sk: Sock, f: Packet -> bool)
    ensures var drop := [Freed(e.skb)] + PutOf(e);
      && Count(drop, Is(Put(sk))) == (if HasSock(sk)(e) then 1 else 0) && Count(drop, Is(Held(sk))) == 0
      && Count(drop, Disposes(f)) == (if HasPacket(f)(e) then 1 else 0) && Count(drop, Takes(f)) == 0
      && Count(drop, Frees(Any())) == 1
  {
    CountPut(e, sk, f);
    var drop := [Freed(e.skb)] + PutOf(e);
    assert drop[0] == Freed(e.skb) && drop[1..] == PutOf(e);
  }

  lemma {:induction false} CountThrown(es: seq<Entry>, sk: Sock, f: Packet -> bool)
    ensures Count(ThrowAway(es), Is(Put(sk))) == Count(es, HasSock(sk)) && Count(ThrowAway(es), Is(Held(sk))) == 0
    ensures Count(ThrowAway(es), Disposes(f)) == Count(es, HasPacket(f)) && Count(ThrowAway(es), Takes(f)) == 0
    ensures Count(ThrowAway(es), Frees(Any())) == |es|
  {
    if es != [] {
      var drop, rest := [Freed(es[0].skb)] + PutOf(es[0]), ThrowAway(es[1..]);
      CountDrop(es[0], sk, f);
      CountThrown(es[1..], sk, f);
      CountConcat(drop, rest, Is(Put(sk)));
      CountConcat(drop, rest, Is(Held(sk)));
      CountConcat(drop, rest, Disposes(f));
      CountConcat(drop, rest, Takes(f));
      CountConcat(drop, rest, Frees(Any()));
    }
  }

  lemma CountHeld(sk': Option<Sock>, sk: Sock, f: Packet -> bool)
    ensures Count(HeldOf(sk'), Is(Held(sk))) == (if sk' == Some(sk) then 1 else 0)
    ensures Count(HeldOf(sk'), Is(Put(sk))) == 0 && Count(HeldOf(sk'), Takes(f)) == 0
    ensures Count(HeldOf(sk'), Disposes(f)) == 0 && Count(HeldOf(sk'), Frees(Any())) == 0
  {
    if sk'.Some? {
      assert HeldOf(sk')[1..] == [];
    }
  }

  lemma CountMake(skb: Packet, sk': Option<Sock>, sk: Sock, f: Packet -> bool)
    ensures var effects := [Taken(skb)] + HeldOf(sk');
      && Count(effects, Is(Held(sk))) == (if sk' == Some(sk) then 1 else 0) && Count(effects, Is(Put(sk))) == 0
      && Count(effects, Takes(f)) == (if f(skb) then 1 else 0) && Count(effects, Disposes(f)) == 0
      && Count(effects, Frees(Any())) == 0
  {
    CountHeld(sk', sk, f);
    var effects := [Taken(skb)] + HeldOf(sk');
    assert effects[0] == Taken(skb) && effects[1..] == HeldOf(sk');
  }

  lemma CountPurge(s: State, sk': Option<Sock>, sk: Sock, f: Packet -> bool)
    ensures var t, effects := Purged(s, sk'), ThrowAway(Thrown(s.queue, sk'));
      && Waiting(t, f) + Count(effects, Disposes(f)) == Waiting(s, f) && Count(effects, Takes(f)) == 0
      && References(t, sk) + Count(effects, Is(Put(sk))) == References(s, sk) && Count(effects, Is(Held(sk))) == 0
      && t.dropped == s.dropped + Count(effects, Frees(Any())) && |t.queue| <= |s.queue|
  {
    hide Count, Kept, Thrown, ThrowAway;
    CountThrown(Thrown(s.queue, sk'), sk, f);
    PurgeSplits(s.queue, sk', HasSock(sk));
    PurgeSplits(s.queue, sk', HasPacket(f));
  }

  /** An entry moves from one place to another. */
  lemma CountMove(from: seq<Entry>, i: nat, to: seq<Entry>, f: Entry -> bool)
    requires i < |from|
    ensures Count(Cut(from, i), f) + Count(to + [from[i]], f) == Count(from, f) + Count(to, f)
  {
    CountCut(from, i, f);
    CountMore(to, from[i], f);
  }

  /** A step conserves packets and socket references, and counts what it frees. */
  ghost predicate Conserves(s: State, t: State, effects: seq<Effect>, sk: Sock, f: Packet -> bool) {
    && Waiting(t, f) + Count(effects, Disposes(f)) == Waiting(s, f) + Count(effects, Takes(f))
    && References(t, sk) + Count(effects, Is(Put(sk))) == References(s, sk) + Count(effects, Is(Held(sk)))
    && t.dropped == s.dropped + Count(effects, Frees(Any()))
  }

  lemma ThreadStepConserves(s: State, step: Step, sk: Sock, f: Packet -> bool)
    requires Enabled(s, step) && (step.Make? || step.Reject? || step.Admit? || step.DropRefused? || step.FreeFinished?)
    ensures Conserves(s, Next(s, step), Effects(s, step), sk, f)
  {
    hide Count, Cut;
    match step
    case Make(skb, sk') =>
      CountMake(skb, sk', sk, f);
      CountMore(s.incoming, Entry(s.nextId, skb, sk'), HasPacket(f));
      CountMore(s.incoming, Entry(s.nextId, skb, sk'), HasSock(sk));
    case Reject(skb) =>
      CountEffect(Rejected(skb), sk, f);
    case Admit(i, _) =>
      CountNothing(sk, f);
      CountMove(s.incoming, i, s.queue, HasPacket(f));
      CountMove(s.incoming, i, s.queue, HasSock(sk));
      CountMove(s.incoming, i, s.refused, HasPacket(f));
      CountMove(s.incoming, i, s.refused, HasSock(sk));
    case DropRefused(i) =>
      CountDrop(s.refused[i], sk, f);
      CountCut(s.refused, i, HasPacket(f));
      CountCut(s.refused, i, HasSock(sk));
    case FreeFinished(i) =>
      CountPut(s.finished[i], sk, f);
      CountCut(s.finished, i, HasSock(sk));
  }

  lemma CountNothing(sk: Sock, f: Packet -> bool)
    ensures Count([], Is(Put(sk))) == Count([], Is(Held(sk))) == 0
    ensures Count([], Disposes(f)) == Count([], Takes(f)) == Count([], Frees(Any())) == 0
  {
  }

  lemma CountEffect(e: Effect, sk: Sock, f: Packet -> bool)
    requires e.Rejected? || e.Freed? || e.Released? || e.Lost?
    ensures Count([e], Is(Put(sk))) == 0 && Count([e], Is(Held(sk))) == 0 && Count([e], Takes(f)) == 0
    ensures Count([e], Disposes(f)) == if !e.Rejected? && f(e.skb) then 1 else 0
    ensures Count([e], Frees(Any())) == if e.Freed? then 1 else 0
  {
    assert [e][1..] == [];
  }

  lemma VerdictConserves(s: State, step: Step, sk: Sock, f: Packet -> bool)
    requires step.Verdict?
    ensures Conserves(s, Next(s, step), Effects(s, step), sk, f)
  {
    hide Count, Cut, FirstWithId;
    var i := FirstWithId(s.queue, step.pktId);
    CountNothing(sk, f);
    if !Busy(s, step.pid) && i < |s.queue| {
      CountEffect(Fate(s.queue[i], step.verdict, step.dead), sk, f);
      CountCut(s.queue, i, HasPacket(f));
      CountMove(s.queue, i, s.finished, HasSock(sk));
    }
  }

  lemma StepConserves(s: State, step: Step, sk: Sock, f: Packet -> bool)
    requires Enabled(s, step)
    ensures Conserves(s, Next(s, step), Effects(s, step), sk, f)
  {
    hide Count, Thrown, Kept, ThrowAway;
    if step.Verdict? {
      VerdictConserves(s, step, sk, f);
    } else if step.Purge? || step.Reset? || step.SocketClosed? {
      CountNothing(sk, f);
      CountPurge(s, if step.Purge? then step.sk else None, sk, f);
    } else {
      ThreadStepConserves(s, step, sk, f);
    }
  }

  // ----- runs

  /** Each step of a run is possible where it is taken. */
  ghost predicate Possible(s: State, steps: seq<Step>)
    decreases steps
  {
    steps != [] ==> Enabled(s, steps[0]) && Possible(Next(s, steps[0]), steps[1..])
  }

  ghost function Run(s: State, steps: seq<Step>): State
    requires Possible(s, steps)
    decreases steps
  {
    if steps == [] then s else Run(Next(s, steps[0]), steps[1..])
  }

  /** All that happens in a run, in order. */
  ghost function Log(s: State, steps: seq<Step>): seq<Effect>
    requires Possible(s, steps)
    decreases steps
  {
    if steps == [] then [] else Effects(s, steps[0]) + Log(Next(s, steps[0]), steps[1..])
  }

  /** Over every run, in whatever order threads take their steps, packets and socket references are conserved,
      the counter counts the packets freed, and the queue keeps its bound. */
  lemma {:induction false} RunConserves(s: State, steps: seq<Step>, sk: Sock, f: Packet -> bool)
    requires Possible(s, steps)
    ensures Conserves(s, Run(s, steps), Log(s, steps), sk, f)
    ensures |s.queue| <= QUEUE_MAX ==> |Run(s, steps).queue| <= QUEUE_MAX
    decreases steps
  {
    hide Count, Effects, Next, Waiting, References;
    if steps == [] {
      CountNothing(sk, f);
    } else {
      var t, effects := Next(s, steps[0]), Effects(s, steps[0]);
      var rest := Log(t, steps[1..]);
      StepConserves(s, steps[0], sk, f);
      StepKeepsBound(s, steps[0]);
      RunConserves(t, steps[1..], sk, f);
      CountConcat(effects, rest, Is(Put(sk)));
      CountConcat(effects, rest, Is(Held(sk)));
      CountConcat(effects, rest, Disposes(f));
      CountConcat(effects, rest, Takes(f));
      CountConcat(effects, rest, Frees(Any()));
    }
  }

  lemma StepKeepsBound(s: State, step: Step)
    requires Enabled(s, step)
    ensures |s.queue| <= QUEUE_MAX ==> |Next(s, step).queue| <= QUEUE_MAX
  {
    if step.Purge? || step.Reset? || step.SocketClosed? {
      PurgeSplits(s.queue, if step.Purge? then step.sk else None, HasSock(0));
    }
  }

  lemma {:induction false} FatesAddUp(log: seq<Effect>, f: Packet -> bool)
    ensures Count(log, Disposes(f)) == Count(log, Frees(f)) + Count(log, Releases(f)) + Count(log, LosesOne(f))
  {
    if log != [] {
      FatesAddUp(log[1..], f);
    }
  }

  // ----- losses

  /** A step that loses a packet: a verdict that is heard, is neither of the two known ones, and finds an entry. */
  predicate Loses(s: State, step: Step, f: Packet -> bool) {
    && step.Verdict? && !Busy(s, step.pid) && step.verdict != DELAY_RELEASE && step.verdict != DELAY_DROP
    && var i := FirstWithId(s.queue, step.pktId);
       i < |s.queue| && f(s.queue[i].skb)
  }

  /** How many steps of a run lose a packet where they are taken. */
  ghost function Losses(s: State, steps: seq<Step>, f: Packet -> bool): nat
    requires Possible(s, steps)
    decreases steps
  {
    if steps == [] then 0
    else (if Loses(s, steps[0], f) then 1 else 0) + Losses(Next(s, steps[0]), steps[1..], f)
  }

  lemma {:induction false} NoneLost(effects: seq<Effect>, f: Packet -> bool)
    requires forall e <- effects :: !e.Lost?
    ensures Count(effects, LosesOne(f)) == 0
  {
    if effects != [] {
      NoneLost(effects[1..], f);
    }
  }

  lemma {:induction false} ThrownNotLost(es: seq<Entry>)
    ensures forall e <- ThrowAway(es) :: !e.Lost?
  {
    if es != [] {
      ThrownNotLost(es[1..]);
    }
  }

  lemma StepLoses(s: State, step: Step, f: Packet -> bool)
    requires Enabled(s, step)
    ensures Count(Effects(s, step), LosesOne(f)) == if Loses(s, step, f) then 1 else 0
  {
    hide FirstWithId, Thrown;
    if step.Verdict? {
      var i := FirstWithId(s.queue, step.pktId);
      if !Busy(s, step.pid) && i < |s.queue| {
        CountMore([], Fate(s.queue[i], step.verdict, step.dead), LosesOne(f));
      }
    } else {
      if step.Purge? || step.Reset? || step.SocketClosed? {
        ThrownNotLost(Thrown(s.queue, if step.Purge? then step.sk else None));
      }
      NoneLost(Effects(s, step), f);
    }
  }

  /** Over every run, packets are lost exactly where a step loses one. */
  lemma {:induction false} LossesAreCounted(s: State, steps: seq<Step>, f: Packet -> bool)
    requires Possible(s, steps)
    ensures Count(Log(s, steps), LosesOne(f)) == Losses(s, steps, f)
    decreases steps
  {
    hide Next, Count, Effects, Loses;
    if steps == [] {
      NoneLost([], f);
    } else {
      StepLoses(s, steps[0], f);
      LossesAreCounted(Next(s, steps[0]), steps[1..], f);
      CountConcat(Effects(s, steps[0]), Log(Next(s, steps[0]), steps[1..]), LosesOne(f));
    }
  }

  /** In particular, where every verdict is a known one, no packet is lost. */
  lemma {:induction false} LostByUnknownVerdicts(s: State, steps: seq<Step>, f: Packet -> bool)
    requires Possible(s, steps)
    requires forall step <- steps :: step.Verdict? ==> step.verdict == DELAY_RELEASE || step.verdict == DELAY_DROP
    ensures Losses(s, steps, f) == 0
    decreases steps
  {
    hide Next;
    if steps != [] {
      assert steps[0] in steps && forall step <- steps[1..] :: step in steps;
      LostByUnknownVerdicts(Next(s, steps[0]), steps[1..], f);
    }
  }

  /** From the start, over every run, every packet that was taken in waits, was freed, was released, or was lost
      at a step that loses; references are given back or held by an entry; so once no thread holds an entry and
      the queue is empty, what was taken in was freed or released if and only if no step lost it. */
  lemma NothingIsLeftOver(steps: seq<Step>, sk: Sock, f: Packet -> bool)
    requires Possible(INITIAL, steps)
    ensures var s, log := Run(INITIAL, steps), Log(INITIAL, steps);
      var gone := Count(log, Frees(f)) + Count(log, Releases(f));
      && gone + Losses(INITIAL, steps, f) + Waiting(s, f) == Count(log, Takes(f))
      && Count(log, Is(Put(sk))) + References(s, sk) == Count(log, Is(Held(sk)))
      && s.dropped == Count(log, Frees(Any())) && |s.queue| <= QUEUE_MAX
      && (s.queue == s.incoming == s.refused == s.finished == [] ==>
            && (gone == Count(log, Takes(f)) <==> Losses(INITIAL, steps, f) == 0)
            && Count(log, Is(Put(sk))) == Count(log, Is(Held(sk))))
  {
    RunConserves(INITIAL, steps, sk, f);
    FatesAddUp(Log(INITIAL, steps), f);
    LossesAreCounted(INITIAL, steps, f);
  }

  lemma {:induction false} AnyCounts(es: seq<Entry>)
    ensures Count(es, HasPacket(Any())) == |es|
  {
    if es != [] {
      AnyCounts(es[1..]);
    }
  }

  /** The counters add up, entries made = entries waiting + dropped + released, if and only if no step loses. */
  lemma CountersAddUp(steps: seq<Step>)
    requires Possible(INITIAL, steps)
    ensures var s, log := Run(INITIAL, steps), Log(INITIAL, steps);
      var waiting, made := |s.queue| + |s.incoming| + |s.refused|, Count(log, Takes(Any()));
      made == waiting + s.dropped + Count(log, Releases(Any())) <==> Losses(INITIAL, steps, Any()) == 0
  {
    var s := Run(INITIAL, steps);
    NothingIsLeftOver(steps, 0, Any());
    AnyCounts(s.queue);
    AnyCounts(s.incoming);
    AnyCounts(s.refused);
  }

  /** A run in which they do not: the third step gives a verdict that is neither of the known ones. */
  lemma UnknownVerdictLosesPacket(pid: int, dead: Sock -> bool)
    ensures var steps := [Make(7, None), Admit(0, true), Verdict(0, 2, pid, dead)];
      && Possible(INITIAL, steps)
      && Log(INITIAL, steps) == [Taken(7), Lost(7)]
      && Run(INITIAL, steps) == State([], 0, 1, pid, [], [], [Entry(0, 7, None)])
  {
    var e := Entry(0, 7, None);
    var make, admit, verdict := Make(7, None), Admit(0, true), Verdict(0, 2, pid, dead);
    var steps := [make, admit, verdict];
    assert steps[1..] == [admit, verdict] && steps[1..][1..] == [verdict] && steps[1..][1..][1..] == [];
    var s1 := INITIAL.(nextId := 1, incoming := [e]);
    var s2 := s1.(incoming := [], queue := [e]);
    assert Next(INITIAL, make) == s1 && Effects(INITIAL, make) == [Taken(7)];
    assert Next(s1, admit) == s2 && Effects(s1, admit) == [];
    assert FirstWithId([e], 0) == 0 && Cut([e], 0) == [];
    assert Next(s2, verdict) == s2.(peerPid := pid, queue := [], finished := [e]) && Effects(s2, verdict) == [Lost(7)];
    RunOfThree(INITIAL, make, admit, verdict, s1, s2);
  }

  lemma RunOfThree(s: State, a: Step, b: Step, c: Step, s1: State, s2: State)
    requires Enabled(s, a) && Next(s, a) == s1 && Enabled(s1, b) && Next(s1, b) == s2 && Enabled(s2, c)
    ensures Possible(s, [a, b, c]) && Run(s, [a, b, c]) == Next(s2, c)
    ensures Log(s, [a, b, c]) == Effects(s, a) + Effects(s1, b) + Effects(s2, c)
  {
    hide Next, Effects, Enabled;
    assert [a, b, c][1..] == [b, c] && [b, c][1..] == [c] && [c][1..] == [];
    assert Possible(Next(s2, c), []);
    assert Possible(s2, [c]);
    assert Possible(s1, [b, c]);
    assert Run(s2, [c]) == Next(s2, c) && Run(s1, [b, c]) == Run(s2, [c]);
    assert Log(s2, [c]) == Effects(s2, c);
    assert Log(s1, [b, c]) == Effects(s1, b) + Log(s2, [c]);
  }

  // ----- what verdicts do

  /** What a verdict does: 0 releases the packet of the first entry with the id, or frees it where its socket is dead,
      1 frees it, any other loses it; the entry leaves the queue, and the others keep their order. */
  lemma VerdictMeans(s: State, pktId: nat, verdict: int, pid: int, dead: Sock -> bool)
    ensures var step, i := Verdict(pktId, verdict, pid, dead), FirstWithId(s.queue, pktId);
      var t, ret, effects := Next(s, step), Ret(s, step), Effects(s, step);
      && (s.peerPid != 0 && s.peerPid != pid ==> ret == -16 && t == s && effects == [])
      && ((s.peerPid == 0 || s.peerPid == pid) && i == |s.queue| ==> ret == 0 && t == s.(peerPid := pid) && effects == [])
      && ((s.peerPid == 0 || s.peerPid == pid) && i < |s.queue| ==>
            var e := s.queue[i];
            var isDead := e.sk.Some? && dead(e.sk.value);
            && t == s.(peerPid := pid, queue := s.queue[..i] + s.queue[i + 1..], finished := s.finished + [e],
                       dropped := t.dropped)
            && (verdict == 0 && !isDead ==> effects == [Released(e.skb)] && ret == 1 && t.dropped == s.dropped)
            && (verdict == 0 && isDead ==> effects == [Freed(e.skb)] && ret == 0 && t.dropped == s.dropped + 1)
            && (verdict == 1 ==> effects == [Freed(e.skb)] && ret == 0 && t.dropped == s.dropped + 1)
            && (verdict != 0 && verdict != 1 ==> effects == [Lost(e.skb)] && ret == 0 && t.dropped == s.dropped))
  {
  }

  /** A verdict that is heard and finds a packet of a kind. */
  predicate Reaches(s: State, step: Step, f: Packet -> bool) {
    && step.Verdict? && (s.peerPid == 0 || s.peerPid == step.pid)
    && var i := FirstWithId(s.queue, step.pktId);
       i < |s.queue| && f(s.queue[i].skb)
  }

  /** The packet that a verdict finds belongs to a socket that is dead. */
  predicate FindsDead(s: State, step: Step)
    requires step.Verdict?
  {
    var i := FirstWithId(s.queue, step.pktId);
    i < |s.queue| && s.queue[i].sk.Some? && step.dead(s.queue[i].sk.value)
  }

  /** A step that lets a packet go on: a verdict of 0 that reaches it, unless its socket is dead. */
  predicate LetsGo(s: State, step: Step, f: Packet -> bool) {
    Reaches(s, step, f) && step.verdict == 0 && !FindsDead(s, step)
  }

  /** A verdict that frees a packet: 1, or 0 where its socket is dead. */
  predicate Condemns(s: State, step: Step, f: Packet -> bool) {
    Reaches(s, step, f) && (step.verdict == 1 || (step.verdict == 0 && FindsDead(s, step)))
  }

  ghost function LetGo(s: State, steps: seq<Step>, f: Packet -> bool): nat
    requires Possible(s, steps)
    decreases steps
  {
    if steps == [] then 0 else (if LetsGo(s, steps[0], f) then 1 else 0) + LetGo(Next(s, steps[0]), steps[1..], f)
  }

  ghost function Condemned(s: State, steps: seq<Step>, f: Packet -> bool): nat
    requires Possible(s, steps)
    decreases steps
  {
    if steps == [] then 0 else (if Condemns(s, steps[0], f) then 1 else 0) + Condemned(Next(s, steps[0]), steps[1..], f)
  }

  /** What happens at the verdicts of a run. */
  ghost function VerdictLog(s: State, steps: seq<Step>): seq<Effect>
    requires Possible(s, steps)
    decreases steps
  {
    if steps == [] then []
    else (if steps[0].Verdict? then Effects(s, steps[0]) else []) + VerdictLog(Next(s, steps[0]), steps[1..])
  }

  lemma {:induction false} NoneReleased(effects: seq<Effect>, f: Packet -> bool)
    requires forall e <- effects :: !e.Released?
    ensures Count(effects, Releases(f)) == 0
  {
    if effects != [] {
      NoneReleased(effects[1..], f);
    }
  }

  lemma {:induction false} ThrownNotReleased(es: seq<Entry>)
    ensures forall e <- ThrowAway(es) :: !e.Released?
  {
    if es != [] {
      ThrownNotReleased(es[1..]);
    }
  }

  /** A step releases exactly where it lets go, with the result 1; a verdict frees exactly where it condemns, with 0. */
  lemma StepJudges(s: State, step: Step, f: Packet -> bool)
    requires Enabled(s, step)
    ensures Count(Effects(s, step), Releases(f)) == if LetsGo(s, step, f) then 1 else 0
    ensures step.Verdict? ==> Count(Effects(s, step), Frees(f)) == if Condemns(s, step, f) then 1 else 0
    ensures (LetsGo(s, step, f) ==> Ret(s, step) == 1) && (Condemns(s, step, f) ==> Ret(s, step) == 0)
  {
    hide FirstWithId, Thrown, Cut;
    if step.Verdict? {
      VerdictMeans(s, step.pktId, step.verdict, step.pid, step.dead);
      hide Next, Effects, Ret;
      assert Count([], Releases(f)) == 0 && Count([], Frees(f)) == 0;
      var i := FirstWithId(s.queue, step.pktId);
      if !(s.peerPid != 0 && s.peerPid != step.pid) && i < |s.queue| {
        var e := Effects(s, step)[0];
        assert Effects(s, step) == [e];
        CountMore([], e, Releases(f));
        CountMore([], e, Frees(f));
      }
    } else {
      if step.Purge? || step.Reset? || step.SocketClosed? {
        ThrownNotReleased(Thrown(s.queue, if step.Purge? then step.sk else None));
      }
      NoneReleased(Effects(s, step), f);
    }
  }

  /** Over every run, the packets released are exactly those that a step lets go, and the packets freed by verdicts
      exactly those that one condemns. */
  lemma {:induction false} VerdictsAreCounted(s: State, steps: seq<Step>, f: Packet -> bool)
    requires Possible(s, steps)
    ensures Count(Log(s, steps), Releases(f)) == LetGo(s, steps, f)
    ensures Count(VerdictLog(s, steps), Frees(f)) == Condemned(s, steps, f)
    decreases steps
  {
    hide Next, Count, Effects, LetsGo, Condemns, Ret;
    if steps == [] {
      NoneReleased([], f);
      NoneFreed(f);
    } else {
      var t, effects := Next(s, steps[0]), Effects(s, steps[0]);
      StepJudges(s, steps[0], f);
      VerdictsAreCounted(t, steps[1..], f);
      CountConcat(effects, Log(t, steps[1..]), Releases(f));
      CountConcat(if steps[0].Verdict? then effects else [], VerdictLog(t, steps[1..]), Frees(f));
      NoneFreed(f);
      OnlyVerdictsCondemn(s, steps[0], f);
    }
  }

  lemma NoneFreed(f: Packet -> bool)
    ensures Count([], Frees(f)) == 0
  {
  }

  lemma OnlyVerdictsCondemn(s: State, step: Step, f: Packet -> bool)
    ensures Condemns(s, step, f) ==> step.Verdict?
  {
  }

  // ----- one peer at a time

  /** A step that lets any peer give verdicts again. */
  predicate Unbinds(step: Step, pid: int) {
    step.Reset? || (step.SocketClosed? && step.pid == pid)
  }

  /** The first verdict, of a peer that has a pid, binds that peer. */
  lemma VerdictBinds(s: State, step: Step)
    requires step.Verdict? && s.peerPid == 0
    ensures Next(s, step).peerPid == step.pid
  {
  }

  lemma StepKeepsPeer(s: State, step: Step)
    requires Enabled(s, step) && s.peerPid != 0
    ensures Next(s, step).peerPid == if Unbinds(step, s.peerPid) then 0 else s.peerPid
  {
  }

  lemma {:induction false} PossiblePrefix(s: State, steps: seq<Step>, n: nat)
    requires Possible(s, steps) && n <= |steps|
    ensures Possible(s, steps[..n])
    ensures n < |steps| ==> Enabled(Run(s, steps[..n]), steps[n])
    decreases steps
  {
    hide Next, Enabled;
    if n > 0 {
      assert steps[..n][0] == steps[0] && steps[..n][1..] == steps[1..][..n - 1];
      PossiblePrefix(Next(s, steps[0]), steps[1..], n - 1);
    }
  }

  /** From the verdict that binds a peer up to the next reset, whatever other steps are taken in between, every
      verdict of another peer gets -EBUSY, changes nothing and has no effect. */
  lemma {:induction false} OnlyPeerIsHeard(s: State, steps: seq<Step>, n: nat)
    requires Possible(s, steps) && n < |steps| && s.peerPid != 0
    requires forall j :: 0 <= j < n ==> !Unbinds(steps[j], s.peerPid)
    requires steps[n].Verdict? && steps[n].pid != s.peerPid
    ensures Possible(s, steps[..n])
    ensures var t := Run(s, steps[..n]);
      && t.peerPid == s.peerPid
      && Ret(t, steps[n]) == -EBUSY && Next(t, steps[n]) == t && Effects(t, steps[n]) == []
    decreases steps
  {
    PossiblePrefix(s, steps, n);
    if n > 0 {
      hide Next, Effects, Ret;
      assert !Unbinds(steps[0], s.peerPid);
      StepKeepsPeer(s, steps[0]);
      assert steps[..n][0] == steps[0] && steps[..n][1..] == steps[1..][..n - 1];
      forall j | 0 <= j < n - 1
        ensures !Unbinds(steps[1..][j], s.peerPid)
      {
        assert steps[1..][j] == steps[j + 1];
      }
      OnlyPeerIsHeard(Next(s, steps[0]), steps[1..], n - 1);
    }
  }

  // ----- one packet per id

  ghost function HasId(id: nat): Entry -> bool {
    (e: Entry) => e.id == id
  }

  /** How many entries have an id. */
  ghost function WithId(s: State, id: nat): nat {
    Count(s.queue, HasId(id)) + Count(s.incoming, HasId(id)) + Count(s.refused, HasId(id)) + Count(s.finished, HasId(id))
  }

  lemma StepKeepsIds(s: State, step: Step, id: nat)
    requires Enabled(s, step)
    ensures WithId(Next(s, step), id) <= WithId(s, id) + if step.Make? && id == s.nextId then 1 else 0
  {
    hide Count, Cut, FirstWithId, Kept, Thrown;
    match step
    case Make(skb, sk) =>
      CountMore(s.incoming, Entry(s.nextId, skb, sk), HasId(id));
    case Reject(skb) =>
    case Admit(i, _) =>
      CountMove(s.incoming, i, s.queue, HasId(id));
      CountMove(s.incoming, i, s.refused, HasId(id));
    case DropRefused(i) =>
      CountCut(s.refused, i, HasId(id));
    case Verdict(pktId, _, pid, _) =>
      var i := FirstWithId(s.queue, pktId);
      if i < |s.queue| {
        CountMove(s.queue, i, s.finished, HasId(id));
      }
    case FreeFinished(i) =>
      CountCut(s.finished, i, HasId(id));
    case Purge(sk) =>
      PurgeSplits(s.queue, sk, HasId(id));
    case Reset =>
      PurgeSplits(s.queue, None, HasId(id));
    case SocketClosed(_) =>
      PurgeSplits(s.queue, None, HasId(id));
  }

  /** No two entries have the same id. */
  ghost predicate Unique(s: State) {
    forall id: nat :: WithId(s, id) <= 1
  }

  /** Ids are unique in every state of a run. */
  ghost predicate AlwaysUnique(s: State, steps: seq<Step>)
    requires Possible(s, steps)
    decreases steps
  {
    Unique(s) && (steps != [] ==> AlwaysUnique(Next(s, steps[0]), steps[1..]))
  }

  /** Every entry made gets an id that no other entry has at that time. */
  ghost predicate GivesFreshIds(s: State, steps: seq<Step>)
    requires Possible(s, steps)
    decreases steps
  {
    steps != [] ==>
      (steps[0].Make? ==> WithId(s, s.nextId) == 0) && GivesFreshIds(Next(s, steps[0]), steps[1..])
  }

  lemma MakeGivesId(s: State, step: Step)
    requires step.Make?
    ensures WithId(Next(s, step), s.nextId) == WithId(s, s.nextId) + 1
  {
    hide Count;
    CountMore(s.incoming, Entry(s.nextId, step.skb, step.sk), HasId(s.nextId));
  }

  /** A step keeps ids unique if and only if it makes no entry or the id is not in hands. */
  lemma StepKeepsUnique(s: State, step: Step)
    requires Enabled(s, step) && Unique(s)
    ensures Unique(Next(s, step)) <==> (step.Make? ==> WithId(s, s.nextId) == 0)
  {
    hide Next, WithId;
    if step.Make? {
      MakeGivesId(s, step);
    }
    if step.Make? ==> WithId(s, s.nextId) == 0 {
      forall id: nat
        ensures WithId(Next(s, step), id) <= 1
      {
        StepKeepsIds(s, step, id);
        assert WithId(s, id) <= 1;
      }
    }
  }

  /** From a state with unique ids, however long a run is and however often ids wrap around, all its states have
      unique ids if and only if no entry is made with an id that is still in hands. */
  lemma {:induction false} UniqueIffFresh(s: State, steps: seq<Step>)
    requires Possible(s, steps) && Unique(s)
    ensures AlwaysUnique(s, steps) <==> GivesFreshIds(s, steps)
    decreases steps
  {
    hide Next, Unique, WithId;
    if steps != [] {
      StepKeepsUnique(s, steps[0]);
      if Unique(Next(s, steps[0])) {
        UniqueIffFresh(Next(s, steps[0]), steps[1..]);
      } else {
        NotUnique(Next(s, steps[0]), steps[1..]);
      }
    }
  }

  lemma NotUnique(s: State, steps: seq<Step>)
    requires Possible(s, steps) && !Unique(s)
    ensures !AlwaysUnique(s, steps)
  {
  }

  lemma {:induction false} UniqueAtEnd(s: State, steps: seq<Step>)
    requires Possible(s, steps) && AlwaysUnique(s, steps)
    ensures Unique(Run(s, steps))
    decreases steps
  {
    hide Next, Unique;
    if steps != [] {
      UniqueAtEnd(Next(s, steps[0]), steps[1..]);
    }
  }

  lemma StartsUnique()
    ensures Unique(INITIAL)
  {
  }

  /** Then a verdict reaches the packet that the notification was about: no two queued packets have one id. */
  lemma VerdictReachesItsPacket(steps: seq<Step>, i: nat)
    requires Possible(INITIAL, steps) && GivesFreshIds(INITIAL, steps) && i < |Run(INITIAL, steps).queue|
    ensures var queue := Run(INITIAL, steps).queue;
      FirstWithId(queue, queue[i].id) == i && forall j :: 0 <= j < |queue| && j != i ==> queue[j].id != queue[i].id
  {
    hide Run, GivesFreshIds, AlwaysUnique, Possible;
    StartsUnique();
    UniqueIffFresh(INITIAL, steps);
    UniqueAtEnd(INITIAL, steps);
    var s := Run(INITIAL, steps);
    var id := s.queue[i].id;
    assert WithId(s, id) <= 1;
    forall j | 0 <= j < |s.queue| && s.queue[j].id == id
      ensures j == i
    {
      if j != i {
        CountCut(s.queue, i, HasId(id));
        CountSome(Cut(s.queue, i), if j < i then j else j - 1, HasId(id));
      }
    }
  }

  ghost function MakeCount(steps: seq<Step>): nat {
    if steps == [] then 0 else (if steps[0].Make? then 1 else 0) + MakeCount(steps[1..])
  }

  /** Ids were given out in order to so many entries, to each its own. */
  ghost predicate Numbered(s: State, made: nat) {
    && made <= ID_MODULUS && s.nextId == made % ID_MODULUS
    && forall id: nat :: WithId(s, id) <= if id < made then 1 else 0
  }

  /** Until they wrap around, ids are always fresh. */
  lemma {:induction false} FreshUntilWrap(s: State, steps: seq<Step>, made: nat)
    requires Possible(s, steps) && Numbered(s, made) && made + MakeCount(steps) <= ID_MODULUS
    ensures GivesFreshIds(s, steps)
    decreases steps
  {
    if steps != [] {
      hide WithId;
      var t, made' := Next(s, steps[0]), made + if steps[0].Make? then 1 else 0;
      assert steps[0].Make? ==> WithId(s, s.nextId) <= 0;
      forall id: nat
        ensures WithId(t, id) <= if id < made' then 1 else 0
      {
        StepKeepsIds(s, steps[0], id);
        assert WithId(s, id) <= if id < made then 1 else 0;
      }
      assert t.nextId == made' % ID_MODULUS;
      FreshUntilWrap(t, steps[1..], made');
    }
  }

  /** As many entries as there are ids, and one more, all made and none admitted. */
  ghost function Makes(n: nat, p: Packet): seq<Step> {
    seq(n, i => Make(p, None))
  }

  lemma {:induction false} MadeMany(s: State, n: nat, p: Packet)
    requires s.nextId < ID_MODULUS
    ensures Possible(s, Makes(n, p))
    ensures var t := Run(s, Makes(n, p));
      && |t.incoming| == |s.incoming| + n && t.incoming[..|s.incoming|] == s.incoming
      && (n > 0 ==> t.incoming[|t.incoming| - 1].id == (s.nextId + n - 1) % ID_MODULUS)
    decreases n
  {
    if n > 0 {
      var t := Next(s, Make(p, None));
      assert Makes(n, p)[0] == Make(p, None) && Makes(n, p)[1..] == Makes(n - 1, p);
      MadeMany(t, n - 1, p);
      var u := Run(t, Makes(n - 1, p));
      assert u.incoming[..|s.incoming|] == u.incoming[..|t.incoming|][..|s.incoming|] == s.incoming;
      if n == 1 {
        assert u == t;
      } else {
        WrapNext(s.nextId, n - 2);
      }
    }
  }

  lemma WrapNext(a: nat, k: nat)
    requires a < ID_MODULUS
    ensures ((a + 1) % ID_MODULUS + k) % ID_MODULUS == (a + 1 + k) % ID_MODULUS
  {
    if a + 1 == ID_MODULUS {
      assert (a + 1 + k) % ID_MODULUS == (ID_MODULUS + k) % ID_MODULUS;
    }
  }

  /** A run that gives the first and the last of its entries the same id. */
  lemma IdsRepeat(p: Packet)
    ensures var steps := Makes(ID_MODULUS + 1, p);
      && Possible(INITIAL, steps)
      && var incoming := Run(INITIAL, steps).incoming;
         && |incoming| == ID_MODULUS + 1 && incoming[0].id == incoming[ID_MODULUS].id == 0
         && !GivesFreshIds(INITIAL, steps)
  {
    hide Makes, Count, GivesFreshIds, AlwaysUnique, Next;
    var n := ID_MODULUS + 1;
    var steps, first := Makes(n, p), Next(INITIAL, Make(p, None));
    FirstMake(n, p);
    MadeMany(first, n - 1, p);
    var s := Run(INITIAL, steps);
    assert s.incoming[0] == s.incoming[..1][0];
    CountCut(s.incoming, 0, HasId(0));
    CountSome(Cut(s.incoming, 0), n - 2, HasId(0));
    assert WithId(s, 0) > 1;
    StartsUnique();
    UniqueIffFresh(INITIAL, steps);
    if GivesFreshIds(INITIAL, steps) {
      UniqueAtEnd(INITIAL, steps);
    }
  }

  lemma FirstMake(n: nat, p: Packet)
    requires n > 0
    ensures Makes(n, p) != [] && Makes(n, p)[0] == Make(p, None) && Makes(n, p)[1..] == Makes(n - 1, p)
    ensures Next(INITIAL, Make(p, None)) == INITIAL.(nextId := 1, incoming := [Entry(0, p, None)])
  {
  }

  lemma {:induction false} CountSome<T(!new)>(s: seq<T>, i: nat, f: T -> bool)
    requires i < |s| && f(s[i])
    ensures Count(s, f) >= 1
  {
    if i > 0 {
      CountSome(s[1..], i - 1, f);
    }
  }

  // ----- the code that takes the steps

  class Queue {
    var queue: seq<Entry>
    var total: nat
    var dropped: nat
    var nextId: nat
    var peerPid: int
    /** Entries in the hands of threads. */
    var incoming: seq<Entry>
    var refused: seq<Entry>
    var finished: seq<Entry>
    /** All that has happened so far. */
    ghost var log: seq<Effect>

    ghost function View(): State
      reads this
    {
      State(queue, dropped, nextId, peerPid, incoming, refused, finished)
    }

    ghost predicate Valid()
      reads this
    {
      total == |queue|
    }

    /** One step was taken, with this result. */
    twostate predicate Took(step: Step, ret: int)
      reads this
    {
      && old(Valid()) && Valid() && Enabled(old(View()), step)
      && View() == Next(old(View()), step) && ret == Ret(old(View()), step)
      && log == old(log) + Effects(old(View()), step)
    }

    constructor ()
      ensures Valid() && View() == INITIAL && log == []
    {
      queue, total, dropped, nextId, peerPid := [], 0, 0, 0, 0;
      incoming, refused, finished, log := [], [], [], [];
    }

    /** Makes an entry for a packet and takes a reference to its socket. */
    method MakeEntry(skb: Packet, sk: Option<Sock>) returns (de: Entry)
      requires Valid()
      modifies this
      ensures Took(Make(skb, sk), 0) && incoming == old(incoming) + [de]
    {
      de := Entry(nextId, skb, sk);
      nextId := (nextId + 1) % ID_MODULUS;
      incoming := incoming + [de];
      log := log + ([Taken(skb)] + HeldOf(sk));
    }

    /** Puts an entry on the queue, unless the queue is full or no one listens for verdicts. */
    method AdmitEntry(i: nat, sent: bool) returns (ret: int)
      requires Valid() && i < |incoming|
      modifies this
      ensures Took(Admit(i, sent), ret)
    {
      var de := incoming[i];
      incoming := Cut(incoming, i);
      if total >= QUEUE_MAX {
        ret := -ENOSPC;
        refused := refused + [de];
      } else if !sent {
        ret := -EHOSTUNREACH;
        refused := refused + [de];
      } else {
        queue := queue + [de];
        total := total + 1;
        ret := 0;
      }
    }

    /** Drops an entry that was refused. */
    method DropEntry(i: nat)
      requires Valid() && i < |refused|
      modifies this
      ensures Took(DropRefused(i), 0)
    {
      var de := refused[i];
      refused := Cut(refused, i);
      log := log + ([Freed(de.skb)] + PutOf(de));
      dropped := dropped + 1;
    }

    /** Frees a packet for which there is no memory. */
    method RejectPacket(skb: Packet)
      requires Valid()
      modifies this`log
      ensures Took(Reject(skb), -ENOMEM)
    {
      log := log + [Rejected(skb)];
    }

    /** Delays a packet, when no other thread comes between the steps.  A packet for which no entry can be
        made is freed on the spot. */
    method DelaySkb(skb: Packet, sk: Option<Sock>, alloc: bool, sent: bool) returns (ret: int)
      requires Valid()
      modifies this
      ensures Valid() && incoming == old(incoming) && refused == old(refused) && finished == old(finished)
      ensures ret == if !alloc then -ENOMEM
                     else if |old(queue)| >= QUEUE_MAX then -ENOSPC
                     else if !sent then -EHOSTUNREACH else 0
      ensures queue == old(queue) + if ret == 0 then [Entry(old(nextId), skb, sk)] else []
      ensures dropped == old(dropped) + if alloc && ret != 0 then 1 else 0
      ensures nextId == (if alloc then (old(nextId) + 1) % ID_MODULUS else old(nextId)) && peerPid == old(peerPid)
      ensures var e := Entry(old(nextId), skb, sk);
        log == old(log) + if !alloc then [Rejected(skb)]
                          else [Taken(skb)] + HeldOf(sk) + if ret == 0 then [] else [Freed(skb)] + PutOf(e)
    {
      hide Next, Effects, Ret, PutOf, HeldOf;
      Delayed(View(), skb, sk, sent);
      if !alloc {
        RejectPacket(skb);
        return -ENOMEM;
      }
      var _ := MakeEntry(skb, sk);
      ret := AdmitEntry(|incoming| - 1, sent);
      if ret != 0 {
        DropEntry(|refused| - 1);
      }
    }

    method Find(id: nat) returns (i: nat)
      ensures i == FirstWithId(queue, id)
    {
      i := 0;
      while i < |queue|
        invariant i <= |queue| && FirstWithId(queue, id) == i + FirstWithId(queue[i..], id)
      {
        if id == queue[i].id {
          return;
        }
        assert queue[i..][1..] == queue[i + 1..];
        i := i + 1;
      }
    }

    /** Gives a verdict.  The first peer to give one is the only one heard until a reset.  A verdict that is
        neither of the two known ones takes the packet off the queue and leaves it nowhere. */
    method SetVerdict(pktId: nat, verdict: int, pid: int, dead: Sock -> bool) returns (ret: int)
      requires Valid()
      modifies this
      ensures Took(Verdict(pktId, verdict, pid, dead), ret)
      ensures old(peerPid) != 0 && old(peerPid) != pid ==> ret == -16 && View() == old(View()) && log == old(log)
      ensures var i := FirstWithId(old(queue), pktId);
        (old(peerPid) == 0 || old(peerPid) == pid) && i < |old(queue)| ==>
          var e := old(queue)[i];
          var isDead := e.sk.Some? && dead(e.sk.value);
          && peerPid == pid && queue == old(queue)[..i] + old(queue)[i + 1..]
          && (verdict == 0 && !isDead ==> ret == 1 && log == old(log) + [Released(e.skb)])
          && (verdict == 0 && isDead ==> ret == 0 && log == old(log) + [Freed(e.skb)])
          && (verdict == 1 ==> ret == 0 && log == old(log) + [Freed(e.skb)])
    {
      VerdictMeans(View(), pktId, verdict, pid, dead);
      ret := Judge(pktId, verdict, pid, dead);
    }

    /** The locked section of a verdict. */
    method Judge(pktId: nat, verdict: int, pid: int, dead: Sock -> bool) returns (ret: int)
      requires Valid()
      modifies this
      ensures Took(Verdict(pktId, verdict, pid, dead), ret)
    {
      hide FirstWithId, Cut, PutOf, HeldOf, Purged, ThrowAway;
      if peerPid != 0 {
        if peerPid != pid {
          return -EBUSY;
        }
      } else {
        peerPid := pid;
      }
      var i := Find(pktId);
      if i == |queue| {
        return 0;
      }
      var entry := queue[i];
      queue := Cut(queue, i);
      total := total - 1;
      ret := 0;
      ghost var fate := Lost(entry.skb);
      if verdict == DELAY_DROP {
        fate := Freed(entry.skb);
        dropped := dropped + 1;
      } else if verdict == DELAY_RELEASE {
        if entry.sk.Some? && dead(entry.sk.value) {
          fate := Freed(entry.skb);
          dropped := dropped + 1;
        } else {
          fate := Released(entry.skb);
          ret := 1;
        }
      }
      log := log + [fate];
      finished := finished + [entry];
    }

    /** Frees an entry whose packet has been judged. */
    method FreeEntry(i: nat)
      requires Valid() && i < |finished|
      modifies this
      ensures Took(FreeFinished(i), 0)
    {
      var de := finished[i];
      finished := Cut(finished, i);
      log := log + PutOf(de);
    }

    /** Drops every queued packet of a socket, or every queued packet: the entries of other sockets, and of none, stay
        in their order, and the packets of the socket are freed. */
    method PurgeSock(sk: Option<Sock>)
      requires Valid()
      modifies this`queue, this`total, this`dropped, this`log
      ensures Took(Purge(sk), 0) && old(log) <= log
      ensures sk.Some? ==>
        && (forall e <- queue :: e.sk != sk) && IsSubsequence(queue, old(queue))
        && (forall e: Entry :: e.sk != sk ==> Count(queue, Same(e)) == Count(old(queue), Same(e)))
        && forall f: Packet -> bool :: Count(log[|old(log)|..], Frees(f)) == Count(old(queue), HasBoth(sk.value, f))
      ensures sk.None? ==> queue == []
    {
      PurgeAll(sk);
      hide Next, Effects, Count, Same, HasBoth, Frees;
      Purging(old(View()), sk);
      assert log[|old(log)|..] == Effects(old(View()), Purge(sk));
    }

    /** The loop of a purge. */
    method PurgeAll(sk: Option<Sock>)
      requires Valid()
      modifies this`queue, this`total, this`dropped, this`log
      ensures Took(Purge(sk), 0)
    {
      hide Kept, Thrown, ThrowAway, PutOf;
      var i := 0;
      PurgeStart(queue, sk);
      while i < |queue|
        invariant i <= |queue| && Valid()
        invariant queue[..i] + Kept(queue[i..], sk) == Kept(old(queue), sk)
        invariant dropped + |Thrown(queue[i..], sk)| == old(dropped) + |Thrown(old(queue), sk)|
        invariant log + ThrowAway(Thrown(queue[i..], sk)) == old(log) + ThrowAway(Thrown(old(queue), sk))
        decreases |queue| - i
      {
        PurgeStep(queue, i, sk);
        if sk.None? || queue[i].sk == sk {
          var entry := queue[i];
          queue := Cut(queue, i);
          total := total - 1;
          log := log + ([Freed(entry.skb)] + PutOf(entry));
          dropped := dropped + 1;
        } else {
          i := i + 1;
        }
      }
      PurgeEnd(queue, sk);
    }

    /** Drops everything queued, and lets any peer give verdicts again. */
    method ResetQueue()
      requires Valid()
      modifies this`queue, this`total, this`dropped, this`peerPid, this`log
      ensures Took(Step.Reset, 0) && peerPid == 0 && queue == []
    {
      AllThrown(queue);
      PurgeSock(None);
      peerPid := 0;
    }

    /** A control socket was closed: if it was the peer's, the queue is reset. */
    method SocketReleased(pid: int)
      requires Valid()
      modifies this`queue, this`total, this`dropped, this`peerPid, this`log
      ensures Took(SocketClosed(pid), 0)
    {
      if pid == peerPid {
        ResetQueue();
      } else {
        assert log + [] == log;
      }
    }
  }

  /** The steps by which a packet is delayed, one after the other. */
  lemma Delayed(s: State, skb: Packet, sk: Option<Sock>, sent: bool)
    ensures var e, admit := Entry(s.nextId, skb, sk), Admit(|s.incoming|, sent);
      var r := s.(nextId := (s.nextId + 1) % ID_MODULUS);
      var t := r.(incoming := s.incoming + [e]);
      && Next(s, Reject(skb)) == s && Effects(s, Reject(skb)) == [Rejected(skb)]
      && Next(s, Make(skb, sk)) == t && Effects(s, Make(skb, sk)) == [Taken(skb)] + HeldOf(sk)
      && Ret(t, admit) == (if |s.queue| >= QUEUE_MAX then -ENOSPC else if !sent then -EHOSTUNREACH else 0)
      && Effects(t, admit) == []
      && (Ret(t, admit) == 0 ==> Next(t, admit) == r.(queue := s.queue + [e]))
      && (Ret(t, admit) != 0 ==>
            var u, drop := r.(refused := s.refused + [e]), DropRefused(|s.refused|);
            && Next(t, admit) == u
            && Next(u, drop) == r.(dropped := s.dropped + 1) && Effects(u, drop) == [Freed(skb)] + PutOf(e))
  {
    CutLast(s.incoming, Entry(s.nextId, skb, sk));
    CutLast(s.refused, Entry(s.nextId, skb, sk));
  }

  /** Takes the steps of a run, in its order. */
  method TakeAll(q: Queue, steps: seq<Step>)
    requires q.Valid() && Possible(q.View(), steps)
    modifies q
    ensures q.Valid() && q.View() == Run(old(q.View()), steps) && q.log == old(q.log) + Log(old(q.View()), steps)
  {
    hide Next, Effects, Ret, Enabled;
    ghost var s, whole := q.View(), q.log + Log(q.View(), steps);
    assert steps[0..] == steps;
    for k := 0 to |steps|
      invariant q.Valid() && Possible(q.View(), steps[k..])
      invariant Run(q.View(), steps[k..]) == Run(s, steps) && q.log + Log(q.View(), steps[k..]) == whole
    {
      assert steps[k..][0] == steps[k] && steps[k..][1..] == steps[k + 1..];
      TakeStep(q, steps[k]);
    }
  }

  method TakeStep(q: Queue, step: Step)
    requires q.Valid() && Enabled(q.View(), step)
    modifies q
    ensures q.Took(step, Ret(old(q.View()), step))
  {
    hide Next, Effects;
    match step
    case Make(skb, sk) => var _ := q.MakeEntry(skb, sk);
    case Reject(skb) => q.RejectPacket(skb);
    case Admit(i, sent) => var _ := q.AdmitEntry(i, sent);
    case DropRefused(i) => q.DropEntry(i);
    case Verdict(pktId, verdict, pid, dead) => var _ := q.SetVerdict(pktId, verdict, pid, dead);
    case FreeFinished(i) => q.FreeEntry(i);
    case Purge(sk) => q.PurgeSock(sk);
    case Reset => q.ResetQueue();
    case SocketClosed(pid) => q.SocketReleased(pid);
  }

  lemma {:induction false} AllThrown(es: seq<Entry>)
    ensures Thrown(es, None) == es && Kept(es, None) == []
  {
    if es != [] {
      AllThrown(es[1..]);
    }
  }

  /** What a purge does to the queue, and which packets it frees. */
  lemma Purging(s: State, sk: Option<Sock>)
    ensures var t, effects := Next(s, Purge(sk)), Effects(s, Purge(sk));
      && (sk.None? ==> t.queue == [])
      && (sk.Some? ==>
            && (forall e <- t.queue :: e.sk != sk) && IsSubsequence(t.queue, s.queue)
            && (forall e: Entry :: e.sk != sk ==> Count(t.queue, Same(e)) == Count(s.queue, Same(e)))
            && forall f: Packet -> bool :: Count(effects, Frees(f)) == Count(s.queue, HasBoth(sk.value, f)))
  {
    hide Count, Same, HasBoth, Frees, IsSubsequence;
    if sk.None? {
      AllThrown(s.queue);
    } else {
      PurgeTakesSocket(s.queue, sk.value);
      forall f: Packet -> bool
        ensures Count(Effects(s, Purge(sk)), Frees(f)) == Count(s.queue, HasBoth(sk.value, f))
      {
        FreesThrown(Thrown(s.queue, sk), f);
      }
    }
  }

  lemma {:induction false} FreesThrown(es: seq<Entry>, f: Packet -> bool)
    ensures Count(ThrowAway(es), Frees(f)) == Count(es, HasPacket(f))
  {
    if es != [] {
      FreesThrown(es[1..], f);
      var drop := [Freed(es[0].skb)] + PutOf(es[0]);
      CountConcat(drop, ThrowAway(es[1..]), Frees(f));
      assert drop[0] == Freed(es[0].skb) && drop[1..] == PutOf(es[0]);
      assert es[0].sk.Some? ==> PutOf(es[0])[1..] == [];
    }
  }

  lemma PurgeStart(queue: seq<Entry>, sk: Option<Sock>)
    ensures queue[..0] + Kept(queue[0..], sk) == Kept(queue, sk) && queue[0..] == queue
  {
  }

  lemma PurgeEnd(queue: seq<Entry>, sk: Option<Sock>)
    ensures var rest := queue[|queue|..];
      queue[..|queue|] + Kept(rest, sk) == queue && Thrown(rest, sk) == [] && ThrowAway(Thrown(rest, sk)) == []
  {
  }

  /** One step of a purge. */
  lemma PurgeStep(queue: seq<Entry>, i: nat, sk: Option<Sock>)
    requires i < |queue|
    ensures |Cut(queue, i)| == |queue| - 1
    ensures var e, rest := queue[i], queue[i + 1..];
      && (Purges(sk, e) ==>
            && Cut(queue, i)[..i] == queue[..i] && Cut(queue, i)[i..] == rest
            && Kept(queue[i..], sk) == Kept(rest, sk)
            && |Thrown(queue[i..], sk)| == 1 + |Thrown(rest, sk)|
            && ThrowAway(Thrown(queue[i..], sk)) == [Freed(e.skb)] + PutOf(e) + ThrowAway(Thrown(rest, sk)))
      && (!Purges(sk, e) ==>
            && queue[..i] + Kept(queue[i..], sk) == queue[..i + 1] + Kept(rest, sk)
            && Thrown(queue[i..], sk) == Thrown(rest, sk))
  {
    var e, rest := queue[i], queue[i + 1..];
    assert queue[i..][0] == e && queue[i..][1..] == rest;
    if Purges(sk, e) {
      assert [] + Kept(rest, sk) == Kept(rest, sk);
      assert Thrown(queue[i..], sk)[1..] == Thrown(rest, sk);
    } else {
      assert [] + Thrown(rest, sk) == Thrown(rest, sk);
      assert queue[..i + 1] == queue[..i] + [e];
    }
  }
}

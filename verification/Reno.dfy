/** Reno congestion control: how the congestion window grows in slow start, limited slow start and
    congestion avoidance, with and without appropriate byte counting (sections 2.1 and 2.2 of RFC 3465). */
module Reno {

  /** System settings: byte counting (0 off, 1 on, 2 with doubling), and the limit of section 2 of RFC 3742. */
  datatype Settings = Settings(abc: int, maxSsthresh: int)

  /** The part of a connection that growth of the window depends on. */
  datatype State = State(cwnd: nat, cnt: nat, bytesAcked: nat, clamp: nat, ssthresh: nat, mss: nat)

  // ----- reference: a window as a point on a line

  /** Sum of k for k < n. */
  function Tri(n: nat): nat {
    if n == 0 then 0 else n - 1 + Tri(n - 1)
  }

  lemma {:induction false} TriGrows(a: nat, b: nat)
    requires a <= b
    ensures Tri(b) >= Tri(a) + (b - a) * a
    decreases b
  {
    if a < b {
      TriGrows(a, b - 1);
      assert (b - a) * a == (b - 1 - a) * a + a;
    }
  }

  /** The credit collected so far: the window of size n costs the sum of the sizes below it. */
  function Credit(s: State): nat {
    Tri(s.cwnd) + s.cnt
  }

  lemma {:induction false} TriMonotone(a: nat, b: nat)
    requires a <= b
    ensures Tri(a) <= Tri(b)
    decreases b
  {
    if a < b {
      TriMonotone(a, b - 1);
    }
  }

  /** A point on the line has one window and one counter. */
  lemma CreditIsUnique(c: nat, x: nat, c': nat, x': nat)
    requires Tri(c) + x == Tri(c') + x' && x < c && x' < c'
    ensures c == c' && x == x'
  {
    if c < c' {
      TriMonotone(c + 1, c');
    } else if c' < c {
      TriMonotone(c' + 1, c);
    }
  }

  // ----- the specification of one step

  function Raised(s: State): State {
    if s.cwnd < s.clamp then s.(cwnd := s.cwnd + 1) else s
  }

  /** Turns collected credit into a wider window. */
  ghost function Drained(s: State): (r: State)
    requires s.cwnd > 0 || s.clamp > 0
    ensures r == s.(cwnd := r.cwnd, cnt := r.cnt) && r.cnt < r.cwnd && s.cwnd <= r.cwnd
    ensures r.cwnd <= (if s.cwnd < s.clamp then s.clamp else s.cwnd)
    ensures Credit(r) <= Credit(s)
    ensures r.cwnd < r.clamp ==> Credit(r) == Credit(s)
    decreases s.cnt + if s.cwnd == 0 then 1 else 0
  {
    if s.cnt < s.cwnd then s else Drained(Raised(s.(cnt := s.cnt - s.cwnd)))
  }

  lemma DrainStep(s: State)
    requires s.cwnd > 0 || s.clamp > 0
    ensures Drained(s) == if s.cnt < s.cwnd then s else Drained(Raised(s.(cnt := s.cnt - s.cwnd)))
  {
  }

  /** Whether a call of slow start does anything: byte counting waits for a full segment. */
  predicate Counts(g: Settings, s: State) {
    g.abc == 0 || s.bytesAcked >= s.mss
  }

  predicate Limited(g: Settings, s: State) {
    g.maxSsthresh > 0 && s.cwnd > g.maxSsthresh
  }

  /** The credit that one call of slow start adds. */
  function Increase(g: Settings, s: State): nat {
    var cnt := if Limited(g, s) then g.maxSsthresh / 2 else s.cwnd;
    if g.abc > 1 && s.bytesAcked >= 2 * s.mss then 2 * cnt else cnt
  }

  ghost function SlowStarted(g: Settings, s: State): State
    requires s.cwnd > 0 || s.clamp > 0
  {
    if Counts(g, s) then Drained(s.(cnt := s.cnt + Increase(g, s), bytesAcked := 0)) else s
  }

  /** Additive increase over `w` acknowledgements. */
  function Averaged(s: State, w: nat): State {
    if s.cnt >= w then Raised(s).(cnt := 0) else s.(cnt := s.cnt + 1)
  }

  /** Byte counting in congestion avoidance: once per window of bytes. */
  function ByteCounted(s: State): State {
    if s.bytesAcked >= s.cwnd * s.mss then Raised(s).(bytesAcked := s.bytesAcked - s.cwnd * s.mss) else s
  }

  /** One acknowledgement that arrives while the window limits sending. */
  ghost function Acked(g: Settings, s: State): State
    requires s.cwnd > 0 || s.clamp > 0
  {
    if s.cwnd <= s.ssthresh then SlowStarted(g, s)
    else if g.abc != 0 then ByteCounted(s)
    else Averaged(s, s.cwnd)
  }

  // ----- the connection

  /** What the transport knows about the path, for deciding whether the window limits sending. */
  datatype PathInfo = PathInfo(canGso: bool, tsoWinDivisor: nat, gsoMaxSize: nat, maxBurst: nat)

  /** Whether the window, rather than the application, limits sending. */
  ghost predicate CwndLimited(s: State, path: PathInfo, inFlight: nat) {
    || inFlight >= s.cwnd
    || var left := s.cwnd - inFlight;
       || (path.canGso && left * path.tsoWinDivisor < s.cwnd && left * s.mss < path.gsoMaxSize)
       || left <= path.maxBurst
  }

  lemma MulMonotone(a: nat, b: nat, x: nat)
    requires a <= b
    ensures a * x <= b * x
  {
    assert b * x == a * x + (b - a) * x;
  }

  /** More in flight never makes the window limit sending less. */
  lemma LimitedIsMonotone(s: State, path: PathInfo, inFlight: nat, more: nat)
    requires CwndLimited(s, path, inFlight) && inFlight <= more
    ensures CwndLimited(s, path, more)
  {
    if more < s.cwnd {
      var left, left' := s.cwnd - inFlight, s.cwnd - more;
      MulMonotone(left', left, path.tsoWinDivisor);
      MulMonotone(left', left, s.mss);
    }
  }

  function Min(a: nat, b: nat): nat {
    if a < b then a else b
  }

  function Max(a: nat, b: nat): nat {
    if a < b then b else a
  }

  /** The largest x with x * d < c, if it is not more than `most`. */
  ghost function Below(c: nat, d: nat, most: nat): nat {
    if c == 0 then 0 else if d == 0 then most else Min(most, (c - 1) / d)
  }

  lemma BelowIsLargest(x: nat, c: nat, d: nat, most: nat)
    requires 0 < x <= most
    ensures x * d < c <==> x <= Below(c, d, most)
  {
    if c > 0 && d > 0 {
      var q := (c - 1) / d;
      assert c - 1 == q * d + (c - 1) % d;
      if x <= q {
        MulMonotone(x, q, d);
      } else {
        MulMonotone(q + 1, x, d);
        assert (q + 1) * d == q * d + d;
      }
    }
  }

  /** How many segments the packets in flight may fall short of the window for it still to limit sending: as many as
      may be sent in a burst, or, with segmentation offload, as many as are less than the window divided by the
      divisor and fit below the largest size that may be handed down at once. */
  ghost function Slack(s: State, path: PathInfo): nat {
    Max(path.maxBurst,
        if path.canGso then Min(Below(s.cwnd, path.tsoWinDivisor, s.cwnd), Below(path.gsoMaxSize, s.mss, s.cwnd)) else 0)
  }

  /** The window limits sending exactly from so many packets in flight on. */
  lemma LimitedFrom(s: State, path: PathInfo, inFlight: nat)
    ensures CwndLimited(s, path, inFlight) <==> inFlight + Slack(s, path) >= s.cwnd
    ensures !path.canGso ==> (CwndLimited(s, path, inFlight) <==> inFlight + path.maxBurst >= s.cwnd)
  {
    hide Below;
    if inFlight < s.cwnd {
      var left := s.cwnd - inFlight;
      BelowIsLargest(left, s.cwnd, path.tsoWinDivisor, s.cwnd);
      BelowIsLargest(left, path.gsoMaxSize, s.mss, s.cwnd);
    }
  }

  class Sock {
    var cwnd: nat
    var cnt: nat
    var bytesAcked: nat
    var clamp: nat
    var ssthresh: nat
    var mss: nat

    function View(): State
      reads this
    {
      State(cwnd, cnt, bytesAcked, clamp, ssthresh, mss)
    }

    /** Widens the window while the counter covers it. */
    method Drain()
      requires cwnd > 0 || clamp > 0
      modifies this`cwnd, this`cnt
      ensures View() == Drained(old(View()))
    {
      hide Drained, Tri, Credit;
      while cnt >= cwnd
        invariant cwnd > 0 || clamp > 0
        invariant Drained(View()) == Drained(old(View()))
        decreases cnt + if cwnd == 0 then 1 else 0
      {
        DrainStep(View());
        cnt := cnt - cwnd;
        if cwnd < clamp {
          cwnd := cwnd + 1;
        }
      }
      DrainStep(View());
    }

    method SlowStart(g: Settings)
      requires cwnd > 0 || clamp > 0
      modifies this`cwnd, this`cnt, this`bytesAcked
      ensures View() == SlowStarted(g, old(View()))
    {
      hide Drained, Tri, Credit;
      if g.abc != 0 && bytesAcked < mss {
        return;
      }
      var inc := if g.maxSsthresh > 0 && cwnd > g.maxSsthresh then g.maxSsthresh / 2 else cwnd;
      if g.abc > 1 && bytesAcked >= 2 * mss {
        inc := inc * 2;
      }
      bytesAcked := 0;
      cnt := cnt + inc;
      Drain();
    }

    method CongAvoidAi(w: nat)
      modifies this`cwnd, this`cnt
      ensures View() == Averaged(old(View()), w)
    {
      if cnt >= w {
        if cwnd < clamp {
          cwnd := cwnd + 1;
        }
        cnt := 0;
      } else {
        cnt := cnt + 1;
      }
    }

    /** Whether the window limits sending: from so many packets in flight on. */
    method IsCwndLimited(path: PathInfo, inFlight: nat) returns (limited: bool)
      ensures limited <==> CwndLimited(View(), path, inFlight)
      ensures limited <==> inFlight + Slack(View(), path) >= cwnd
      ensures !path.canGso ==> (limited <==> inFlight + path.maxBurst >= cwnd)
    {
      LimitedFrom(View(), path, inFlight);
      if inFlight >= cwnd {
        return true;
      }
      var left := cwnd - inFlight;
      if path.canGso && left * path.tsoWinDivisor < cwnd && left * mss < path.gsoMaxSize {
        return true;
      }
      return left <= path.maxBurst;
    }

    /** One acknowledgement: nothing happens unless the window limits sending. */
    method CongAvoid(g: Settings, path: PathInfo, inFlight: nat)
      requires cwnd > 0 || clamp > 0
      modifies this`cwnd, this`cnt, this`bytesAcked
      ensures View() == if CwndLimited(old(View()), path, inFlight) then Acked(g, old(View())) else old(View())
      ensures View() == if inFlight + Slack(old(View()), path) >= old(cwnd) then Acked(g, old(View())) else old(View())
      ensures !path.canGso ==>
        View() == if inFlight + path.maxBurst >= old(cwnd) then Acked(g, old(View())) else old(View())
    {
      hide Slack, CwndLimited;
      var limited := IsCwndLimited(path, inFlight);
      if !limited {
        return;
      }
      if cwnd <= ssthresh {
        SlowStart(g);
      } else if g.abc != 0 {
        if bytesAcked >= cwnd * mss {
          bytesAcked := bytesAcked - cwnd * mss;
          if cwnd < clamp {
            cwnd := cwnd + 1;
          }
        }
      } else {
        CongAvoidAi(cwnd);
      }
    }
  }

  // ----- what every run keeps

  /** The window is at least one segment and at most its clamp, and the counter at most the window. */
  ghost predicate Sane(s: State) {
    1 <= s.cwnd <= s.clamp && s.cnt <= s.cwnd
  }

  /** What can happen at an acknowledgement: bytes are counted, and the window may or may not limit sending. */
  datatype Event = Ack(bytes: nat, limited: bool)

  ghost function Step(g: Settings, s: State, e: Event): State
    requires Sane(s)
  {
    var s' := if g.abc != 0 then s.(bytesAcked := s.bytesAcked + e.bytes) else s;
    if e.limited then Acked(g, s') else s'
  }

  lemma StepKeeps(g: Settings, s: State, e: Event)
    requires Sane(s)
    ensures Sane(Step(g, s, e)) && s.cwnd <= Step(g, s, e).cwnd
    ensures Step(g, s, e) == s.(cwnd := Step(g, s, e).cwnd, cnt := Step(g, s, e).cnt, bytesAcked := Step(g, s, e).bytesAcked)
  {
  }

  ghost function Run(g: Settings, s: State, es: seq<Event>): (r: State)
    requires Sane(s)
    ensures Sane(r)
    decreases es
  {
    if es == [] then s else
      StepKeeps(g, s, es[0]);
      Run(g, Step(g, s, es[0]), es[1..])
  }

  /** Over every run the window stays between 1 and its clamp, the counter stays below the window, and
      the window never shrinks. */
  lemma {:induction false} RunKeeps(g: Settings, s: State, es: seq<Event>)
    requires Sane(s)
    ensures Sane(Run(g, s, es)) && s.cwnd <= Run(g, s, es).cwnd
    ensures Run(g, s, es).clamp == s.clamp && Run(g, s, es).ssthresh == s.ssthresh && Run(g, s, es).mss == s.mss
    decreases es
  {
    if es != [] {
      StepKeeps(g, s, es[0]);
      RunKeeps(g, Step(g, s, es[0]), es[1..]);
    }
  }

  /** What arrives with an acknowledgement: bytes acknowledged, and what decides whether the window limits sending. */
  datatype Arrival = Arrival(bytes: nat, path: PathInfo, inFlight: nat)

  /** The event that an arrival is for a connection in some state. */
  ghost function EventOf(s: State, a: Arrival): Event {
    Ack(a.bytes, CwndLimited(s, a.path, a.inFlight))
  }

  /** The events of a run are those of its arrivals, each in the state it meets. */
  ghost predicate Meets(g: Settings, s: State, arrivals: seq<Arrival>, es: seq<Event>)
    requires Sane(s)
    decreases es
  {
    if es == [] || arrivals == [] then es == [] && arrivals == [] else
      StepKeeps(g, s, es[0]);
      es[0] == EventOf(s, arrivals[0]) && Meets(g, Step(g, s, es[0]), arrivals[1..], es[1..])
  }

  lemma {:induction false} MeetsMore(g: Settings, s: State, arrivals: seq<Arrival>, es: seq<Event>, a: Arrival)
    requires Sane(s) && Meets(g, s, arrivals, es)
    ensures var e := EventOf(Run(g, s, es), a);
      Meets(g, s, arrivals + [a], es + [e]) && Run(g, s, es + [e]) == Step(g, Run(g, s, es), e)
    decreases es
  {
    hide Step, EventOf;
    var e := EventOf(Run(g, s, es), a);
    RunSplits(g, s, es, [e]);
    StepKeeps(g, Run(g, s, es), e);
    assert [e][1..] == [] && Run(g, Run(g, s, es), [e]) == Step(g, Run(g, s, es), e);
    if es == [] {
      assert arrivals + [a] == [a] && es + [e] == [e] && [a][1..] == [];
    } else {
      StepKeeps(g, s, es[0]);
      MeetsMore(g, Step(g, s, es[0]), arrivals[1..], es[1..], a);
      assert (arrivals + [a])[1..] == arrivals[1..] + [a] && (es + [e])[1..] == es[1..] + [e];
    }
  }

  /** An acknowledgement of a run counts as limiting exactly when the packets in flight come up to the window, but for
      the slack; without segmentation offload, but for a burst. */
  lemma {:induction false} LimitedInRun(g: Settings, s: State, arrivals: seq<Arrival>, es: seq<Event>, n: nat)
    requires Sane(s) && Meets(g, s, arrivals, es) && n < |es|
    ensures |es| == |arrivals|
    ensures var t, a := Run(g, s, es[..n]), arrivals[n];
      && (es[n].limited <==> a.inFlight + Slack(t, a.path) >= t.cwnd)
      && (!a.path.canGso ==> (es[n].limited <==> a.inFlight + a.path.maxBurst >= t.cwnd))
    decreases es
  {
    hide Step, Slack, CwndLimited;
    StepKeeps(g, s, es[0]);
    MeetsLength(g, s, arrivals, es);
    if n == 0 {
      LimitedFrom(s, arrivals[0].path, arrivals[0].inFlight);
    } else {
      LimitedInRun(g, Step(g, s, es[0]), arrivals[1..], es[1..], n - 1);
      assert es[..n][0] == es[0] && es[..n][1..] == es[1..][..n - 1];
    }
  }

  lemma {:induction false} MeetsLength(g: Settings, s: State, arrivals: seq<Arrival>, es: seq<Event>)
    requires Sane(s) && Meets(g, s, arrivals, es)
    ensures |es| == |arrivals|
    decreases es
  {
    hide Step, EventOf;
    if es != [] {
      StepKeeps(g, s, es[0]);
      MeetsLength(g, Step(g, s, es[0]), arrivals[1..], es[1..]);
    }
  }

  /** So where packets in flight never fall short of the clamp by more than a burst, every acknowledgement counts. */
  lemma {:induction false} BurstsCount(g: Settings, s: State, arrivals: seq<Arrival>, es: seq<Event>)
    requires Sane(s) && Meets(g, s, arrivals, es)
    requires forall a <- arrivals :: a.inFlight + a.path.maxBurst >= s.clamp
    ensures LimitedCount(es) == |arrivals|
    decreases es
  {
    hide Slack, CwndLimited, Step;
    if es != [] {
      StepKeeps(g, s, es[0]);
      assert arrivals[0] in arrivals && forall a <- arrivals[1..] :: a in arrivals;
      LimitedFrom(s, arrivals[0].path, arrivals[0].inFlight);
      BurstIsSlack(s, arrivals[0].path);
      BurstsCount(g, Step(g, s, es[0]), arrivals[1..], es[1..]);
    }
  }

  lemma BurstIsSlack(s: State, path: PathInfo)
    ensures path.maxBurst <= Slack(s, path)
  {
  }

  /** Runs a connection along what arrives. */
  method TakeAcks(sock: Sock, g: Settings, arrivals: seq<Arrival>) returns (ghost es: seq<Event>)
    requires Sane(sock.View())
    modifies sock
    ensures Meets(g, old(sock.View()), arrivals, es) && sock.View() == Run(g, old(sock.View()), es)
  {
    hide Acked, CwndLimited, Meets, Run;
    ghost var s := sock.View();
    es := [];
    MeetsNone(g, s);
    for k := 0 to |arrivals|
      invariant Sane(sock.View()) && Meets(g, s, arrivals[..k], es) && sock.View() == Run(g, s, es)
    {
      var a := arrivals[k];
      MeetsMore(g, s, arrivals[..k], es, a);
      assert arrivals[..k + 1] == arrivals[..k] + [a];
      ghost var e := EventOf(sock.View(), a);
      StepKeeps(g, sock.View(), e);
      if g.abc != 0 {
        sock.bytesAcked := sock.bytesAcked + a.bytes;
      }
      LimitedByWindow(Run(g, s, es), sock.View(), a);
      sock.CongAvoid(g, a.path, a.inFlight);
      es := es + [e];
    }
    assert arrivals[..|arrivals|] == arrivals;
  }

  lemma MeetsNone(g: Settings, s: State)
    requires Sane(s)
    ensures Meets(g, s, [], []) && Run(g, s, []) == s
  {
  }

  /** Counting bytes does not change whether the window limits sending. */
  lemma LimitedByWindow(before: State, after: State, a: Arrival)
    requires after == before.(bytesAcked := after.bytesAcked)
    ensures CwndLimited(before, a.path, a.inFlight) == CwndLimited(after, a.path, a.inFlight)
  {
  }

  /** A run is its parts, one after the other. */
  lemma {:induction false} RunSplits(g: Settings, s: State, es: seq<Event>, more: seq<Event>)
    requires Sane(s)
    ensures Run(g, s, es + more) == Run(g, Run(g, s, es), more)
    decreases es
  {
    if es == [] {
      assert es + more == more;
    } else {
      StepKeeps(g, s, es[0]);
      RunSplits(g, Step(g, s, es[0]), es[1..], more);
      assert (es + more)[1..] == es[1..] + more;
    }
  }

  /** How many acknowledgements found the window limiting. */
  function LimitedCount(es: seq<Event>): nat {
    if es == [] then 0 else (if es[0].limited then 1 else 0) + LimitedCount(es[1..])
  }

  const U32_MAX := 0xffff_ffff

  /** Nothing that congestion control computes exceeds 32 bits, where windows of bytes, windows times the
      divisor and four windows of segments do not. */
  lemma StepFits(g: Settings, s: State, path: PathInfo, inFlight: nat)
    requires Sane(s) && 4 * s.clamp <= U32_MAX && s.clamp * s.mss <= U32_MAX && 2 * s.mss <= U32_MAX
    requires s.clamp * path.tsoWinDivisor <= U32_MAX
    ensures s.cnt + Increase(g, s) <= U32_MAX && s.cwnd * s.mss <= U32_MAX
    ensures inFlight < s.cwnd ==>
      (s.cwnd - inFlight) * s.mss <= U32_MAX && (s.cwnd - inFlight) * path.tsoWinDivisor <= U32_MAX
  {
    IncreaseBound(g, s);
    MulMonotone(s.cwnd, s.clamp, s.mss);
    MulMonotone(s.cwnd, s.clamp, path.tsoWinDivisor);
    if inFlight < s.cwnd {
      MulMonotone(s.cwnd - inFlight, s.cwnd, s.mss);
      MulMonotone(s.cwnd - inFlight, s.cwnd, path.tsoWinDivisor);
    }
  }

  ghost function TotalBytes(es: seq<Event>): nat {
    if es == [] then 0 else es[0].bytes + TotalBytes(es[1..])
  }

  /** Acknowledged bytes never exceed those that arrived, and are all of them while the window does not limit
      sending: so they fit 32 bits over a run if all its bytes do, and cannot be promised to otherwise. */
  lemma {:induction false} RunBytesFit(g: Settings, s: State, es: seq<Event>)
    requires Sane(s)
    ensures Run(g, s, es).bytesAcked <= s.bytesAcked + TotalBytes(es)
    ensures g.abc != 0 && LimitedCount(es) == 0 ==> Run(g, s, es).bytesAcked == s.bytesAcked + TotalBytes(es)
    decreases es
  {
    if es != [] {
      StepKeeps(g, s, es[0]);
      StepBytes(g, s, es[0]);
      RunBytesFit(g, Step(g, s, es[0]), es[1..]);
    }
  }

  lemma StepBytes(g: Settings, s: State, e: Event)
    requires Sane(s)
    ensures Step(g, s, e).bytesAcked <= s.bytesAcked + e.bytes
  {
    hide Drained;
  }

  // ----- congestion avoidance: one more segment per window

  /** Acknowledgements collected so far: the window of size n costs the sum of k + 1 for k < n. */
  ghost function Collected(s: State): nat {
    Tri(s.cwnd + 1) + s.cnt
  }

  /** Each acknowledgement below the clamp counts once, neither lost nor counted twice. */
  lemma AverageCounts(s: State)
    requires Sane(s)
    ensures s.cwnd < s.clamp ==> Collected(Averaged(s, s.cwnd)) == Collected(s) + 1
  {
    assert Tri(s.cwnd + 2) == s.cwnd + 1 + Tri(s.cwnd + 1);
  }

  /** Above the threshold, the window has reached `b` exactly when the limiting acknowledgements, with what was
      collected before, are at least the sum of k + 1 over the windows k up to `b`. */
  lemma {:induction false} AvoidanceGrowth(g: Settings, s: State, es: seq<Event>, b: nat)
    requires Sane(s) && g.abc == 0 && s.ssthresh < s.cwnd <= b <= s.clamp
    ensures Run(g, s, es).cwnd >= b <==> Collected(s) + LimitedCount(es) >= Tri(b + 1)
    decreases es
  {
    hide Tri, Drained;
    if s.cwnd == b {
      RunKeeps(g, s, es);
    } else if es == [] {
      TriMonotone(s.cwnd + 2, b + 1);
      assert Tri(s.cwnd + 2) == s.cwnd + 1 + Tri(s.cwnd + 1) by { TriNext(s.cwnd + 1); }
    } else {
      StepKeeps(g, s, es[0]);
      AverageCounts(s);
      AvoidanceGrowth(g, Step(g, s, es[0]), es[1..], b);
    }
  }

  lemma TriNext(n: nat)
    ensures Tri(n + 1) == n + Tri(n)
  {
  }

  // ----- slow start: one more segment per acknowledgement

  lemma SlowStartStep(g: Settings, s: State)
    requires Sane(s) && g.abc == 0 && (g.maxSsthresh <= 0 || s.cwnd <= g.maxSsthresh)
    ensures SlowStarted(g, s).cwnd == Min(s.clamp, s.cwnd + 1)
  {
    hide Drained, Tri, Credit;
    var t := s.(cnt := s.cnt + s.cwnd, bytesAcked := 0);
    var u := Raised(t.(cnt := s.cnt));
    DrainStep(t);
    DrainStep(u);
    if u.cnt >= u.cwnd {
      DrainStep(u.(cnt := 0));
    }
  }

  /** Without byte counting and up to the limit of limited slow start, every limiting acknowledgement up to the
      threshold widens the window by one segment, up to the clamp. */
  lemma {:induction false} SlowStartGrowth(g: Settings, s: State, es: seq<Event>)
    requires Sane(s) && g.abc == 0 && (g.maxSsthresh <= 0 || s.cwnd + LimitedCount(es) <= g.maxSsthresh + 1)
    requires s.clamp <= s.ssthresh || s.cwnd + LimitedCount(es) <= s.ssthresh + 1
    ensures Run(g, s, es).cwnd == Min(s.clamp, s.cwnd + LimitedCount(es))
    decreases es
  {
    hide SlowStarted;
    if es != [] {
      StepKeeps(g, s, es[0]);
      if es[0].limited {
        SlowStartStep(g, s);
      }
      SlowStartGrowth(g, Step(g, s, es[0]), es[1..]);
    }
  }

  /** One call with byte counting and without limit: nothing below a full segment; otherwise the bytes are used up and
      the window widens by one segment, or by two where doubling is on, two segments have come in and the counter is
      not zero. */
  lemma ByteSlowStart(g: Settings, s: State)
    requires Sane(s) && g.abc != 0 && g.maxSsthresh <= 0
    ensures s.bytesAcked < s.mss ==> SlowStarted(g, s) == s
    ensures s.bytesAcked >= s.mss ==>
      var r := SlowStarted(g, s);
      && r.bytesAcked == 0
      && r.cwnd == Min(s.clamp, s.cwnd + if g.abc > 1 && s.bytesAcked >= 2 * s.mss && s.cnt > 0 then 2 else 1)
  {
    hide Drained, Tri, Credit;
    if s.bytesAcked >= s.mss {
      var t := s.(cnt := s.cnt + Increase(g, s), bytesAcked := 0);
      RoundDrains(t);
      RoundDrains(Round(t));
      RoundDrains(Round(Round(t)));
      RoundDrains(Round(Round(Round(t))));
    }
  }

  /** One round of the loop, if there is one. */
  function Round(s: State): State {
    if s.cnt < s.cwnd then s else Raised(s.(cnt := s.cnt - s.cwnd))
  }

  lemma RoundDrains(s: State)
    requires s.cwnd > 0
    ensures Round(s).cwnd > 0 && Drained(Round(s)) == Drained(s) && (s.cnt < s.cwnd ==> Drained(s) == s)
  {
    hide Tri, Credit;
  }

  /** The segments that arriving bytes fill: the limiting acknowledgements that find a full segment since the last. */
  function FullSegments(mss: nat, waiting: nat, es: seq<Event>): nat
    decreases es
  {
    if es == [] then 0 else
      var bytes := waiting + es[0].bytes;
      if es[0].limited && bytes >= mss then 1 + FullSegments(mss, 0, es[1..]) else FullSegments(mss, bytes, es[1..])
  }

  lemma ByteSlowStartStep(g: Settings, s: State, e: Event)
    requires Sane(s) && g.abc == 1 && g.maxSsthresh <= 0
    ensures var t, bytes := Step(g, s, e), s.bytesAcked + e.bytes;
      && (e.limited && bytes >= s.mss && s.cwnd <= s.ssthresh ==> t.bytesAcked == 0 && t.cwnd == Min(s.clamp, s.cwnd + 1))
      && (!(e.limited && bytes >= s.mss) ==> t == s.(bytesAcked := bytes))
  {
    hide SlowStarted;
    ByteSlowStart(g, s.(bytesAcked := s.bytesAcked + e.bytes));
    MulMonotone(1, s.cwnd, s.mss);
  }

  /** With byte counting, without doubling and without limit, the window widens by one segment for each of those. */
  lemma {:induction false} ByteSlowStartGrowth(g: Settings, s: State, es: seq<Event>)
    requires Sane(s) && g.abc == 1 && g.maxSsthresh <= 0
    requires s.clamp <= s.ssthresh || s.cwnd + FullSegments(s.mss, s.bytesAcked, es) <= s.ssthresh + 1
    ensures Run(g, s, es).cwnd == Min(s.clamp, s.cwnd + FullSegments(s.mss, s.bytesAcked, es))
    decreases es
  {
    hide Step;
    if es != [] {
      StepKeeps(g, s, es[0]);
      ByteSlowStartStep(g, s, es[0]);
      ByteSlowStartGrowth(g, Step(g, s, es[0]), es[1..]);
    }
  }

  /** One call widens the window by one segment, or by two where byte counting may double. */
  lemma OneCallBound(g: Settings, s: State)
    requires Sane(s)
    ensures SlowStarted(g, s).cwnd <= s.cwnd + if g.abc > 1 then 2 else 1
  {
    hide Tri, Drained;
    if Counts(g, s) {
      var c, m := s.cwnd, if g.abc > 1 then 2 else 1;
      IncreaseBound(g, s);
      var r := Drained(s.(cnt := s.cnt + Increase(g, s), bytesAcked := 0));
      TriNext(c);
      TriNext(c + 1);
      TriNext(c + 2);
      if r.cwnd > c + m {
        TriMonotone(c + m + 1, r.cwnd);
      }
    }
  }

  lemma IncreaseBound(g: Settings, s: State)
    ensures Increase(g, s) <= if g.abc > 1 then 2 * s.cwnd else s.cwnd
  {
  }

  /** With any settings, a call that ends below the clamp adds its increase and loses none of it; so the
      window and counter it leaves are the only ones on the line at that point. */
  lemma SlowStartIsDetermined(g: Settings, s: State, cwnd: nat, cnt: nat)
    requires Sane(s) && Counts(g, s) && SlowStarted(g, s).cwnd < s.clamp
    ensures SlowStarted(g, s).cwnd == cwnd && SlowStarted(g, s).cnt == cnt
      <==> Tri(cwnd) + cnt == Credit(s) + Increase(g, s) && cnt < cwnd
  {
    hide Drained, Tri;
    if Tri(cwnd) + cnt == Credit(s) + Increase(g, s) && cnt < cwnd {
      CreditIsUnique(cwnd, cnt, SlowStarted(g, s).cwnd, SlowStarted(g, s).cnt);
    }
  }

  // ----- limited slow start: at most half the limit per acknowledgement

  lemma LimitedStep(g: Settings, s: State, e: Event)
    requires Sane(s) && Limited(g, s) && g.abc <= 1 && (e.limited ==> s.cwnd <= s.ssthresh)
    ensures var r, half := Step(g, s, e), if e.limited then g.maxSsthresh / 2 else 0;
      && Sane(r) && Limited(g, r) && r.clamp == s.clamp && r.ssthresh == s.ssthresh && s.cwnd <= r.cwnd
      && Credit(r) <= Credit(s) + half
      && (g.abc == 0 && r.cwnd < s.clamp ==> Credit(r) == Credit(s) + half)
  {
    hide Drained, Tri;
  }

  lemma OneMore(n: nat, half: nat)
    ensures (n + 1) * half == n * half + half
  {
  }

  /** Every acknowledgement of a run that finds the window limiting finds it in slow start; the last one may leave it. */
  ghost predicate SlowStartsOnly(g: Settings, s: State, es: seq<Event>)
    requires Sane(s)
    decreases es
  {
    if es == [] then true else
      StepKeeps(g, s, es[0]);
      (es[0].limited ==> s.cwnd <= s.ssthresh) && SlowStartsOnly(g, Step(g, s, es[0]), es[1..])
  }

  /** While a run is in slow start above the limit and byte counting does not double, its acknowledgements
      add at most half the limit each, and exactly that much without byte counting below the clamp. */
  lemma {:induction false} LimitedCredit(g: Settings, s: State, es: seq<Event>)
    requires Sane(s) && 0 < g.maxSsthresh < s.cwnd && g.abc <= 1 && SlowStartsOnly(g, s, es)
    ensures Credit(Run(g, s, es)) <= Credit(s) + LimitedCount(es) * (g.maxSsthresh / 2)
    ensures g.abc == 0 && Run(g, s, es).cwnd < s.clamp ==>
      Credit(Run(g, s, es)) == Credit(s) + LimitedCount(es) * (g.maxSsthresh / 2)
    decreases es
  {
    hide Step, Credit;
    RunKeeps(g, s, es);
    if es != [] {
      var half, n := g.maxSsthresh / 2, LimitedCount(es[1..]);
      StepKeeps(g, s, es[0]);
      LimitedStep(g, s, es[0]);
      RunKeeps(g, Step(g, s, es[0]), es[1..]);
      LimitedCredit(g, Step(g, s, es[0]), es[1..]);
      OneMore(n, half);
      assert LimitedCount(es) * half == n * half + if es[0].limited then half else 0;
    }
  }

  /** So widening the window by that much takes at least a window's worth of credit per segment. */
  lemma LimitedGrowth(g: Settings, s: State, es: seq<Event>)
    requires Sane(s) && 0 < g.maxSsthresh < s.cwnd && g.abc <= 1 && SlowStartsOnly(g, s, es)
    ensures (Run(g, s, es).cwnd - s.cwnd) * s.cwnd <= s.cnt + LimitedCount(es) * (g.maxSsthresh / 2)
  {
    hide Run, SlowStartsOnly;
    LimitedCredit(g, s, es);
    RunKeeps(g, s, es);
    TriGrows(s.cwnd, Run(g, s, es).cwnd);
  }

  // ----- byte counting in congestion avoidance

  /** Bytes received so far, counting what the window has already been widened for. */
  ghost function BytesSeen(s: State): nat {
    s.mss * Tri(s.cwnd) + s.bytesAcked
  }

  lemma ByteStep(s: State)
    ensures s.cwnd < s.clamp ==> BytesSeen(ByteCounted(s)) == BytesSeen(s)
  {
    if s.bytesAcked >= s.cwnd * s.mss && s.cwnd < s.clamp {
      assert Tri(s.cwnd + 1) == s.cwnd + Tri(s.cwnd);
      assert s.mss * (s.cwnd + Tri(s.cwnd)) == s.cwnd * s.mss + s.mss * Tri(s.cwnd);
    }
  }

  /** No byte is lost: above the threshold and below the clamp, what has arrived is what the wider window cost
      plus what is left over. */
  lemma {:induction false} BytesAreConserved(g: Settings, s: State, es: seq<Event>)
    requires Sane(s) && g.abc != 0 && s.ssthresh < s.cwnd && Run(g, s, es).cwnd < s.clamp
    ensures BytesSeen(Run(g, s, es)) == BytesSeen(s) + TotalBytes(es)
    decreases es
  {
    hide Tri, ByteCounted, Drained;
    if es != [] {
      StepKeeps(g, s, es[0]);
      RunKeeps(g, Step(g, s, es[0]), es[1..]);
      ByteStep(s.(bytesAcked := s.bytesAcked + es[0].bytes));
      BytesAreConserved(g, Step(g, s, es[0]), es[1..]);
    }
  }

  lemma ByteAvoidance(g: Settings, s: State, e: Event)
    requires Sane(s) && g.abc != 0 && s.ssthresh < s.cwnd < s.clamp && s.bytesAcked < s.cwnd * s.mss
    requires e.limited && e.bytes <= s.cwnd * s.mss
    ensures var t := Step(g, s, e);
      && BytesSeen(t) == BytesSeen(s) + e.bytes && t.bytesAcked < t.cwnd * s.mss
      && s.cwnd * s.mss <= t.cwnd * s.mss && t.cwnd <= s.cwnd + 1
  {
    hide Tri, SlowStarted;
    StepKeeps(g, s, e);
    ByteStep(s.(bytesAcked := s.bytesAcked + e.bytes));
    MulMonotone(s.cwnd, Step(g, s, e).cwnd, s.mss);
  }

  lemma NotYet(s: State, b: nat)
    requires s.cwnd < b && s.bytesAcked < s.cwnd * s.mss
    ensures BytesSeen(s) < s.mss * Tri(b)
  {
    TriNext(s.cwnd);
    TriMonotone(s.cwnd + 1, b);
    hide Tri;
    MulMonotone(Tri(s.cwnd + 1), Tri(b), s.mss);
    assert s.mss * (s.cwnd + Tri(s.cwnd)) == s.cwnd * s.mss + s.mss * Tri(s.cwnd);
  }

  /** With byte counting above the threshold, where every acknowledgement limits and none brings more than a window of
      bytes, the window has reached `b` exactly when the bytes, with those before, are at least the sum of k segments
      over the windows k below `b`. */
  lemma {:induction false} ByteGrowth(g: Settings, s: State, es: seq<Event>, b: nat)
    requires Sane(s) && g.abc != 0 && s.ssthresh < s.cwnd <= b <= s.clamp && s.bytesAcked < s.cwnd * s.mss
    requires forall e <- es :: e.limited && e.bytes <= s.cwnd * s.mss
    ensures Run(g, s, es).cwnd >= b <==> BytesSeen(s) + TotalBytes(es) >= s.mss * Tri(b)
    decreases es
  {
    hide Tri, Step;
    if s.cwnd == b {
      RunKeeps(g, s, es);
    } else if es == [] {
      NotYet(s, b);
    } else {
      assert es[0] in es && forall e <- es[1..] :: e in es;
      StepKeeps(g, s, es[0]);
      ByteAvoidance(g, s, es[0]);
      var t := Step(g, s, es[0]);
      ByteGrowth(g, t, es[1..], b);
    }
  }
}

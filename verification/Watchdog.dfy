/**
 The 8-second watchdog in a timed model: every event of the hardware trace takes
 some time, and the gap is the time since the LOAD register was last written.
 */
module Watchdog {
  import opened Register
  import opened DirectFlash
  import opened Pacing
  import FwUpdate

  const RX_TIMEOUT_MS: nat := 3000
  const WATCHDOG_MS: nat := 8000

  datatype Timed = Timed(event: Event, ms: nat)

  function Events(tr: seq<Timed>): (r: seq<Event>)
    ensures |r| == |tr|
  {
    seq(|tr|, i requires 0 <= i < |tr| => tr[i].event)
  }

  /** Time since the last feed, how much of it was not spent waiting, and the longest of both so far. */
  datatype Clock = Clock(gap: nat, work: nat, worstGap: nat, worstWork: nat)

  function Max(a: nat, b: nat): nat {
    if a < b then b else a
  }

  function ClockStep(c: Clock, t: Timed): Clock {
    var gap := c.gap + t.ms;
    var work := if t.event.Await? then c.work else c.work + t.ms;
    var worstGap, worstWork := Max(c.worstGap, gap), Max(c.worstWork, work);
    if t.event.Feed? then Clock(0, 0, worstGap, worstWork) else Clock(gap, work, worstGap, worstWork)
  }

  /** The clock after `tr`, started `slack` milliseconds after a feed. */
  function Elapsed(slack: nat, tr: seq<Timed>): Clock {
    Run(ClockStep, Clock(slack, 0, slack, 0), tr)
  }

  predicate TimeoutsHonoured(tr: seq<Timed>) {
    forall i :: 0 <= i < |tr| && tr[i].event.Await? ==> tr[i].ms <= RX_TIMEOUT_MS
  }

  ghost predicate Bounded(slack: nat, c: Clock, w: Waits) {
    && c.gap <= slack + RX_TIMEOUT_MS * w.since + c.work
    && c.worstGap <= slack + RX_TIMEOUT_MS * w.worst + c.worstWork
    && w.since <= w.worst && c.work <= c.worstWork
  }

  lemma ClockStepBounded(slack: nat, c: Clock, w: Waits, t: Timed)
    requires Bounded(slack, c, w) && (t.event.Await? ==> t.ms <= RX_TIMEOUT_MS)
    ensures Bounded(slack, ClockStep(c, t), WaitStep(w, t.event))
  {
  }

  lemma {:induction false} RunBounded(slack: nat, c: Clock, w: Waits, tr: seq<Timed>)
    requires Bounded(slack, c, w) && TimeoutsHonoured(tr)
    ensures Bounded(slack, Run(ClockStep, c, tr), Run(WaitStep, w, Events(tr)))
    decreases |tr|
  {
    if tr != [] {
      ClockStepBounded(slack, c, w, tr[0]);
      hide Bounded, ClockStep, WaitStep;
      RunBounded(slack, ClockStep(c, tr[0]), WaitStep(w, tr[0].event), tr[1..]);
      assert Events(tr)[1..] == Events(tr[1..]);
    }
  }

  /**
   `tr` times what happened between `before` and `after`; reads honour their
   timeout, and at most `work` is spent not waiting between two feeds.
   */
  ghost predicate Timing(tr: seq<Timed>, before: seq<Event>, after: seq<Event>, slack: nat, work: nat) {
    && before <= after
    && Events(tr) == after[|before|..]
    && TimeoutsHonoured(tr)
    && Elapsed(slack, tr).worstWork <= work
  }

  /**
   The gap bound: entered `slack` after a feed, no paced stretch leaves the
   watchdog unfed for longer than `slack` plus two read timeouts plus `work`.
   */
  lemma GapBound(before: seq<Event>, after: seq<Event>, s: nat, tr: seq<Timed>, slack: nat, work: nat)
    requires Paced(before, after, 0, s) && Timing(tr, before, after, slack, work)
    ensures Elapsed(slack, tr).worstGap <= slack + MAX_WAITS * RX_TIMEOUT_MS + work
  {
    GapOfReads(before, after, MAX_WAITS, tr, slack, work);
  }

  lemma GapOfReads(before: seq<Event>, after: seq<Event>, waits: nat, tr: seq<Timed>, slack: nat, work: nat)
    requires Timing(tr, before, after, slack, work)
    requires Run(WaitStep, Waits(0, 0), after[|before|..]).worst <= waits
    ensures Elapsed(slack, tr).worstGap <= slack + waits * RX_TIMEOUT_MS + work
  {
    RunBounded(slack, Clock(slack, 0, slack, 0), Waits(0, 0), tr);
  }

  // ------------------------------------------- a transaction and the next tick

  /** The most reads between two feeds of a transaction: a refused one never gets to the second. */
  function Reads(r: FwUpdate.Report): nat {
    if r.accepted then MAX_WAITS else 1
  }

  function Awaits(n: nat): (events: seq<Event>)
    ensures |events| == n
  {
    seq(n, _ => Await)
  }

  /**
   From the last feed before a transaction to the next tick's feed, however the
   transaction ends: never more than `Reads` reads without a feed, and that many
   come first of all, followed by a feed - the transaction's own, or the tick's
   when the transaction was refused or stalled before any chunk arrived.
   */
  lemma TransactionThenTick(r: FwUpdate.Report, before: seq<Event>, after: seq<Event>, tick: seq<Event>)
    requires Paced(before, after, 0, MAX_WAITS) && FwUpdate.Opens(r, before, after) && TickShows(after, tick)
    ensures Paced(before, tick, 0, 0)
    ensures Run(WaitStep, Waits(0, 0), tick[|before|..]).worst <= Reads(r)
    ensures before + Awaits(Reads(r)) + [Feed] <= tick
  {
    PacedUntilFeed(before, after, 0);
    if tick == after + [Feed, Mark] {
      assert after + [Feed] + [Mark] == tick;
      PacedQuiet(after + [Feed], [Mark], 0);
      PacedComposes(before, after + [Feed], tick, 0, 0, 0);
    }
    assert Awaits(2) == [Await, Await] && Awaits(1) == [Await];
    if !r.accepted {
      RefusedWaits(tick[|before|..]);
    }
  }

  lemma RefusedWaits(events: seq<Event>)
    requires events == [Await, Feed] || events == [Await, Feed, Mark]
    ensures Run(WaitStep, Waits(0, 0), events).worst == 1
  {
    var rest := events[1..][1..];
    assert Run(WaitStep, Waits(0, 0), events)
        == Run(WaitStep, Waits(1, 1), events[1..])
        == Run(WaitStep, Waits(0, 1), rest);
    QuietRun(Waits(0, 1), rest);
  }

  /**
   Exactly when the watchdog survives a transaction and the tick that follows
   it: no timing lets it expire if and only if the time since the last feed plus
   the work between feeds is at most two seconds - five if the transaction is
   refused. A request right after a tick has one second of slack and is safe; one
   that arrives before the first tick of a boot can have two, and is not.
   */
  lemma WatchdogSafeIff(r: FwUpdate.Report, before: seq<Event>, after: seq<Event>, tick: seq<Event>,
                        slack: nat, work: nat)
    requires Paced(before, after, 0, MAX_WAITS) && FwUpdate.Opens(r, before, after) && TickShows(after, tick)
    ensures (forall tr :: Timing(tr, before, tick, slack, work) ==> Elapsed(slack, tr).worstGap <= WATCHDOG_MS)
       <==> slack + work <= if r.accepted then 2000 else 5000
  {
    hide Paced, FwUpdate.Opens, TickShows, Timing, Elapsed, Awaits;
    TransactionThenTick(r, before, after, tick);
    forall tr | Timing(tr, before, tick, slack, work)
      ensures Elapsed(slack, tr).worstGap <= slack + Reads(r) * RX_TIMEOUT_MS + work
    {
      GapOfReads(before, tick, Reads(r), tr, slack, work);
    }
    var tr := SlowStart(before, tick, Reads(r), slack, work);
  }

  /** The event `events[i]` takes `a` for `i < n`, `w` for `i == n`, and no time after that. */
  function Paused(events: seq<Event>, n: nat, a: nat, w: nat): (tr: seq<Timed>)
    ensures |tr| == |events|
  {
    seq(|events|, i requires 0 <= i < |events| => Timed(events[i], if i < n then a else if i == n then w else 0))
  }

  /** A sender that uses every read timeout up before the first feed. */
  lemma SlowStart(before: seq<Event>, after: seq<Event>, n: nat, slack: nat, work: nat) returns (tr: seq<Timed>)
    requires before + Awaits(n) + [Feed] <= after
    ensures Timing(tr, before, after, slack, work)
    ensures Elapsed(slack, tr).worstGap >= slack + n * RX_TIMEOUT_MS + work
  {
    var events := after[|before|..];
    assert events[..n + 1] == Awaits(n) + [Feed];
    assert forall i :: 0 <= i < n + 1 ==> events[i] == (Awaits(n) + [Feed])[i];
    tr := Paused(events, n, RX_TIMEOUT_MS, work);
    assert Events(tr) == events;
    SlowClock(Clock(slack, 0, slack, 0), tr, n, work);
  }

  lemma {:induction false} SlowClock(c: Clock, tr: seq<Timed>, n: nat, work: nat)
    requires n < |tr| && tr[n] == Timed(Feed, work)
    requires forall i :: 0 <= i < n ==> tr[i] == Timed(Await, RX_TIMEOUT_MS)
    requires forall i :: n < i < |tr| ==> tr[i].ms == 0
    requires c.gap <= c.worstGap && c.work == 0 && c.worstWork <= work
    ensures Run(ClockStep, c, tr).worstGap >= c.gap + n * RX_TIMEOUT_MS + work
    ensures Run(ClockStep, c, tr).worstWork == work
    decreases n
  {
    if n == 0 {
      RestIsFree(ClockStep(c, tr[0]), tr[1..]);
    } else {
      SlowClock(ClockStep(c, tr[0]), tr[1..], n - 1, work);
    }
  }

  lemma {:induction false} RestIsFree(c: Clock, tr: seq<Timed>)
    requires forall i :: 0 <= i < |tr| ==> tr[i].ms == 0
    requires c.gap <= c.worstGap && c.work <= c.worstWork
    ensures Run(ClockStep, c, tr).worstGap == c.worstGap && Run(ClockStep, c, tr).worstWork == c.worstWork
    decreases |tr|
  {
    if tr != [] {
      RestIsFree(ClockStep(c, tr[0]), tr[1..]);
    }
  }

  // --------------------------------------------------- long flash operations

  /** A feed right before every flash window. */
  predicate FedWindows(events: seq<Event>) {
    events == [] || (|events| >= 2 && events[0].Feed? && events[1].Window? && FedWindows(events[2..]))
  }

  lemma {:induction false} FedWindowsConcat(x: seq<Event>, y: seq<Event>)
    requires FedWindows(x) && FedWindows(y)
    ensures FedWindows(x + y)
    decreases |x|
  {
    if x == [] {
      assert x + y == y;
    } else {
      assert (x + y)[2..] == x[2..] + y;
      FedWindowsConcat(x[2..], y);
    }
  }

  lemma {:induction false} EraseIsFed(from: nat, sectors: nat)
    ensures FedWindows(EraseTrace(from, sectors))
    ensures |EraseTrace(from, sectors)| == 2 * sectors
  {
    if sectors > 0 {
      EraseIsFed(from, sectors - 1);
      FedWindowsConcat(EraseTrace(from, sectors - 1), EraseTrace(from, sectors)[2 * (sectors - 1)..]);
    }
  }

  lemma {:induction false} WriteIsFed(windows: seq<(nat, nat)>)
    ensures FedWindows(WindowEvents(windows))
  {
    if windows != [] {
      WriteIsFed(windows[1..]);
      assert WindowEvents(windows)[2..] == WindowEvents(windows[1..]);
    }
  }

  lemma {:induction false} FedRun(c: Clock, tr: seq<Timed>, window: nat, feed: nat)
    requires FedWindows(Events(tr))
    requires forall i :: 0 <= i < |tr| ==> tr[i].ms <= if tr[i].event.Feed? then feed else window
    requires c.gap <= c.worstGap
    ensures Run(ClockStep, c, tr).worstGap <= Max(Max(c.worstGap, c.gap + feed), window + feed)
    decreases |tr|
  {
    if tr != [] {
      var c1 := ClockStep(c, tr[0]);
      var c2 := ClockStep(c1, tr[1]);
      assert Events(tr)[0] == tr[0].event && Events(tr)[1] == tr[1].event;
      assert Run(ClockStep, c, tr) == Run(ClockStep, c1, tr[1..]);
      assert tr[1..][1..] == tr[2..];
      assert Run(ClockStep, c1, tr[1..]) == Run(ClockStep, c2, tr[2..]);
      assert Events(tr)[2..] == Events(tr[2..]);
      FedRun(c2, tr[2..], window, feed);
    }
  }

  /**
   However many sectors are erased, the watchdog only ever has to outlast one
   of them.
   */
  lemma LongErase(from: nat, sectors: nat, tr: seq<Timed>, slack: nat, window: nat, feed: nat)
    requires Events(tr) == EraseTrace(from, sectors)
    requires forall i :: 0 <= i < |tr| ==> tr[i].ms <= if tr[i].event.Feed? then feed else window
    ensures Elapsed(slack, tr).worstGap <= Max(slack, window) + feed
  {
    EraseIsFed(from, sectors);
    FedRun(Clock(slack, 0, slack, 0), tr, window, feed);
  }
}

/**
 How many timed-out reads can lie between two watchdog feeds, counted along the
 event trace of the hardware.
 */
module Pacing {
  import opened Register
  import opened DirectFlash

  /** Reads since the last feed, and the most there ever were between two feeds. */
  datatype Waits = Waits(since: nat, worst: nat)

  function WaitStep(w: Waits, e: Event): Waits {
    match e
    case Feed => w.(since := 0)
    case Await => Waits(w.since + 1, if w.worst < w.since + 1 then w.since + 1 else w.worst)
    case _ => w
  }

  /** The most reads a transaction puts between two feeds. */
  const MAX_WAITS: nat := 2

  /**
   From at most `s0` reads since the last feed, `after` continues `before`
   without ever reaching more than two, and ends with at most `s1`.
   */
  ghost predicate Paced(before: seq<Event>, after: seq<Event>, s0: nat, s1: nat) {
    && before <= after
    && var w := Run(WaitStep, Waits(s0, s0), after[|before|..]);
       w.since <= s1 && w.worst <= MAX_WAITS
  }

  /** What the tick branch does to the hardware: a feed, and possibly the mark of a confirmation. */
  ghost predicate TickShows(before: seq<Event>, after: seq<Event>) {
    after == before + [Feed] || after == before + [Feed, Mark]
  }

  lemma {:induction false} FewerWaits(v: Waits, w: Waits, events: seq<Event>)
    requires v.since <= w.since && v.worst <= w.worst
    ensures Run(WaitStep, v, events).since <= Run(WaitStep, w, events).since
    ensures Run(WaitStep, v, events).worst <= Run(WaitStep, w, events).worst
    decreases |events|
  {
    if events != [] {
      FewerWaits(WaitStep(v, events[0]), WaitStep(w, events[0]), events[1..]);
    }
  }

  lemma {:induction false} WorstIsMonotone(w: Waits, events: seq<Event>)
    requires w.since <= w.worst
    ensures var r := Run(WaitStep, w, events);
            var q := Run(WaitStep, Waits(w.since, w.since), events);
            && r.since == q.since && r.since <= r.worst
            && r.worst == if q.worst < w.worst then w.worst else q.worst
    decreases |events|
  {
    if events != [] {
      var w', q' := WaitStep(w, events[0]), WaitStep(Waits(w.since, w.since), events[0]);
      WorstIsMonotone(w', events[1..]);
      WorstIsMonotone(q', events[1..]);
    }
  }

  lemma PacedComposes(a: seq<Event>, b: seq<Event>, c: seq<Event>, s0: nat, s1: nat, s2: nat)
    requires Paced(a, b, s0, s1) && Paced(b, c, s1, s2)
    ensures Paced(a, c, s0, s2)
  {
    var x, y := b[|a|..], c[|b|..];
    assert c[|a|..] == x + y;
    var w := Run(WaitStep, Waits(s0, s0), x);
    WorstIsMonotone(Waits(s0, s0), x);
    RunConcat(WaitStep, Waits(s0, s0), x, y);
    WorstIsMonotone(w, y);
    FewerWaits(Waits(w.since, w.since), Waits(s1, s1), y);
  }

  predicate Quiet(events: seq<Event>) {
    forall i :: 0 <= i < |events| ==> !events[i].Await?
  }

  lemma {:induction false} QuietRun(w: Waits, events: seq<Event>)
    requires Quiet(events)
    ensures Run(WaitStep, w, events).since <= w.since && Run(WaitStep, w, events).worst == w.worst
    decreases |events|
  {
    if events != [] {
      QuietRun(WaitStep(w, events[0]), events[1..]);
    }
  }

  lemma PacedQuiet(before: seq<Event>, events: seq<Event>, s: nat)
    requires Quiet(events) && s <= MAX_WAITS
    ensures Paced(before, before + events, s, s)
  {
    assert (before + events)[|before|..] == events;
    QuietRun(Waits(s, s), events);
  }

  lemma PacedNothing(t: seq<Event>)
    ensures Paced(t, t, 0, 0)
  {
  }

  lemma PacedFeed(before: seq<Event>, s: nat)
    requires s <= MAX_WAITS
    ensures Paced(before, before + [Feed], s, 0)
  {
    assert (before + [Feed])[|before|..] == [Feed];
    assert Run(WaitStep, Waits(s, s), [Feed]) == WaitStep(Waits(s, s), Feed);
  }

  lemma PacedAwait(before: seq<Event>, s: nat)
    requires s < MAX_WAITS
    ensures Paced(before, before + [Await], s, s + 1)
  {
    assert (before + [Await])[|before|..] == [Await];
    assert Run(WaitStep, Waits(s, s), [Await]) == WaitStep(Waits(s, s), Await);
  }

  lemma PacedGrows(before: seq<Event>, after: seq<Event>, s0: nat, s1: nat)
    requires Paced(before, after, s0, s1)
    ensures before <= after
  {
  }

  /** A feed makes up for whatever came before it. */
  lemma PacedUntilFeed(before: seq<Event>, after: seq<Event>, s0: nat)
    requires Paced(before, after, s0, MAX_WAITS)
    ensures Paced(before, after + [Feed], s0, 0)
  {
    hide Paced;
    PacedFeed(after, MAX_WAITS);
    PacedComposes(before, after, after + [Feed], s0, MAX_WAITS, 0);
  }

  lemma PacedRelax(before: seq<Event>, after: seq<Event>, s0: nat, s1: nat, s2: nat)
    requires Paced(before, after, s0, s1) && s1 <= s2
    ensures Paced(before, after, s0, s2)
  {
  }

  lemma {:induction false} EraseIsQuiet(from: nat, sectors: nat)
    ensures Quiet(EraseTrace(from, sectors))
  {
    if sectors > 0 { EraseIsQuiet(from, sectors - 1); }
  }

  lemma {:induction false} WriteIsQuiet(windows: seq<(nat, nat)>)
    ensures Quiet(WindowEvents(windows))
  {
    if windows != [] { WriteIsQuiet(windows[1..]); }
  }
}

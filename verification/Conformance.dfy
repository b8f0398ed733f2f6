/**
 The models of this project agree with each other: a run of the application is
 a run of the life cycle, and the protocol machine's device ends where the
 transaction it abstracts from does.
 */
module Conformance {
  import opened Nor
  import opened Layout
  import opened Crc32
  import opened SettingsLog
  import opened SettingsHistory
  import opened CommandParser
  import opened UartHandler
  import opened Pacing
  import opened BootContract
  import opened Staging
  import opened FwUpdate
  import opened UpdateSafety
  import opened Application
  import opened ApplicationRuns
  import Dog = Watchdog
  import Life = Lifecycle
  import Link = UpdateLink

  // -------------------------------------------- as a run of the life cycle

  predicate Matches(x: System, d: Life.Device) {
    d.m == x.app.m && d.up == x.up && d.ticked == x.app.confirmed
  }

  lemma UpdateConforms(l: Loader, d: Life.Device, healthy: bool, s: seq<byte>, r: Report, mv: Memory,
                       rest: seq<byte>, m': Memory) returns (d': Life.Device)
    requires d.up && Transaction(l, healthy, s, d.m, r, mv, rest, m')
    ensures Life.Next(l, d, d') && d'.m == m' && d'.ticked == d.ticked && (d'.up <==> !r.outcome.Updated?)
  {
    hide Transaction, HasAll, Trailer;
    VerifiedIsComplete(l, healthy, s, d.m, r, mv, rest, m');
    var candidate :=
      if r.outcome in {MarkFailed, Updated} then Life.Candidate(DfuOf(mv), r.offset, Trailer(s)) else d.candidate;
    d' := d.(m := m', up := r.outcome != Updated, candidate := candidate);
    assert Life.Transact(l, d, d', healthy, s, r, mv, rest);
  }

  lemma VerifiedIsComplete(l: Loader, healthy: bool, s: seq<byte>, m: Memory, r: Report, mv: Memory,
                           rest: seq<byte>, m': Memory)
    requires Transaction(l, healthy, s, m, r, mv, rest, m')
    ensures r.outcome in {MarkFailed, Updated} ==> HasAll(s)
  {
    hide HasAll, Staged, SameOutside, Crc, Le32Nat, Le32;
  }

  /** Every command but the update writes to the settings sector at most. */
  lemma SettingsOnly(l: Loader, healthy: bool, version: seq<byte>, a: App, cmd: Command,
                     s: seq<byte>, script: seq<Poll>, resets: bool, rest: seq<byte>, a': App)
    requires Serves(l, healthy, version, a, cmd, s, script, resets, rest, a') && cmd != CmdFwUpdate
    ensures !resets && a'.confirmed == a.confirmed && SameOutside(a.m, a'.m, SETTINGS, SETTINGS + SECTOR_SIZE)
  {
    hide Set, SameOutside;
    NothingChanged(a.m, SETTINGS, SETTINGS + SECTOR_SIZE);
  }

  lemma UpdateOnly(l: Loader, healthy: bool, version: seq<byte>, a: App, s: seq<byte>, script: seq<Poll>,
                   resets: bool, rest: seq<byte>, a': App) returns (r: Report, mv: Memory)
    requires Serves(l, healthy, version, a, CmdFwUpdate, s, script, resets, rest, a')
    ensures Transaction(l, healthy, s, a.m, r, mv, rest, a'.m) && Timely(script, s, r.outcome)
    ensures Opens(r, a.trace, a'.trace) && Paced(a.trace, a'.trace, 0, MAX_WAITS)
    ensures (resets <==> r.outcome.Updated?) && a'.confirmed == a.confirmed
  {
    hide Transaction, Timely, Opens, Paced;
    r, mv :| Updates(l, healthy, a, s, script, r, mv, rest, a') && (resets <==> r.outcome.Updated?);
  }

  lemma ServeConforms(l: Loader, healthy: bool, version: seq<byte>, x: System, t: Turn, x': System, d: Life.Device)
    returns (d': Life.Device)
    requires t.Serve? && Turns(l, healthy, version, x, t, x') && Matches(x, d)
    ensures Life.Next(l, d, d') && Matches(x', d')
  {
    hide Transaction, Serves, SameOutside, Life.Transact;
    if t.cmd == CmdFwUpdate {
      var r, mv := UpdateOnly(l, healthy, version, x.app, t.s, t.script, !x'.up, t.rest, x'.app);
      d' := UpdateConforms(l, d, healthy, t.s, r, mv, t.rest, x'.app.m);
    } else {
      SettingsOnly(l, healthy, version, x.app, t.cmd, t.s, t.script, !x'.up, t.rest, x'.app);
      d' := d.(m := x'.app.m);
      assert Life.SettingsWrite(d, d');
    }
  }

  lemma TickConforms(l: Loader, healthy: bool, version: seq<byte>, x: System, t: Turn, x': System, d: Life.Device)
    returns (d': Life.Device)
    requires Sound(l) && t.Tick? && Turns(l, healthy, version, x, t, x') && Matches(x, d)
    ensures Life.Next(l, d, d') && Matches(x', d')
  {
    assert MarksBooted(l, d.m);
    hide Sound;
    var marked := x'.app.m != d.m;
    var good := if !d.ticked && Seen(PhaseOf(l, d.m)) == Swap && marked then ActiveOf(d.m) else d.good;
    d' := d.(m := x'.app.m, ticked := true, good := good);
    assert Life.Tick(l, d, d', marked);
  }

  lemma BootConforms(l: Loader, healthy: bool, version: seq<byte>, x: System, t: Turn, x': System, d: Life.Device)
    returns (d': Life.Device)
    requires t.Boot? && Turns(l, healthy, version, x, t, x') && Matches(x, d)
    ensures Life.Next(l, d, d') && Matches(x', d')
  {
    hide LastEntry;
    d' := d.(m := l.prepare(d.m), up := true, ticked := false);
    assert Life.Reset(l, d, d');
  }

  /** Every run of the application, on a healthy or a faulty chip, is a run of the life cycle. */
  lemma {:induction false} RunIsLifeRun(l: Loader, healthy: bool, version: seq<byte>, run: seq<System>,
                                          turns: seq<Turn>)
    returns (life: seq<Life.Device>)
    requires Sound(l) && IsSystemRun(l, healthy, version, run, turns)
    requires PhaseOf(l, run[0].app.m) == Idle
    ensures |life| == |run| && Life.IsRun(l, life)
    ensures forall i :: 0 <= i < |run| ==> Matches(run[i], life[i])
    decreases |turns|
  {
    hide Sound, Turns, Life.Next, PhaseOf;
    if turns == [] {
      var x := run[0];
      return [Life.Device(x.app.m, x.up, x.app.confirmed, ActiveOf(x.app.m), Life.Candidate([], 0, 0))];
    }
    var n := |turns| - 1;
    var front := RunIsLifeRun(l, healthy, version, run[..|run| - 1], turns[..n]);
    var x, t, x', d := run[n], turns[n], run[n + 1], front[n];
    var d';
    match t {
      case Serve(_, _, _, _) => d' := ServeConforms(l, healthy, version, x, t, x', d);
      case Tick => d' := TickConforms(l, healthy, version, x, t, x', d);
      case Boot => d' := BootConforms(l, healthy, version, x, t, x', d);
    }
    life := front + [d'];
  }

  /**
   Power lost at any moment before the mark - the staged memory of any
   transaction, on any chip - is the life cycle's `CutUpdate`, and what follows
   the next boot still has the last confirmed image within reach.
   */
  lemma CutConforms(l: Loader, d: Life.Device, healthy: bool, s: seq<byte>, r: Report, mv: Memory,
                    rest: seq<byte>, m': Memory)
    requires Sound(l) && Life.Inv(l, d) && d.up && Transaction(l, healthy, s, d.m, r, mv, rest, m')
    ensures var cut := d.(m := mv, up := false);
            && Life.Next(l, d, cut)
            && StateOf(mv) == StateOf(d.m) && ActiveOf(mv) == ActiveOf(d.m)
            && exists booted :: Life.Reset(l, cut, booted) && Life.Inv(l, booted)
  {
    hide Crc, Staged, Le32Nat, Le32, HasAll;
    var cut := d.(m := mv, up := false);
    assert Life.CutUpdate(l, d, cut);
    Life.CutKeepsInv(l, d, cut);
    OtherRegion(d.m, mv, DFU, DFU + DFU_SIZE, STATE, SECTOR_SIZE);
    OtherRegion(d.m, mv, DFU, DFU + DFU_SIZE, ACTIVE, ACTIVE_SIZE);
    assert Prepares(l, mv);
    hide Sound, Transaction, Life.Inv;
    var booted := cut.(m := l.prepare(mv), up := true, ticked := false);
    assert Life.Reset(l, cut, booted);
    Life.ResetKeepsInv(l, cut, booted);
  }

  // --------------------------------------------------- an update, end to end

  /**
   From the command to the confirmed image: on a healthy chip with no swap
   pending, an update whose bytes are sent in time and whose CRC is right resets
   the device, boots into exactly the image received, and the first tick confirms
   it. The settings are not touched.
   */
  lemma UpdateEndToEnd(l: Loader, version: seq<byte>, x0: System, t: Turn, x1: System, x2: System, x3: System)
    requires Sound(l) && t.Serve? && t.cmd == CmdFwUpdate && Turns(l, true, version, x0, t, x1)
    requires Turns(l, true, version, x1, Turn.Boot, x2) && Turns(l, true, version, x2, Turn.Tick, x3)
    requires PhaseOf(l, x0.app.m) !in {Marked, Swapped}
    requires Prompt(t.script, t.s) && 1 <= ImageLen(t.s) <= 256 * 1024
    requires Trailer(t.s) == Rfc1952Crc(Image(t.s))
    ensures !x1.up && t.rest == t.s[8 + ImageLen(t.s)..]
    ensures ActiveOf(x2.app.m)[..ImageLen(t.s)] == Image(t.s)
    ensures ActiveOf(x3.app.m) == ActiveOf(x2.app.m) && PhaseOf(l, x3.app.m) == Idle
    ensures SettingsOf(x3.app.m) == SettingsOf(x0.app.m)
  {
    hide Transaction, Le32Nat, Le32, Crc, Rfc1952Crc, Eager, Enough, LastEntry, Sound, Image, Trailer,
         Timely, Opens, Paced;
    var m0, m1, m2 := x0.app.m, x1.app.m, x2.app.m;
    var r, mv := UpdateOnly(l, true, version, x0.app, t.s, t.script, !x1.up, t.rest, x1.app);
    CorrectExchangeInstalls(l, t.script, t.s, m0, r, mv, t.rest, m1);
    CommitOnlyAfterVerification(l, true, t.s, m0, r, mv, t.rest, m1);
    SoundAt(l, m1);
    SoundAt(l, m2);
    BootsImage(l, m1, m2, ImageLen(t.s), Image(t.s));
    MarkKeepsPartitions(m2, l.markBooted(m2));
  }

  lemma SoundAt(l: Loader, m: Memory)
    requires Sound(l)
    ensures MarksUpdated(l, m) && MarksBooted(l, m) && Prepares(l, m)
  {
  }

  lemma BootsImage(l: Loader, m: Memory, m': Memory, len: nat, image: seq<byte>)
    requires Prepares(l, m) && m' == l.prepare(m) && PhaseOf(l, m) == Marked
    requires len <= ACTIVE_SIZE && DfuOf(m)[..len] == image
    ensures ActiveOf(m')[..len] == image && PhaseOf(l, m') == Swapped && SettingsOf(m') == SettingsOf(m)
  {
    hide ActiveOf, DfuOf, SettingsOf, StateOf;
    assert DfuOf(m)[..ACTIVE_SIZE][..len] == DfuOf(m)[..len];
  }

  /** What `Application.Tick` shows on the hardware is what the watchdog model takes a tick for. */
  lemma TickFeeds(l: Loader, healthy: bool, a: App, a': App)
    requires Ticks(l, healthy, a, a')
    ensures TickShows(a.trace, a'.trace)
  {
  }

  /** The watchdog over a served update and the tick after it, from the methods' contracts. */
  lemma ServedUpdateAndWatchdog(l: Loader, healthy: bool, version: seq<byte>, a: App, s: seq<byte>, script: seq<Poll>,
                                resets: bool, rest: seq<byte>, a': App, a'': App, slack: nat, work: nat)
    returns (r: Report)
    requires Serves(l, healthy, version, a, CmdFwUpdate, s, script, resets, rest, a') && Ticks(l, healthy, a', a'')
    ensures (forall tr :: Dog.Timing(tr, a.trace, a''.trace, slack, work) ==> Dog.Elapsed(slack, tr).worstGap <= 8000)
       <==> slack + work <= if r.accepted then 2000 else 5000
  {
    hide Serves, Ticks, Opens, Paced, TickShows, Dog.Timing, Dog.Elapsed;
    var mv;
    r, mv := UpdateOnly(l, healthy, version, a, s, script, resets, rest, a');
    TickFeeds(l, healthy, a', a'');
    Dog.WatchdogSafeIff(r, a.trace, a'.trace, a''.trace, slack, work);
  }

  // ------------------------------------------ the protocol machine's device

  /** The bytes the sender's script puts on the wire after the request line. */
  function Exchange(c: Link.Config): seq<byte> {
    Link.Le32Bytes(c.len) + c.image + Link.Le32Bytes(c.crc)
  }

  lemma ExchangeSlices(head: seq<byte>, image: seq<byte>, tail: seq<byte>)
    requires |head| == 4 && |tail| == 4
    ensures var s, n := head + image + tail, |image|;
            |s| == 8 + n && s[..4] == head && s[4..4 + n] == image && s[4 + n..8 + n] == tail
  {
  }

  lemma ExchangeLen(c: Link.Config)
    requires Link.Good(c)
    ensures |Exchange(c)| == 8 + |c.image| && ImageLen(Exchange(c)) == |c.image|
  {
    hide Le32Nat, Link.Le32Bytes, Link.Good;
    Link.LengthRoundTrip(c.len);
    GoodLength(c);
    ExchangeSlices(Link.Le32Bytes(c.len), c.image, Link.Le32Bytes(c.crc));
  }

  lemma GoodLength(c: Link.Config)
    requires Link.Good(c)
    ensures c.len as nat == |c.image|
  {
    hide Sound;
  }

  lemma ExchangeParts(c: Link.Config)
    requires Link.Good(c)
    ensures var s := Exchange(c);
            && |s| >= 4 && ImageLen(s) == |c.image| && HasAll(s)
            && Image(s) == c.image && Trailer(s) == c.crc
  {
    hide Le32, Le32Nat, Link.Le32Bytes, Link.Good, ImageLen;
    ExchangeLen(c);
    Link.Le32RoundTrip(c.crc);
    ExchangeSlices(Link.Le32Bytes(c.len), c.image, Link.Le32Bytes(c.crc));
  }

  /**
   Where the composed machines end up, sender and channel included, is what the
   transaction relation says of the bytes the script sends: the same verdict and
   the same memory.
   */
  lemma LinkEndsLikeTransaction(c: Link.Config, actions: seq<Link.Action>, end: Link.Link)
    requires Link.Good(c) && c.maxTicks <= 14
    requires Link.Leads(c, Link.Start(c), actions, end)
    requires forall a :: !Link.Enabled(c, end, a)
    ensures HasAll(Exchange(c))
    ensures end.mem == Installed(c.l, Exchange(c), c.m0)
    ensures Verdict(c.l, Exchange(c), c.m0) == if end.sender.Succeeded? then Updated else BadCrc
  {
    hide Crc, Staged, Link.Leads, Link.Enabled, Exchange, HasAll, ImageLen, Image, Trailer, Sound;
    ExchangeParts(c);
    Link.UpdateCompletes(c, actions, end);
  }
}

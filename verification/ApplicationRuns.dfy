/**
 Runs of the whole application - commands, updates, ticks and resets in any
 order - and what they do to the settings and the power output.
 */
module ApplicationRuns {
  import opened Nor
  import opened Register
  import opened Layout
  import opened DirectFlash
  import opened SettingsLog
  import opened SettingsHistory
  import opened RestoreHistory
  import opened FlashStore
  import opened CommandParser
  import opened UartHandler
  import opened BootContract
  import opened Application
  import UpdateSafety

  /** The application on a device that is either running or about to be reset. */
  datatype System = System(app: App, up: bool)

  /** One turn of the main loop, or a reset and the boot that follows it. */
  datatype Turn = Serve(cmd: Command, s: seq<byte>, script: seq<Poll>, rest: seq<byte>) | Tick | Boot

  /** `x'` follows `x` by a turn whose branches are the contracts of `Application`'s methods. */
  ghost predicate Turns(l: Loader, healthy: bool, version: seq<byte>, x: System, t: Turn, x': System) {
    match t
    case Serve(cmd, s, script, rest) =>
      x.up && Serves(l, healthy, version, x.app, cmd, s, script, !x'.up, rest, x'.app)
    case Tick => x.up && x'.up && Ticks(l, healthy, x.app, x'.app)
    case Boot =>
      && x'.up && |l.prepare(x.app.m)| == FLASH_SIZE
      && x'.app == BootState(l.prepare(x.app.m), x'.app.trace, x'.app.tx)
  }

  ghost predicate IsSystemRun(l: Loader, healthy: bool, version: seq<byte>, run: seq<System>, turns: seq<Turn>) {
    && |run| == |turns| + 1
    && forall i :: 0 <= i < |turns| ==> Turns(l, healthy, version, run[i], turns[i], run[i + 1])
  }

  // --------------------------------------------- as a history of the settings

  /** What a turn is to the settings: an assignment, a clean reboot, or nothing. */
  function Occurs(t: Turn): seq<Occurrence> {
    match t
    case Serve(cmd, _, _, _) => if Assignment(cmd).Some? then [Do(Assignment(cmd).value)] else []
    case Tick => []
    case Boot => [Reboot]
  }

  function HistoryOf(turns: seq<Turn>): seq<Occurrence> {
    Expand(Occurs, turns)
  }

  /** The application's pin, entry and settings sector are those of the settings model. */
  ghost predicate Agrees(a: App, o: Output) {
    SettingsOf(a.m) == o.store.sector && a.current == o.store.current && a.pin == o.pin
  }

  lemma AssignAgrees(l: Loader, version: seq<byte>, a: App, u: Update, a': App, o: Output)
    requires Agrees(a, o) && Assigned(true, StoreView(a), u, StoreView(a')) && a'.pin == PinAfter(a.pin, u)
    ensures Agrees(a', OutputStep(o, Do(u)))
  {
    hide Append, Full, LastEntry, SameOutside;
  }

  /** Transactions, ticks and the bootloader leave the settings sector alone. */
  lemma OthersKeepSettings(l: Loader, version: seq<byte>, x: System, t: Turn, x': System)
    requires Sound(l) && Turns(l, true, version, x, t, x') && (t.Serve? ==> Assignment(t.cmd).None?)
    ensures t.Boot? ==> SettingsOf(l.prepare(x.app.m)) == SettingsOf(x.app.m)
    ensures SettingsOf(x'.app.m) == SettingsOf(x.app.m)
  {
    assert Prepares(l, x.app.m) && MarksBooted(l, x.app.m);
    MarkKeepsPartitions(x.app.m, l.markBooted(x.app.m));
    hide Sound, FwUpdate.Transaction, Set, LastEntry;
    if t.Serve? && t.cmd == CmdFwUpdate {
      var r, mv :| Updates(l, true, x.app, t.s, t.script, r, mv, t.rest, x'.app) && (!x'.up <==> r.outcome.Updated?);
      UpdateSafety.CommitOnlyAfterVerification(l, true, t.s, x.app.m, r, mv, t.rest, x'.app.m);
    }
  }

  lemma TurnAgrees(l: Loader, version: seq<byte>, x: System, t: Turn, x': System, o: Output)
    requires Sound(l) && Turns(l, true, version, x, t, x') && Agrees(x.app, o)
    ensures Agrees(x'.app, Run(OutputStep, o, Occurs(t)))
  {
    hide Sound, LastEntry, Updates, Assigned, OutputStep, Agrees;
    if t.Serve? && Assignment(t.cmd).Some? {
      var u := Assignment(t.cmd).value;
      AssignAgrees(l, version, x.app, u, x'.app, o);
      RunOne(o, Do(u));
    } else {
      OthersKeepSettings(l, version, x, t, x');
      OthersAgree(l, version, x, t, x', o);
    }
  }

  lemma RunOne(o: Output, c: Occurrence)
    ensures Run(OutputStep, o, [c]) == OutputStep(o, c)
  {
    hide OutputStep;
    assert [c][1..] == [];
  }

  lemma OthersAgree(l: Loader, version: seq<byte>, x: System, t: Turn, x': System, o: Output)
    requires Turns(l, true, version, x, t, x') && Agrees(x.app, o) && (t.Serve? ==> Assignment(t.cmd).None?)
    requires SettingsOf(x'.app.m) == SettingsOf(x.app.m)
    ensures Agrees(x'.app, Run(OutputStep, o, Occurs(t)))
  {
    hide LastEntry, FwUpdate.Transaction, Set;
    if t.Boot? {
      RunOne(o, Reboot);
    }
  }

  lemma {:induction false} RunAgrees(l: Loader, version: seq<byte>, run: seq<System>, turns: seq<Turn>, o: Output)
    requires Sound(l) && IsSystemRun(l, true, version, run, turns) && Agrees(run[0].app, o)
    ensures Agrees(run[|run| - 1].app, Run(OutputStep, o, HistoryOf(turns)))
    decreases |turns|
  {
    hide Sound, Turns, Agrees, OutputStep, Occurs;
    if turns != [] {
      TurnAgrees(l, version, run[0], turns[0], run[1], o);
      var next := Run(OutputStep, o, Occurs(turns[0]));
      RunAgrees(l, version, run[1..], turns[1..], next);
      RunConcat(OutputStep, o, Occurs(turns[0]), HistoryOf(turns[1..]));
    }
  }

  lemma {:induction false} HistoryIsUncut(turns: seq<Turn>)
    ensures forall i :: 0 <= i < |HistoryOf(turns)| ==> Uncut(HistoryOf(turns)[i])
  {
    if turns != [] {
      HistoryIsUncut(turns[1..]);
      var first, rest := Occurs(turns[0]), HistoryOf(turns[1..]);
      assert HistoryOf(turns) == first + rest;
      assert forall i :: 0 <= i < |first| ==> Uncut(first[i]);
    }
  }

  /**
   The whole application on a healthy chip, updates, ticks and resets included:
   after every run the pin has the level of the last power command or boot, and
   what is in memory and in flash is what was last commanded.
   */
  lemma RunRestores(l: Loader, version: seq<byte>, run: seq<System>, turns: seq<Turn>)
    requires Sound(l) && IsSystemRun(l, true, version, run, turns)
    requires WellFormed(SettingsOf(run[0].app.m))
    requires run[0].app == BootState(run[0].app.m, run[0].app.trace, run[0].app.tx)
    ensures var e, last := LastEntry(SettingsOf(run[0].app.m)), run[|run| - 1].app;
            && last.pin == Level(HistoryOf(turns), e)
            && last.current == Recorded(HistoryOf(turns), e) == LastEntry(SettingsOf(last.m))
            && WellFormed(SettingsOf(last.m))
  {
    hide Sound, WellFormed, LastEntry, Step, HistoryOf, RestoreLevel, Turns;
    var s := SettingsOf(run[0].app.m);
    var h := HistoryOf(turns);
    var start := RestoreHistory.Boot(Booted(s, 0, 0));
    RunAgrees(l, version, run, turns, start);
    HistoryIsUncut(turns);
    RestoreBehaviour(s, h);
    OutputCarriesStore(start, h);
    StoreRecords(s, h);
    LogRefinesRecord(s, h);
  }

  // ------------------------------------------------- in terms of the commands

  // The theorems below name commands and levels, and no function of the model between them.

  ghost predicate SetsPower(t: Turn) { t.Serve? && t.cmd in {CmdPowerOn, CmdPowerOff} }

  ghost predicate SetsMode(t: Turn) { t.Serve? && t.cmd in {CmdRestoreOff, CmdRestoreOn, CmdRestoreLastState} }

  /** A run on a healthy chip that starts with a boot on settings in order. */
  ghost predicate IsHealthyRun(l: Loader, version: seq<byte>, run: seq<System>, turns: seq<Turn>) {
    && Sound(l) && IsSystemRun(l, true, version, run, turns)
    && WellFormed(SettingsOf(run[0].app.m))
    && run[0].app == BootState(run[0].app.m, run[0].app.trace, run[0].app.tx)
  }

  lemma RunStaysInOrder(l: Loader, version: seq<byte>, run: seq<System>, turns: seq<Turn>, k: nat)
    requires IsHealthyRun(l, version, run, turns) && k < |run|
    ensures InOrder(run[k].app)
  {
    hide Sound, WellFormed, LastEntry, Turns;
    RunRestores(l, version, run[..k + 1], turns[..k]);
  }

  function ModeOf(cmd: Command): RestoreMode {
    match cmd
    case CmdRestoreOff => RestoreOff
    case CmdRestoreOn => RestoreOn
    case _ => RestoreLastState
  }

  /** One turn: what it does to the record, and what a boot does to the pin. */
  lemma TurnMeans(l: Loader, version: seq<byte>, x: System, t: Turn, x': System)
    requires Sound(l) && Turns(l, true, version, x, t, x') && InOrder(x.app)
    ensures var e, e' := x.app.current, x'.app.current;
            && (SetsPower(t) ==> e' == e.(power := if t.cmd == CmdPowerOn then PowerOn else PowerOff))
            && (SetsPower(t) ==> x'.app.pin == (t.cmd == CmdPowerOn))
            && (SetsMode(t) ==> x'.app.pin == x.app.pin && e' == e.(mode := ModeOf(t.cmd)))
            && (!SetsPower(t) && !SetsMode(t) ==> e' == e && (t.Boot? || x'.app.pin == x.app.pin))
            && (t.Boot? ==>
                  x'.app.pin == (e'.mode == RestoreOn || (e'.mode == RestoreLastState && e'.power == PowerOn)))
  {
    hide Sound, Serves, LastEntry, WellFormed;
    if t.Serve? {
      CommandMeans(l, true, version, x.app, t.cmd, t.s, t.script, !x'.up, t.rest, x'.app);
    } else {
      OthersKeepSettings(l, version, x, t, x');
    }
  }

  lemma {:induction false} PowerStays(l: Loader, version: seq<byte>, run: seq<System>, turns: seq<Turn>, j: nat, k: nat)
    requires IsHealthyRun(l, version, run, turns) && j <= k < |run|
    requires forall i :: j <= i < k ==> !SetsPower(turns[i])
    ensures run[k].app.current.power == run[j].app.current.power
    decreases k
  {
    hide Sound, Turns, WellFormed, BootState;
    if j < k {
      PowerStays(l, version, run, turns, j, k - 1);
      RunStaysInOrder(l, version, run, turns, k - 1);
      TurnMeans(l, version, run[k - 1], turns[k - 1], run[k]);
    }
  }

  lemma {:induction false} ModeStays(l: Loader, version: seq<byte>, run: seq<System>, turns: seq<Turn>, j: nat, k: nat)
    requires IsHealthyRun(l, version, run, turns) && j <= k < |run|
    requires forall i :: j <= i < k ==> !SetsMode(turns[i])
    ensures run[k].app.current.mode == run[j].app.current.mode
    decreases k
  {
    hide Sound, Turns, WellFormed, BootState;
    if j < k {
      ModeStays(l, version, run, turns, j, k - 1);
      RunStaysInOrder(l, version, run, turns, k - 1);
      TurnMeans(l, version, run[k - 1], turns[k - 1], run[k]);
    }
  }

  lemma {:induction false} PinStays(l: Loader, version: seq<byte>, run: seq<System>, turns: seq<Turn>, j: nat, k: nat)
    requires IsHealthyRun(l, version, run, turns) && j <= k < |run|
    requires forall i :: j <= i < k ==> !SetsPower(turns[i]) && !turns[i].Boot?
    ensures run[k].app.pin == run[j].app.pin
    decreases k
  {
    hide Sound, Turns, WellFormed, BootState;
    if j < k {
      PinStays(l, version, run, turns, j, k - 1);
      RunStaysInOrder(l, version, run, turns, k - 1);
      TurnMeans(l, version, run[k - 1], turns[k - 1], run[k]);
    }
  }

  /**
   The restore mode at work: `m` being the last mode command before a boot and
   `p` the last power command, the boot leaves the output low after
   RESTORE_MODE_OFF, high after RESTORE_MODE_ON, and after RESTORE_MODE_LAST_STATE
   high if and only if the power command was PWR_ON - whatever came between,
   updates, resets and any number of sector wraps included.
   */
  lemma BootRestoresCommands(l: Loader, version: seq<byte>, run: seq<System>, turns: seq<Turn>, m: nat, p: nat, k: nat)
    requires IsHealthyRun(l, version, run, turns)
    requires m < k < |turns| && p < k && turns[k].Boot?
    requires SetsMode(turns[m]) && forall i :: m < i < k ==> !SetsMode(turns[i])
    requires SetsPower(turns[p]) && forall i :: p < i < k ==> !SetsPower(turns[i])
    ensures turns[m].cmd == CmdRestoreOff ==> !run[k + 1].app.pin
    ensures turns[m].cmd == CmdRestoreOn ==> run[k + 1].app.pin
    ensures turns[m].cmd == CmdRestoreLastState ==> (run[k + 1].app.pin <==> turns[p].cmd == CmdPowerOn)
  {
    hide Sound, Turns, WellFormed, BootState;
    RunStaysInOrder(l, version, run, turns, m);
    TurnMeans(l, version, run[m], turns[m], run[m + 1]);
    ModeStays(l, version, run, turns, m + 1, k);
    RunStaysInOrder(l, version, run, turns, p);
    TurnMeans(l, version, run[p], turns[p], run[p + 1]);
    PowerStays(l, version, run, turns, p + 1, k);
    RunStaysInOrder(l, version, run, turns, k);
    TurnMeans(l, version, run[k], turns[k], run[k + 1]);
  }

  /** Between boots the output follows the last power command. */
  lemma PinFollowsCommands(l: Loader, version: seq<byte>, run: seq<System>, turns: seq<Turn>, p: nat, k: nat)
    requires IsHealthyRun(l, version, run, turns)
    requires p < k < |run| && SetsPower(turns[p])
    requires forall i :: p < i < k ==> !SetsPower(turns[i]) && !turns[i].Boot?
    ensures run[k].app.pin <==> turns[p].cmd == CmdPowerOn
  {
    hide Sound, Turns, WellFormed, BootState;
    RunStaysInOrder(l, version, run, turns, p);
    TurnMeans(l, version, run[p], turns[p], run[p + 1]);
    PinStays(l, version, run, turns, p + 1, k);
  }

  /** A device whose settings sector was never written boots with the output low. */
  lemma BlankDeviceBootsLow(m: Memory, trace: seq<Event>, tx: seq<byte>)
    requires Blank(SettingsOf(m), 0, SECTOR_SIZE)
    ensures WellFormed(SettingsOf(m))
    ensures var a := BootState(m, trace, tx); !a.pin && a.current == Entry(PowerOff, RestoreOff)
  {
    hide LastEntry, WellFormed;
    BlankSector(SettingsOf(m));
  }
}

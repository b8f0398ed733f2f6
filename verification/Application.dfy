/**
 The application (src/main.rs): boot, command dispatch and the telemetry tick,
 on top of the driver, the settings store and the update transaction.
 */
module Application {
  import opened Wrappers
  import opened Nor
  import opened Layout
  import opened DirectFlash
  import opened SettingsLog
  import opened SettingsHistory
  import opened RestoreHistory
  import opened FlashStore
  import opened CommandParser
  import opened UartHandler
  import opened BootContract
  import opened Pacing
  import opened FwUpdate

  /** The setting a command assigns, if it assigns one. */
  function Assignment(cmd: Command): Option<Update> {
    match cmd
    case CmdPowerOn => Some(SetPower(PowerOn))
    case CmdPowerOff => Some(SetPower(PowerOff))
    case CmdRestoreOff => Some(SetMode(RestoreOff))
    case CmdRestoreOn => Some(SetMode(RestoreOn))
    case CmdRestoreLastState => Some(SetMode(RestoreLastState))
    case _ => None
  }

  // ------------------------------------------------- the branches, on values

  /** All there is to see of the application: the chip and its trace, what was sent, and the fields of the main loop. */
  datatype App = App(m: Memory, trace: seq<Event>, tx: seq<byte>, current: Entry, pin: bool, confirmed: bool)

  function StoreView(a: App): View {
    View(a.m, a.trace, a.current)
  }

  /** How boot leaves it: the settings read back and the restore mode applied. */
  function BootState(m: Memory, trace: seq<Event>, tx: seq<byte>): App {
    var e := LastEntry(SettingsOf(m));
    App(m, trace, tx, e, RestoreLevel(e), false)
  }

  /** One update transaction on the stream `s`, polled by `script`, of which `rest` is left. */
  ghost predicate Updates(l: Loader, healthy: bool, a: App, s: seq<byte>, script: seq<Poll>, r: Report, mv: Memory,
                          rest: seq<byte>, a': App) {
    && Transaction(l, healthy, s, a.m, r, mv, rest, a'.m)
    && Timely(script, s, r.outcome)
    && Consumed(s, rest)
    && Opens(r, a.trace, a'.trace) && Paced(a.trace, a'.trace, 0, MAX_WAITS)
    && a' == a.(m := a'.m, trace := a'.trace, tx := Transcript(a.tx, r))
  }

  /**
   What a command does, and that it does nothing else: `s` is the receive stream
   behind its line and `script` how it is polled, `rest` what is left of it,
   `version` the VERSION reply.
   */
  ghost predicate Serves(l: Loader, healthy: bool, version: seq<byte>, a: App, cmd: Command,
                         s: seq<byte>, script: seq<Poll>, resets: bool, rest: seq<byte>, a': App) {
    match Assignment(cmd)
    case Some(u) =>
      && !resets && rest == s
      && Assigned(healthy, StoreView(a), u, StoreView(a'))
      && a' == a.(m := a'.m, trace := a'.trace, current := a'.current, pin := PinAfter(a.pin, u))
    case None =>
      if cmd == CmdFwUpdate then
        exists r, mv :: Updates(l, healthy, a, s, script, r, mv, rest, a') && (resets <==> r.outcome.Updated?)
      else !resets && rest == s && a' == a.(tx := if cmd == CmdVersion then a.tx + version else a.tx)
  }

  /**
   A telemetry tick: a feed and, in a boot's first tick if a swap is unconfirmed,
   the mark that confirms it. A failure to mark is ignored.
   */
  ghost predicate Ticks(l: Loader, healthy: bool, a: App, a': App) {
    var unconfirmed := !a.confirmed && Seen(PhaseOf(l, a.m)) == Swap;
    && a' == a.(m := a'.m, trace := a'.trace, confirmed := true)
    && (|| (a'.m == a.m && a'.trace == a.trace + [Feed])
        || (unconfirmed && (a'.m == a.m || a'.m == l.markBooted(a.m)) && a'.trace == a.trace + [Feed, Mark]))
    && (healthy && unconfirmed ==> a'.m == l.markBooted(a.m))
  }

  /** The settings a command may leave behind, in flash too if they were in order before. */
  ghost predicate InOrder(a: App) {
    WellFormed(SettingsOf(a.m)) && a.current == LastEntry(SettingsOf(a.m))
  }

  /** What each setting command means to the pin and to the record, command by command. */
  lemma CommandMeans(l: Loader, healthy: bool, version: seq<byte>, a: App, cmd: Command, s: seq<byte>,
                     script: seq<Poll>, resets: bool, rest: seq<byte>, a': App)
    requires Serves(l, healthy, version, a, cmd, s, script, resets, rest, a')
    ensures cmd == CmdPowerOn ==> a'.pin && a'.current == a.current.(power := PowerOn)
    ensures cmd == CmdPowerOff ==> !a'.pin && a'.current == a.current.(power := PowerOff)
    ensures cmd == CmdRestoreOff ==> a'.pin == a.pin && a'.current == a.current.(mode := RestoreOff)
    ensures cmd == CmdRestoreOn ==> a'.pin == a.pin && a'.current == a.current.(mode := RestoreOn)
    ensures cmd == CmdRestoreLastState ==> a'.pin == a.pin && a'.current == a.current.(mode := RestoreLastState)
    ensures cmd in {CmdVersion, CmdUnknown, CmdFwUpdate} ==> a'.pin == a.pin && a'.current == a.current
    ensures cmd in {CmdVersion, CmdUnknown} ==> a'.m == a.m && a'.trace == a.trace
    ensures cmd != CmdFwUpdate ==> !resets && rest == s && a'.tx == if cmd == CmdVersion then a.tx + version else a.tx
  {
    hide Transaction, Append, Full, LastEntry, WellFormed, SameOutside, EntryTrace;
  }

  /** On a healthy chip no setting command puts the settings out of order. */
  lemma CommandKeepsOrder(l: Loader, version: seq<byte>, a: App, cmd: Command, s: seq<byte>,
                          script: seq<Poll>, resets: bool, rest: seq<byte>, a': App)
    requires Serves(l, true, version, a, cmd, s, script, resets, rest, a') && cmd != CmdFwUpdate
    requires InOrder(a)
    ensures InOrder(a')
  {
    hide Transaction, Append, Full, LastEntry, WellFormed, SameOutside, EntryTrace;
    AppendReadsBack(SettingsOf(a.m), a'.current);
  }

  class Application {
    const flash: DirectFlash
    const uart: UartHandler
    const loader: Loader
    const store: FlashStore
    /** The reply to VERSION. */
    const version: seq<byte>
    var pin: bool
    var bootConfirmed: bool

    ghost predicate Valid()
      reads uart
    {
      && Ready(uart, flash) && store.Valid() && store.flash == flash
      && Sound(loader)
    }

    ghost function State(): App
      requires Valid()
      reads this, uart, store, flash, flash.cells
    {
      App(flash.Mem(), flash.trace, uart.tx, store.current, pin, bootConfirmed)
    }

    /** Boot: read the settings and apply the restore mode. */
    constructor (flash: DirectFlash, uart: UartHandler, loader: Loader, version: seq<byte>)
      requires Ready(uart, flash) && Sound(loader)
      ensures Valid() && this.flash == flash && this.uart == uart && this.loader == loader && this.version == version
      ensures State() == BootState(flash.Mem(), flash.trace, uart.tx)
      ensures var e := LastEntry(SettingsOf(flash.Mem()));
              && store.current == e && !bootConfirmed
              && (pin <==> e.mode == RestoreOn || (e.mode == RestoreLastState && e.power == PowerOn))
    {
      var s := new FlashStore(flash);
      var level := false;
      match s.current.mode {
        case RestoreOff => level := false;
        case RestoreOn => level := true;
        case RestoreLastState => level := s.current.power == PowerOn;
      }
      this.flash := flash;
      this.uart := uart;
      this.loader := loader;
      this.version := version;
      store := s;
      pin := level;
      bootConfirmed := false;
    }

    /** A setting command: the pin and the store take one step, and nothing outside the settings sector changes. */
    method Assign(cmd: Command)
      requires Valid() && Assignment(cmd).Some?
      modifies `pin, store, flash`trace, flash.cells
      ensures Valid()
      ensures pin == PinAfter(old(pin), Assignment(cmd).value)
      ensures Assigned(flash.healthy, old(StoreView(State())), Assignment(cmd).value, StoreView(State()))
    {
      hide Assigned, Sound;
      match cmd
      case CmdPowerOn =>
        pin := true;
        store.SetPowerState(PowerOn);
      case CmdPowerOff =>
        pin := false;
        store.SetPowerState(PowerOff);
      case CmdRestoreOff => store.SetRestoreMode(RestoreOff);
      case CmdRestoreOn => store.SetRestoreMode(RestoreOn);
      case CmdRestoreLastState => store.SetRestoreMode(RestoreLastState);
    }

    /**
     The command branch of the main loop; true if the device resets. Only the
     update command reads on.
     */
    method Dispatch(cmd: Command) returns (resets: bool)
      requires Valid()
      modifies `pin, store, uart, uart.rx, flash`trace, flash.cells
      ensures Valid()
      ensures Serves(loader, flash.healthy, version, old(State()), cmd,
                     old(uart.rx.stream), old(uart.rx.script), resets, uart.rx.stream, State())
      ensures cmd == CmdFwUpdate ==> uart.linePos == 0
      ensures cmd != CmdFwUpdate ==> unchanged(uart.rx) && unchanged(uart`linePos)
    {
      hide Transaction, Sound, Opens, Paced, Consumed, Assigned, Transcript, Timely;
      resets := false;
      if Assignment(cmd).Some? {
        Assign(cmd);
      } else if cmd == CmdFwUpdate {
        var r: Report;
        ghost var mv;
        r, mv := Run(uart, flash, loader);
        assert Updates(loader, flash.healthy, old(State()), old(uart.rx.stream), old(uart.rx.script), r, mv,
                       uart.rx.stream, State());
        resets := r.outcome.Updated?;
      } else if cmd == CmdVersion {
        uart.WriteBytes(version);
      }
    }

    /**
     One race of `read_command` against the ticker. Which of the two wins, and how
     much of the stream is taken, is decided by the polls: a line that is offered
     before a drop is served. A command takes exactly the bytes of its line -
     handing over from lines to binary loses nothing, and no partial line is
     dropped - and has its effect and no other. When the ticker won, the bytes
     taken are in the line buffer and nothing else happened.
     */
    method ServeCommand() returns (cmd: seq<Command>, resets: bool)
      requires Valid()
      modifies `pin, store, uart, uart.rx, uart.line, flash`trace, flash.cells
      ensures Valid()
      ensures Raced(old(uart.Pending()), old(uart.rx.stream), old(uart.rx.script), cmd)
      ensures cmd == [] ==>
        && !resets && State() == old(State())
        && Reached(old(uart.Pending()), old(uart.rx.stream), old(uart.rx.script), [],
                   uart.Pending(), uart.rx.stream, uart.rx.script)
      ensures cmd != [] ==> uart.Pending() == [] && exists s, script ::
        && Reached(old(uart.Pending()), old(uart.rx.stream), old(uart.rx.script), cmd, [], s, script)
        && Serves(loader, flash.healthy, version, old(State()), cmd[0], s, script, resets, uart.rx.stream, State())
    {
      hide Sound, Progress, Serves, Consumed, Raced, Reached;
      cmd := uart.ReadCommand();
      resets := false;
      if cmd != [] {
        ghost var before, s, script := old(uart.rx.stream), uart.rx.stream, uart.rx.script;
        TakenOff(before, s);
        CommandLeavesNothingPending(old(uart.Pending()), before[..|before| - |s|], cmd, uart.Pending());
        assert uart.linePos == 0;
        resets := Dispatch(cmd[0]);
        assert Serves(loader, flash.healthy, version, old(State()), cmd[0], s, script, resets, uart.rx.stream, State());
      }
    }

    /**
     The tick branch of the main loop: feed the watchdog and, the first time
     after a boot, confirm a swapped image to the bootloader.
     */
    method Tick()
      requires Valid()
      modifies `bootConfirmed, flash`trace, flash.cells
      ensures Valid()
      ensures Ticks(loader, flash.healthy, old(State()), State())
      ensures SettingsOf(flash.Mem()) == SettingsOf(old(flash.Mem()))
    {
      hide Sound;
      flash.FeedWatchdog();
      if !bootConfirmed {
        bootConfirmed := true;
        var state := GetState(flash, loader);
        if state == [Swap] {
          MarkBooted(flash, loader);
        }
      }
    }
  }

  /** `let _ = updater.mark_booted()`: a failure is ignored. */
  method MarkBooted(flash: DirectFlash, l: Loader)
    requires flash.Valid() && flash.size == FLASH_SIZE && Sound(l)
    modifies flash`trace, flash.cells
    ensures flash.Mem() == old(flash.Mem()) || flash.Mem() == l.markBooted(old(flash.Mem()))
    ensures flash.healthy ==> flash.Mem() == l.markBooted(old(flash.Mem()))
    ensures SettingsOf(flash.Mem()) == SettingsOf(old(flash.Mem()))
    ensures flash.trace == old(flash.trace) + [Mark]
  {
    var m: Memory := flash.cells[..];
    assert MarksBooted(l, m);
    MarkKeepsPartitions(m, l.markBooted(m));
    flash.trace := flash.trace + [Mark];
    var takes: bool := *;
    if flash.healthy || takes {
      WriteImage(flash, l.markBooted(m));
    }
  }
}

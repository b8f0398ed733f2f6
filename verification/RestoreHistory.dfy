/**
 The power output over whole histories (src/main.rs on top of the settings
 store): what level the pin has after any sequence of commands and boots.
 */
module RestoreHistory {
  import opened Register
  import opened SettingsLog
  import opened SettingsHistory

  /** The level applied at boot. */
  function RestoreLevel(e: Entry): bool {
    match e.mode
    case RestoreOff => false
    case RestoreOn => true
    case RestoreLastState => e.power == PowerOn
  }

  datatype Output = Output(store: Store, pin: bool)

  function Boot(st: Store): Output {
    Output(st, RestoreLevel(st.current))
  }

  /** The pin after a setting was assigned. */
  function PinAfter(pin: bool, u: Update): bool {
    match u
    case SetPower(p) => p == PowerOn
    case SetMode(_) => pin
  }

  /** A power command drives the pin and is recorded; a mode command is recorded; a boot restores. */
  function OutputStep(o: Output, c: Occurrence): Output {
    var st := Step(o.store, c);
    match c
    case Do(u) => Output(st, PinAfter(o.pin, u))
    case Reboot => Boot(st)
    case Interrupted(_, _) => Boot(st)
  }

  // ---------------------------------------------- reading a history backwards

  /** The power state last commanded, `p` if none was. */
  function LastPower(h: seq<Occurrence>, p: PowerState): PowerState {
    if h == [] then p
    else match h[|h| - 1]
      case Do(SetPower(q)) => q
      case _ => LastPower(h[..|h| - 1], p)
  }

  /** The restore mode last set, `m` if none was. */
  function LastMode(h: seq<Occurrence>, m: RestoreMode): RestoreMode {
    if h == [] then m
    else match h[|h| - 1]
      case Do(SetMode(n)) => n
      case _ => LastMode(h[..|h| - 1], m)
  }

  function Recorded(h: seq<Occurrence>, e: Entry): Entry {
    Entry(LastPower(h, e.power), LastMode(h, e.mode))
  }

  /** The level after `h`: that of the last power command, or of the last boot if that came later. */
  function Level(h: seq<Occurrence>, e: Entry): bool {
    if h == [] then RestoreLevel(e)
    else match h[|h| - 1]
      case Do(SetPower(p)) => p == PowerOn
      case Do(SetMode(_)) => Level(h[..|h| - 1], e)
      case _ => RestoreLevel(Recorded(h, e))
  }

  lemma RunSnoc<R, S>(f: (R, S) -> R, r: R, h: seq<S>)
    requires h != []
    ensures Run(f, r, h) == f(Run(f, r, h[..|h| - 1]), h[|h| - 1])
  {
    var front, last := h[..|h| - 1], h[|h| - 1];
    assert h == front + [last];
    RunConcat(f, r, front, [last]);
    var q := Run(f, r, front);
    assert Run(f, q, [last]) == Run(f, f(q, last), [last][1..]);
  }

  lemma {:induction false} PlainRecordIsLast(e: Entry, h: seq<Occurrence>)
    requires forall i :: 0 <= i < |h| ==> Uncut(h[i])
    ensures Run(PlainStep, e, h) == Recorded(h, e)
  {
    if h != [] {
      PlainRecordIsLast(e, h[..|h| - 1]);
      RunSnoc(PlainStep, e, h);
    }
  }

  lemma {:induction false} OutputCarriesStore(o: Output, h: seq<Occurrence>)
    ensures Run(OutputStep, o, h).store == Run(Step, o.store, h)
    decreases |h|
  {
    hide Step;
    if h != [] { OutputCarriesStore(OutputStep(o, h[0]), h[1..]); }
  }

  lemma StoreRecords(s: Sector, h: seq<Occurrence>)
    requires WellFormed(s)
    requires forall i :: 0 <= i < |h| ==> Uncut(h[i])
    ensures Run(Step, Booted(s, 0, 0), h).current == Recorded(h, LastEntry(s))
  {
    hide WellFormed, LastEntry;
    LogRefinesRecord(s, h);
    CleanHistoryIsPlainRecord(Record(LastEntry(s), Used(s)), h);
    PlainRecordIsLast(LastEntry(s), h);
  }

  /**
   Restore behaviour over whole histories: after every history of commands and
   clean boots the pin has the level of the last power command or boot, and a
   boot restores the stated function of the last restore mode set and the last
   power state commanded - across any number of sector wraps.
   */
  lemma {:induction false} RestoreBehaviour(s: Sector, h: seq<Occurrence>)
    requires WellFormed(s)
    requires forall i :: 0 <= i < |h| ==> Uncut(h[i])
    ensures Run(OutputStep, Boot(Booted(s, 0, 0)), h).pin == Level(h, LastEntry(s))
  {
    hide WellFormed, LastEntry, Step;
    var start := Boot(Booted(s, 0, 0));
    if h != [] {
      RestoreBehaviour(s, h[..|h| - 1]);
      RunSnoc(OutputStep, start, h);
      OutputCarriesStore(start, h);
      StoreRecords(s, h);
    }
  }

  /** A boot leaves OFF low and ON high, and LAST_STATE as the power was last commanded. */
  lemma BootLevel(s: Sector, h: seq<Occurrence>)
    requires WellFormed(s) && h != [] && h[|h| - 1] == Reboot
    requires forall i :: 0 <= i < |h| ==> Uncut(h[i])
    ensures var pin, e := Run(OutputStep, Boot(Booted(s, 0, 0)), h).pin, LastEntry(s);
            match LastMode(h, e.mode)
            case RestoreOff => !pin
            case RestoreOn => pin
            case RestoreLastState => pin <==> LastPower(h, e.power) == PowerOn
  {
    hide WellFormed, LastEntry, OutputStep, Boot;
    RestoreBehaviour(s, h);
  }

  /** What `LastPower` means: the last power command there is, wherever it is. */
  lemma {:induction false} LastPowerIs(h: seq<Occurrence>, p: PowerState, j: nat, q: PowerState)
    requires j < |h| && h[j] == Do(SetPower(q))
    requires forall i :: j < i < |h| ==> !(h[i].Do? && h[i].update.SetPower?)
    ensures LastPower(h, p) == q
  {
    if j < |h| - 1 {
      LastPowerIs(h[..|h| - 1], p, j, q);
    }
  }

  /** What `LastMode` means. */
  lemma {:induction false} LastModeIs(h: seq<Occurrence>, m: RestoreMode, j: nat, n: RestoreMode)
    requires j < |h| && h[j] == Do(SetMode(n))
    requires forall i :: j < i < |h| ==> !(h[i].Do? && h[i].update.SetMode?)
    ensures LastMode(h, m) == n
  {
    if j < |h| - 1 {
      LastModeIs(h[..|h| - 1], m, j, n);
    }
  }

  /** The record is what was commanded, not what the pin shows: after an On restore they may differ. */
  lemma PinIsNotTheRecord(s: Sector)
    requires WellFormed(s) && LastEntry(s) == DEFAULT
    ensures var o := Run(OutputStep, Boot(Booted(s, 0, 0)), [Do(SetMode(RestoreOn)), Reboot]);
            o.pin && o.store.current.power == PowerOff
  {
    var h := [Do(SetMode(RestoreOn)), Reboot];
    RestoreBehaviour(s, h);
    OutputCarriesStore(Boot(Booted(s, 0, 0)), h);
    StoreRecords(s, h);
    var front := h[..1];
    assert front == [Do(SetMode(RestoreOn))] && front[..0] == [];
    assert LastPower(front, PowerOff) == PowerOff && LastMode(front, RestoreOff) == RestoreOn;
    assert h[|h| - 1] == Reboot && h[..|h| - 1] == front;
    assert Recorded(h, DEFAULT) == Entry(PowerOff, RestoreOn);
  }

  /**
   With power cuts as well, a boot restores the level of whatever entry the log
   recovered, which `LogRefinesRecord` determines.
   */
  lemma {:induction false} BootRestoresRecovered(s: Sector, h: seq<Occurrence>)
    requires WellFormed(s) && h != [] && !h[|h| - 1].Do?
    ensures var o := Run(OutputStep, Boot(Booted(s, 0, 0)), h);
            var e := Run(RecordStep, Record(LastEntry(s), Used(s)), h).entry;
            o.pin <==> e.mode == RestoreOn || (e.mode == RestoreLastState && e.power == PowerOn)
  {
    hide WellFormed, LastEntry, Step;
    RunSnoc(OutputStep, Boot(Booted(s, 0, 0)), h);
    OutputCarriesStore(Boot(Booted(s, 0, 0)), h);
    LogRefinesRecord(s, h);
  }
}

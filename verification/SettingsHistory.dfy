/**
 Whole histories of the settings store: commands, clean reboots and power cuts
 in any order, over any number of sector wraps.
 */
module SettingsHistory {
  import opened Nor
  import opened Register
  import opened SettingsLog

  datatype Update = SetPower(power: PowerState) | SetMode(mode: RestoreMode)

  /** `Interrupted` is an update during which power fails, followed by a boot. */
  datatype Occurrence = Do(update: Update) | Reboot | Interrupted(during: Update, cut: Cut)

  function Updated(e: Entry, u: Update): Entry {
    match u
    case SetPower(p) => e.(power := p)
    case SetMode(m) => e.(mode := m)
  }

  predicate Changes(e: Entry, u: Update) {
    Updated(e, u) != e
  }

  // -------------------------------------------------------------- the store

  /** The settings sector and `current_entry`, with the erases and writes done so far. */
  datatype Store = Store(sector: Sector, current: Entry, erases: nat, writes: nat)

  function Booted(s: Sector, erases: nat, writes: nat): Store {
    Store(s, LastEntry(s), erases, writes)
  }

  /** `set_power_state` and `set_restore_mode`: persist only an actual change. */
  function Set(st: Store, u: Update): Store {
    if Changes(st.current, u) then
      var e := Updated(st.current, u);
      Store(Append(st.sector, e), e, st.erases + (if Full(st.sector) then 1 else 0), st.writes + 1)
    else st
  }

  function Step(st: Store, c: Occurrence): Store {
    match c
    case Do(u) => Set(st, u)
    case Reboot => Booted(st.sector, st.erases, st.writes)
    case Interrupted(u, cut) =>
      if Changes(st.current, u) && (cut.Torn? ==> cut.programmed <= PAGE_SIZE) then
        Booted(Crashed(st.sector, Updated(st.current, u), cut),
               st.erases + (if cut.Torn? && Full(st.sector) then 1 else 0),
               st.writes + (if cut.Torn? then 1 else 0))
      else Booted(st.sector, st.erases, st.writes)
  }

  ghost predicate Coherent(st: Store) {
    WellFormed(st.sector) && st.current == LastEntry(st.sector)
  }

  // ------------------------------------------------------------- the record

  /** The specification: a record, and how many of the sixteen slots are used. */
  datatype Record = Record(entry: Entry, used: nat)

  function Written(r: Record, e: Entry): Record {
    Record(e, if r.used == SLOTS then 1 else r.used + 1)
  }

  /** What a cut after `j` bytes of the page leaves: with a full sector the old entry is already gone. */
  function Cut(r: Record, e: Entry, j: nat): Record {
    var erased := if r.used == SLOTS then Record(DEFAULT, 0) else r;
    if j == 0 then erased
    else if j == 1 then erased.(used := erased.used + 1)
    else Written(r, e)
  }

  function RecordStep(r: Record, c: Occurrence): Record {
    match c
    case Do(u) => if Changes(r.entry, u) then Written(r, Updated(r.entry, u)) else r
    case Reboot => r
    case Interrupted(u, cut) =>
      if Changes(r.entry, u) && cut.Torn? && cut.programmed <= PAGE_SIZE
      then Cut(r, Updated(r.entry, u), cut.programmed)
      else r
  }

  function Abstract(st: Store): Record {
    Record(st.current, Used(st.sector))
  }

  lemma StepRefines(st: Store, c: Occurrence)
    requires Coherent(st)
    ensures Coherent(Step(st, c))
    ensures Abstract(Step(st, c)) == RecordStep(Abstract(st), c)
  {
    match c
    case Do(u) =>
      if Changes(st.current, u) {
        AppendReadsBack(st.sector, Updated(st.current, u));
      }
    case Reboot =>
    case Interrupted(u, cut) =>
      if Changes(st.current, u) && ValidCut(cut) {
        CrashRecovery(st.sector, Updated(st.current, u), cut);
      }
  }

  /**
   The log refines the record, whatever happens to it: after every history from
   a well-formed sector, the entry in memory and the entry a boot would recover
   are the record's, and the sector is still well formed.
   */
  lemma LogRefinesRecord(s: Sector, history: seq<Occurrence>)
    requires WellFormed(s)
    ensures var st := Run(Step, Booted(s, 0, 0), history);
            && WellFormed(st.sector)
            && st.current == LastEntry(st.sector)
            && st.current == Run(RecordStep, Record(LastEntry(s), Used(s)), history).entry
            && Used(st.sector) == Run(RecordStep, Record(LastEntry(s), Used(s)), history).used
  {
    forall q, c | Coherent(q)
      ensures Coherent(Step(q, c)) && Abstract(Step(q, c)) == RecordStep(Abstract(q), c)
    {
      StepRefines(q, c);
    }
    RunRefines(Step, RecordStep, Coherent, Abstract, Booted(s, 0, 0), history);
  }

  // ---------------------------------------- the record, without the counter

  /** The plain two-field record of the documentation. */
  function PlainStep(e: Entry, c: Occurrence): Entry {
    if c.Do? then Updated(e, c.update) else e
  }

  predicate Uncut(c: Occurrence) {
    !c.Interrupted?
  }

  /**
   Without power cuts the slot counter is invisible: the store is exactly a
   two-field record assigned by its setters.
   */
  lemma {:induction false} CleanHistoryIsPlainRecord(r: Record, history: seq<Occurrence>)
    requires forall i :: 0 <= i < |history| ==> Uncut(history[i])
    ensures Run(RecordStep, r, history).entry == Run(PlainStep, r.entry, history)
    decreases |history|
  {
    if history != [] {
      CleanHistoryIsPlainRecord(RecordStep(r, history[0]), history[1..]);
    }
  }

  /** So after every clean history the store - in memory and as a boot would recover it - is the plain record. */
  lemma StoreIsPlainRecord(s: Sector, history: seq<Occurrence>)
    requires WellFormed(s)
    requires forall i :: 0 <= i < |history| ==> Uncut(history[i])
    ensures var st := Run(Step, Booted(s, 0, 0), history);
            st.current == LastEntry(st.sector) == Run(PlainStep, LastEntry(s), history)
  {
    hide WellFormed, LastEntry, Step, RecordStep, PlainStep;
    LogRefinesRecord(s, history);
    CleanHistoryIsPlainRecord(Record(LastEntry(s), Used(s)), history);
  }

  // ------------------------------------------------------- losing the setting

  /** A mode other than `m`, and never the default one. */
  function OtherMode(m: RestoreMode): (n: RestoreMode)
    ensures n != m && n != RestoreOff
  {
    if m == RestoreOn then RestoreLastState else RestoreOn
  }

  /** From any record with the power on, changes of the mode alone fill the sector. */
  lemma {:induction false} FillUp(r: Record) returns (history: seq<Occurrence>)
    requires r.used <= SLOTS && r.entry.power == PowerOn
    ensures forall i :: 0 <= i < |history| ==> Uncut(history[i])
    ensures Run(RecordStep, r, history).used == SLOTS
    ensures Run(RecordStep, r, history).entry.power == PowerOn
    decreases SLOTS - r.used
  {
    if r.used == SLOTS {
      return [];
    }
    var c := Do(SetMode(OtherMode(r.entry.mode)));
    var rest := FillUp(RecordStep(r, c));
    history := [c] + rest;
    assert history[1..] == rest;
  }

  /**
   The loss is within reach of every device: from every well-formed sector some
   history of commands leads to where a power cut in the next command, between
   the erase and the page program, recovers the default - neither the setting
   that was there nor the one commanded.
   */
  lemma LossIsReachable(s: Sector) returns (history: seq<Occurrence>, u: Update)
    requires WellFormed(s)
    ensures forall i :: 0 <= i < |history| ==> Uncut(history[i])
    ensures var st := Run(Step, Booted(s, 0, 0), history);
            && Changes(st.current, u)
            && st.current != DEFAULT && Updated(st.current, u) != DEFAULT
            && Step(st, Interrupted(u, Torn(0))).current == DEFAULT
  {
    hide WellFormed, LastEntry, Crashed, Append;
    var start := Record(LastEntry(s), Used(s));
    var on := Do(SetPower(PowerOn));
    var rest := FillUp(RecordStep(start, on));
    history := [on] + rest;
    assert history[1..] == rest;
    LogRefinesRecord(s, history);
    var st := Run(Step, Booted(s, 0, 0), history);
    u := SetMode(OtherMode(st.current.mode));
    StepRefines(st, Interrupted(u, Torn(0)));
  }

  // ------------------------------------------------------------------- wear

  /** Slots used after `n` writes starting from `k` used slots. */
  function UsedAfter(k: nat, n: nat): nat
    requires k <= SLOTS
  {
    if n == 0 then k else (k + n - 1) % SLOTS + 1
  }

  /** Erases done by `n` writes starting from `k` used slots. */
  function ErasesAfter(k: nat, n: nat): nat
    requires k <= SLOTS
  {
    if n == 0 then 0 else (k + n - 1) / SLOTS
  }

  ghost predicate Worn(k: nat, st: Store) {
    && k <= SLOTS && Coherent(st)
    && Used(st.sector) == UsedAfter(k, st.writes)
    && st.erases == ErasesAfter(k, st.writes)
  }

  lemma NextWrite(k: nat, n: nat)
    requires k <= SLOTS
    ensures UsedAfter(k, n + 1) == (if UsedAfter(k, n) == SLOTS then 1 else UsedAfter(k, n) + 1)
    ensures ErasesAfter(k, n + 1) == ErasesAfter(k, n) + (if UsedAfter(k, n) == SLOTS then 1 else 0)
  {
  }

  lemma StepWears(k: nat, st: Store, c: Occurrence)
    requires Worn(k, st) && Uncut(c)
    ensures Worn(k, Step(st, c))
  {
    hide UsedAfter, ErasesAfter, Append, Crashed, LastEntry, WellFormed;
    StepRefines(st, c);
    NextWrite(k, st.writes);
  }

  /** How many commands of a history actually change the setting. */
  function ChangeCount(e: Entry, history: seq<Occurrence>): nat
    decreases |history|
  {
    if history == [] then 0
    else (if PlainStep(e, history[0]) != e then 1 else 0) + ChangeCount(PlainStep(e, history[0]), history[1..])
  }

  lemma {:induction false} HistoryWears(k: nat, st: Store, history: seq<Occurrence>)
    requires Worn(k, st)
    requires forall i :: 0 <= i < |history| ==> Uncut(history[i])
    ensures Worn(k, Run(Step, st, history))
    ensures Run(Step, st, history).writes == st.writes + ChangeCount(st.current, history)
    decreases |history|
  {
    if history != [] {
      StepWears(k, st, history[0]);
      HistoryWears(k, Step(st, history[0]), history[1..]);
    }
  }

  /**
   The wear bound, exactly: starting with `k` used slots, a history with n >= 1
   actual changes costs n page programs and (k + n - 1) / 16 sector erases;
   repeated settings cost nothing.
   */
  lemma WearBound(s: Sector, history: seq<Occurrence>)
    requires WellFormed(s)
    requires forall i :: 0 <= i < |history| ==> Uncut(history[i])
    ensures var n := ChangeCount(LastEntry(s), history);
            var st := Run(Step, Booted(s, 0, 0), history);
            && st.writes == n
            && st.erases == if n == 0 then 0 else (Used(s) + n - 1) / 16
  {
    HistoryWears(Used(s), Booted(s, 0, 0), history);
  }
}

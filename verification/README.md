# Firmware model of the JetKVM DC Power Extension

A Dafny model of the firmware's flash driver, settings log, UART front end,
firmware-update protocol and A/B life cycle, of the shell script that drives an
update, of the UF2 converter and of the panic printer, with proofs of what they
promise together. `dafny verify dfyconfig.toml` checks all of it.

Everything stands on one small hardware model, `Nor`: a program is a bytewise
AND, an erase sets whole sectors to 0xFF. Above it:

- `DirectFlash` - the driver as a class over an array of cells: bounds and
  alignment checks, page merging, one-sector erase windows, watchdog feeds. It
  records an event trace (feeds, windows, reads with a timeout, marks).
- `SettingsLog`, `SettingsHistory`, `FlashStore`, `RestoreHistory` - the 16-slot
  log as a value, its histories with reboots and power cuts, the class that
  implements it on the driver, and the power output it restores.
- `CommandParser`, `LineFraming`, `UartHandler` - what a line means, where lines
  end, and the class that reads them in arbitrary fragments under cancellation.
- `Crc32`, `Crc32Burst` (over the generic `Register`) - the bitwise CRC, its
  algebra, and burst detection.
- `BootContract`, `Staging`, `Pacing`, `FwUpdate`, `UpdateSafety` - one update
  transaction as methods against a relation on values, and its consequences.
- `UpdateLink`, `Replies` - sender script and device as two machines joined by
  channels, and the reply lines as text.
- `Lifecycle`, `Application`, `ApplicationRuns`, `Conformance` - runs of the whole
  device, the main loop's branches as methods against relations on values, runs
  of those, and the lemmas that tie the models to each other.
- `Watchdog` - the event traces with time.
- `PanicDigits`, `Uf2` - the two printers and the readers that undo them.
- `Wrappers`, `Ascii` - `Option` and the slice copy two modules share; bytes as the
  text they spell.

## Assumptions

- embassy-boot is not part of the repository. `BootContract.Sound` states what
  is relied on, after the comments in `bootloader/src/main.rs:3-10` and
  `src/fw_update.rs:3-10`: `prepare` swaps a marked image in and keeps the old
  one, reverts an unconfirmed swap, and otherwise changes nothing; the marks
  change the state sector only. Swap, revert and mark are atomic. Run-level
  theorems hold for every loader that is `Sound`, and
  `BootContract.ReferenceLoaderIsSound` shows that there is one.
- A healthy chip follows `Nor`. A faulty chip may leave anything inside the
  range a window touches, and operations on the boot partitions may report
  errors at will. Memory-mapped reads return what the cells hold.
- Power cuts: a sector erase happens completely or not at all; a page is
  programmed byte by byte in ascending order and may stop after any byte.
- The receive ring buffer does not overflow. The executor is an adversary: a
  script decides how much of the stream each poll offers, when a poll fails and
  when a timer wins. What the readers do is stated exactly, as a function of that
  script, and what a prompt script obliges them to is proved from it.
- The target is 32-bit, so a slice length fits `u32` and a failing `checked_add`
  in the driver is an address beyond the chip; unbounded integers are exact. The
  chip size is a multiple of the page size.

## Findings

- A power cut can lose both the old and the new setting: when the sector is full
  and the cut falls between the erase and the second byte of the new entry, the
  next boot recovers the default. `SettingsLog.CrashSafeIff` is the exact
  condition, and `SettingsHistory.LossIsReachable` a history of commands that
  leads there from any well-formed sector; the goal in `TESTING.md:143` does not
  hold without the condition.
- The log does not work from an arbitrary sector. `SettingsLog.ReadsBackIff`
  says exactly from which ones it does.
- The watchdog outlasts an accepted transaction and the tick that follows it
  exactly if the time since the last feed plus the work between feeds - all time
  not spent in a timed read - is at most two seconds; the timing that fails is one of that very transaction's own trace
  (`Watchdog.WatchdogSafeIff`). Before the first tick of a boot one second of
  settling (`src/main.rs:149-154`) and up to one second of ticker
  (`src/main.rs:228`) have passed since the last feed, so a request served then
  leaves no time for the work.
- The sender's `wait_for` counts every line it reads, so it tolerates fourteen
  telemetry lines before `OK` and not fifteen
  (`UpdateLink.UpdateCompletes`, `UpdateLink.FifteenLinesDefeatTheSender`).
- An overlong line is cut at 127 bytes and not discarded: what follows is read
  as a fresh command (`LineFraming.OverlongLineIsCutNotDiscarded`).
- The recorded power state is the one last commanded, not the pin level; after a
  boot in mode `On` they can differ (`RestoreHistory.PinIsNotTheRecord`).
- The protocol comment in `src/fw_update.rs:25` has the device mark after
  `FLASH`; the code marks first (`src/fw_update.rs:175-179`) and so does the
  model. "A failed or interrupted transfer changes nothing"
  (`src/fw_update.rs:32-33`) is true of ACTIVE, the state sector and the
  settings, not of the DFU partition.
- `tools/bin2uf2.py` raises for files whose block addresses or count leave 32
  bits; `Uf2.Packable` is the exact condition.

## Model

| member | source | states |
|---|---|---|
| Nor.MergedProgram | src/direct_flash.rs:170-183 | Programming a page read back from the chip with the data patched in has the effect of programming the data alone. |
| Nor.ProgramsCompose | src/direct_flash.rs:157-187 | Two adjacent programs are one longer program, which is why the head, body and tail steps of a write add up. |
| Nor.ProgramOnBlank | src/direct_flash.rs:141-189 | On erased flash a program stores exactly its data and changes nothing else. |
| Nor.ProgramStoresIff | src/direct_flash.rs:141-189 | For every earlier content, the data reads back if and only if every bit that must be 1 was still 1. |
| Nor.ErasesCompose | src/direct_flash.rs:130-137 | Sector-by-sector erasing is one erase of the whole range. |
| DirectFlash.DirectFlash.FeedWatchdog | src/direct_flash.rs:30-34 | A feed is recorded and changes no cell. |
| DirectFlash.DirectFlash.XipOffOp | src/direct_flash.rs:63-77 | One window: erase, then program, nothing outside the window even on a faulty chip. |
| DirectFlash.DirectFlash.Read | src/direct_flash.rs:98-108 | Fills the caller's buffer with the cells at the offset, or reports out of bounds and leaves the buffer alone. |
| DirectFlash.DirectFlash.Erase | src/direct_flash.rs:119-139 | Checks alignment before bounds; sets exactly `[from, to)` to 0xFF; a refused request changes nothing and feeds nothing. |
| DirectFlash.DirectFlash.EraseSectors | src/direct_flash.rs:130-137 | One window per sector, a feed before each, and the union of the sectors erased. |
| DirectFlash.DirectFlash.Write | src/direct_flash.rs:141-189 | For any offset and data in bounds, each byte becomes old AND new and every other byte stays; out of bounds nothing changes; the exact window sequence. |
| DirectFlash.DirectFlash.ProgramPages | src/direct_flash.rs:160-168 | The fast path programs all whole pages in one fed window, with the effect of a bytewise program. |
| DirectFlash.DirectFlash.MergePage | src/direct_flash.rs:169-186 | The read-merge path has the same bytewise effect for a partial page, inside that page only. |
| DirectFlash.AtMostThreeWindows | src/direct_flash.rs:155-187 | A write uses at most three windows; they ascend without overlap, so no page is programmed twice. |
| Layout.OtherRegion | memory.x:13-26 | A change inside one region of the flash map leaves every disjoint region alone. |
| Layout.MapAsLinked | memory.x:13-26 | The partitions are where and as long as the linker script has them, on sector boundaries, without overlap, DFU a sector longer than ACTIVE. |
| Crc32.MaskedStep | src/fw_update.rs:60-63 | The branch-free masked step is the conditional shift-and-XOR step. |
| Crc32.Update | src/fw_update.rs:57-66 | The nested loops compute the fold of the bit step over all bytes. |
| Crc32.Checksum | src/fw_update.rs:146-167 | The checksum on the wire and of the read-back is that of section 8 of RFC 1952, initial value and final complement included. |
| Crc32.ChecksumIsRfc1952 | src/fw_update.rs:56-66 | The same for the specification function, against the table-driven program with its constants written out. |
| Crc32.CheckValue | src/fw_update.rs:56-66 | The checksum of "123456789" is CBF43926. |
| Crc32.ChunkingInvisible | src/fw_update.rs:116-146 | Folding chunk by chunk equals one pass over the concatenation, for every chunking. |
| Crc32.FoldLinear | src/fw_update.rs:57-66 | The register is GF(2)-linear, jointly in start state and data. |
| Crc32.CollisionIff | src/fw_update.rs:57-66 | Two equal-length images collide if and only if the fold of their difference from zero is zero. |
| Crc32.StepInjective | src/fw_update.rs:60-63 | The bit step never merges two register values. |
| Crc32.StepKernel | src/fw_update.rs:60-63 | Only zero steps to zero. |
| Crc32.BitwiseIsTableDriven | src/fw_update.rs:56-66 | The bit loop equals the table-driven algorithm of section 8 of RFC 1952 on every state and every input. |
| Crc32Burst.FoldIsBitRun | src/fw_update.rs:57-66 | The byte-wise register is a bit-serial register on the image's bits, least significant first. |
| Crc32Burst.ReachesZeroIff | src/fw_update.rs:57-66 | At most 32 bits drive the register to zero from exactly one state, the number they spell. |
| Crc32Burst.WindowInjective | src/fw_update.rs:57-66 | From one state, two different windows of at most 32 bits leave different registers. |
| Crc32Burst.SuffixInjective | src/fw_update.rs:57-66 | A common suffix of any length keeps different registers different. |
| Crc32Burst.BurstDetected | src/fw_update.rs:57-66 | Images that differ only inside 32 consecutive bits have equal CRCs if and only if they are equal, from any start state. |
| Crc32Burst.BurstBoundTight | src/fw_update.rs:56-66 | 33 bits is too many: in any image, at any byte, adding the generator polynomial changes 33 bits and no register. |
| SettingsLog.FormatIff | src/flash_store.rs:37-66 | A slot holds an entry if and only if its first two bytes are the codes 0/1 and 0/1/2 of that entry. |
| SettingsLog.AppendReadsBack | src/flash_store.rs:131-164 | From a well-formed sector a written entry is the one recovered, and one slot more is used, wrapping at sixteen. |
| SettingsLog.AppendProgramsBlankPage | src/flash_store.rs:135-162 | Every entry is programmed onto a fully erased page. |
| SettingsLog.CrashRecovery | src/flash_store.rs:102-164 | For every cut point of a write, the sector stays well formed, and which of old, new or default entry is recovered. |
| SettingsLog.CrashSafeIff | src/flash_store.rs:148-162 | No cut can lose the setting if and only if the sector is not full or the default is the old or the new entry. |
| SettingsLog.ReadsBackIff | src/flash_store.rs:102-164 | From an arbitrary sector, every entry reads back after its write if and only if the sector is full or its tail is clean. |
| SettingsLog.StaleEntryWins | src/flash_store.rs:106-123 | A valid slot behind the free one hides a later write. |
| SettingsLog.StuckModeBit | src/flash_store.rs:135-162 | A cleared bit under the free slot's mode byte turns some write into another entry. |
| SettingsHistory.StepRefines | src/flash_store.rs:92-196 | Each command, reboot and power cut keeps the log coherent and moves it as the specification record moves. |
| SettingsHistory.LogRefinesRecord | src/flash_store.rs:92-196 | After every history with any number of wraps and cuts, the entry in memory is the entry a boot would recover and is the record's. |
| SettingsHistory.StoreIsPlainRecord | src/flash_store.rs:178-196 | Without power cuts the store, in memory and as a boot would recover it, is a plain two-field record assigned by its setters. |
| SettingsHistory.LossIsReachable | src/flash_store.rs:148-162 | From every well-formed sector some history of commands leads to where a cut recovers the default, neither the old setting nor the new. |
| SettingsHistory.WearBound | src/flash_store.rs:135-196 | From k used slots, n >= 1 actual changes cost n programs and floor((k+n-1)/16) erases; repeated settings cost nothing. |
| FlashStore.FlashStore.constructor | src/flash_store.rs:92-99 | A new store holds the entry recovered from flash. |
| FlashStore.FlashStore.ReadLastEntry | src/flash_store.rs:102-128 | The backward scan returns the highest valid slot, or the default. |
| FlashStore.FlashStore.FindFreeSlot | src/flash_store.rs:135-145 | The scan finds the first slot with a blank first byte, or sixteen. |
| FlashStore.FlashStore.PrepareSlot | src/flash_store.rs:135-154 | A full sector is erased and slot 0 chosen; otherwise nothing is touched. |
| FlashStore.FlashStore.WriteEntry | src/flash_store.rs:131-164 | On a healthy chip the sector becomes the log with the entry appended; nothing outside it changes; the exact windows and feeds. |
| FlashStore.FlashStore.Persist | src/flash_store.rs:167-170 | Appends the entry in memory. |
| FlashStore.FlashStore.SetPowerState | src/flash_store.rs:178-183 | One step of the history model: entry, sector and cost; an unchanged setting does no flash operation. |
| FlashStore.FlashStore.SetRestoreMode | src/flash_store.rs:191-196 | The same for the restore mode. |
| CommandParser.ParseExact | src/uart_handler.rs:96-115 | A line is a command if and only if it is that command's name between encoded Unicode white space. |
| CommandParser.SpaceIffWhiteSpace | src/uart_handler.rs:101 | What is trimmed is exactly the encodings of the code points with the property White_Space. |
| CommandParser.CommandLines | src/uart_handler.rs:103-109 | Each of the seven commands as text, with LF, CR LF or no line end, is that command. |
| LineFraming.SegmentIff | src/uart_handler.rs:71-84 | The framing is the only division of the stream into lines that end at a newline or at 127 bytes and nowhere else; no byte is lost or duplicated. |
| LineFraming.NewlineResynchronises | src/uart_handler.rs:71-84 | Framing is a homomorphism at newlines, whatever garbage came before. |
| LineFraming.OverlongLineIsCutNotDiscarded | src/uart_handler.rs:75-83 | 127 bytes without a newline are a line of their own and the rest is framed afresh. |
| UartHandler.UartHandler.AcceptByte | src/uart_handler.rs:73-84 | One byte advances the framing by one byte, and a completed line yields its command. |
| UartHandler.UartHandler.ScanChunk | src/uart_handler.rs:71-84 | The chunk loop takes bytes up to the first completed line, and all of them when there is none. |
| UartHandler.UartHandler.ReadCommand | src/uart_handler.rs:56-93 | Exactly how much is taken, poll by poll, and whether the line or the drop comes first; a line that is there and offered before a drop is served with its command, under any fragmentation and failures; the bytes taken are those of the framing. |
| UartHandler.PromptlyServed | src/uart_handler.rs:63-91 | If the bytes wanted are there and as many polls offer any before a drop, a reader is done and has taken exactly those. |
| UartHandler.OffersAreTaken | src/uart_handler.rs:63-91 | Every poll that offers anything moves a reader on until the stream is empty or it is done. |
| UartHandler.DoneMeans | src/uart_handler.rs:63-91 | A reader is done exactly when it has taken what it wants. |
| UartHandler.LineEndIsFirst | src/uart_handler.rs:79-83 | The end of line a reader waits for is the first place where the line is complete. |
| UartHandler.UartHandler.ReadAll | src/main.rs:235-236 | Over a whole run of races against the ticker, the commands are those of the pure framing of all bytes consumed, and every line within reach of the offers yields its command. |
| UartHandler.UartHandler.ReadExact | src/uart_handler.rs:159-172 | Exactly how much is taken, poll by poll, and whether the read completes; it does when the bytes are there and offered before a drop, and returns exactly the next n bytes in order; a partial line is discarded. |
| UartHandler.CommandsSplitAtNewline | src/uart_handler.rs:71-91 | commands(s+t) = commands(s)+commands(t) whenever s ends in a newline. |
| UartHandler.CommandLeavesNothingPending | src/uart_handler.rs:79-91 | Returning a command leaves no partial line, so the hand-over to binary mode discards none. |
| BootContract.ReferenceLoaderIsSound | bootloader/src/main.rs:3-10 | The contract assumed of embassy-boot can be met. |
| Staging.StageChunk | src/fw_update.rs:128-142 | Erasing the next sector and programming the next chunk turns n staged bytes into n plus the chunk. |
| Staging.StagedKeeps | src/fw_update.rs:112-145 | A staged image reads back from the partition and nothing outside it differs. |
| Pacing.PacedComposes | src/fw_update.rs:118-127 | The count of timed-out reads between feeds composes over consecutive stretches of a transaction. |
| FwUpdate.LittleEndian | src/fw_update.rs:83 | The first byte of a word counts least. |
| FwUpdate.AwaitExact | src/fw_update.rs:118-121 | A timed read delivers the next n bytes, or times out, exactly as the polls decide; with the bytes there and offered in time it does not time out. |
| FwUpdate.DfuErase | src/fw_update.rs:129-132 | An erase of the DFU partition stays inside the partition, bounds-checked. |
| FwUpdate.DfuWrite | src/fw_update.rs:138 | A write to it likewise, with the bytewise effect of the driver. |
| FwUpdate.EraseAhead | src/fw_update.rs:128-137 | The cursor ends at the next sector boundary with everything up to it erased, inside the partition. |
| FwUpdate.StoreChunk | src/fw_update.rs:127-141 | Feed, erase ahead and write extend the staged bytes by the chunk; on a fault only the partition changed. |
| FwUpdate.StageImage | src/fw_update.rs:112-145 | The loop keeps the staging invariant and, however it ends: one ACK per acknowledged chunk, exactly the acknowledged bytes staged, the CRC is that of the bytes received. |
| FwUpdate.StageNext | src/fw_update.rs:116-145 | One turn of the loop, from ACK to ACK, keeps the staging invariant; a turn that stops leaves what was acknowledged. |
| FwUpdate.StagingInvariantMeans | src/fw_update.rs:112-145 | After each ACK DFU[0..offset] is the received bytes, DFU[offset..erased_to] is blank, and ACTIVE, state sector and settings are untouched. |
| FwUpdate.GetState | src/fw_update.rs:99-102 | The state read is the one in the state sector, or none on a fault. |
| FwUpdate.MarkUpdated | src/fw_update.rs:175 | The mark took effect, or failed with or without effect on a faulty chip. |
| FwUpdate.ReadHeader | src/fw_update.rs:75-106 | Length limits, timeout and the refusal during a pending swap, with the reply of each; the flash is untouched. |
| FwUpdate.Install | src/fw_update.rs:159-181 | A mark is attempted if and only if the CRC of what the partition really holds is the sender's; a feed right before the read-back and another right before the mark. |
| FwUpdate.Commit | src/fw_update.rs:146-181 | Timeout, CRC mismatch, read-back mismatch, failed mark or success: which one, what was sent, what changed, and exactly which feeds and marks. |
| FwUpdate.Transfer | src/fw_update.rs:106-181 | Staging and commit together satisfy the transaction relation. |
| FwUpdate.Run | src/fw_update.rs:70-182 | Every transaction satisfies the relation, consumes exactly the exchange, sends exactly the transcript, puts at most two timed reads between feeds, opens with the reads and the feed that its outcome says, and does not time out on a sender that is in time. |
| UpdateSafety.HealthyVerdict | src/fw_update.rs:70-182 | On a healthy chip outcome, bytes consumed and final memory are a function of the stream and the memory, unless the sender goes quiet. |
| UpdateSafety.PromptVerdictMeans | src/fw_update.rs:83-157 | For a sender in time there is no unless: size refused if and only if 0 or over 262144, refused if and only if a swap is marked or unconfirmed, and updated if and only if neither and the trailer is the CRC. |
| UpdateSafety.CorrectExchangeInstalls | src/fw_update.rs:70-182 | A correct exchange sent in time ends up in the partition byte by byte, marked. |
| UpdateSafety.CommitOnlyAfterVerification | src/fw_update.rs:146-178 | On any chip the state sector changes only if received CRC, read-back CRC and sender's CRC agree; ACTIVE and settings never change; a refusal changes nothing. |
| UpdateSafety.FlashBurstNeverCommits | src/fw_update.rs:159-171 | Flash damage within 32 consecutive bits of the staged image is never marked. |
| UpdateSafety.LineBurstNeverCommits | src/fw_update.rs:146-157 | A line error within 32 consecutive bits of the image is never marked. |
| UpdateLink.Le32RoundTrip | tools/uart-fw-update.sh:51-56 | The device reads back the word `le32` prints. |
| UpdateLink.RequestParses | tools/uart-fw-update.sh:59 | The script's request line is the update command. |
| UpdateLink.StepKeeps | tools/uart-fw-update.sh:58-75 | Every step of either machine keeps them in stage and the flash contents as staged so far. |
| UpdateLink.StepWorks | tools/uart-fw-update.sh:58-75 | Every step of every interleaving decreases the work left. |
| UpdateLink.NoDeadlock | tools/uart-fw-update.sh:37-75 | In every invariant state in which one side is unfinished some step is enabled. |
| UpdateLink.UpdateCompletes | tools/uart-fw-update.sh:58-75 | On a fault-free line and a healthy chip, for every image length and interleaving with at most 14 telemetry lines, with a device that reads what the length it parsed asks for: the channel is silent during every flash step, runs are bounded, and at the end both sides agree that the image is marked, or not when the CRC is wrong. |
| Replies.MatchesIsSubstring | tools/uart-fw-update.sh:41-43 | The script's substring test for a reply succeeds on exactly the lines the link model matches. |
| Replies.ErrIsSubstring | tools/uart-fw-update.sh:44 | The test for ERR succeeds on exactly the five error lines. |
| Replies.TranscriptReads | src/fw_update.rs:75-179 | What a transaction sends, as text: OK, RECV, one ACK for every started 4096 bytes, and the last line or lines of its outcome. |
| UpdateLink.SuccessStaysReachable | tools/uart-fw-update.sh:58-75 | Whatever an interleaving has done so far, a correct update can still be finished with the image marked. |
| UpdateLink.FifteenLinesDefeatTheSender | tools/uart-fw-update.sh:37-48 | With fifteen telemetry lines there is a run in which the sender dies on a healthy device. |
| Lifecycle.NextKeepsInv | bootloader/src/main.rs:57-78 | Transaction, cut, tick, settings write and reset each keep the rollback invariant. |
| Lifecycle.RollbackSafety | src/fw_update.rs:98-105 | At every moment of every run ACTIVE holds the last confirmed image, or DFU keeps it and the next unconfirmed reset brings it back; anything else in ACTIVE was verified. |
| Lifecycle.TwoResetsRestore | bootloader/src/main.rs:3-10 | Two resets without a confirming tick restore the confirmed image for good. |
| Lifecycle.UpdateTakesEffect | src/fw_update.rs:173-181 | A committed update runs exactly the received image after the reset, and the first tick makes it the confirmed one. |
| Lifecycle.ConfirmationIff | src/main.rs:287-298 | An unconfirmed swap is confirmed by exactly the first tick of a boot whose mark succeeds, and only a verified image is ever confirmed. |
| Lifecycle.StagingGuardNeeded | src/fw_update.rs:98-105 | Without the refusal to stage during a swap, a write inside the partition would lose the image to fall back to. |
| Conformance.TickConforms | src/main.rs:280-299 | What `Application.Tick` guarantees is a step of the life cycle. |
| Conformance.UpdateConforms | src/main.rs:267-273 | A transaction is a step of the life cycle. |
| Conformance.ServeConforms | src/main.rs:237-279 | What `Application.ServeCommand` guarantees of a command is a step of the life cycle. |
| Conformance.BootConforms | bootloader/src/main.rs:57-78 | A reset and the boot that follows it are a step of the life cycle. |
| Conformance.RunIsLifeRun | src/main.rs:235-368 | Every run of commands, ticks and resets, on a healthy or a faulty chip, is a run of the life cycle with the same memory at every moment. |
| Conformance.CutConforms | src/fw_update.rs:112-171 | The staged memory of any transaction, cut before the mark, is a step of the life cycle, and the boot that follows keeps the rollback invariant. |
| Conformance.UpdateEndToEnd | src/main.rs:267-299 | From the command to the confirmed image: a correct update sent in time resets the device, boots into exactly the image received, and the first tick confirms it. |
| Conformance.ServedUpdateAndWatchdog | src/main.rs:267-281 | The exact watchdog condition for a served update and the tick after it, from the contracts of the application's methods. |
| Conformance.ExchangeParts | tools/uart-fw-update.sh:58-75 | Length, image and CRC as the script sends them are what the device parses. |
| Conformance.LinkEndsLikeTransaction | src/fw_update.rs:70-182 | The composed machines end with the verdict and memory of the transaction relation on the bytes the script sends. |
| Watchdog.GapBound | src/fw_update.rs:118-127 | No paced stretch leaves the watchdog unfed for longer than the slack plus two read timeouts plus the work between feeds. |
| Watchdog.TransactionThenTick | src/main.rs:267-281 | From the last feed before a transaction to the next tick's, however it ends: never more than two reads without a feed - one if it is refused - and that many come first, then a feed. |
| Watchdog.WatchdogSafeIff | src/fw_update.rs:54-174 | For every transaction together with the tick that follows, no timing lets the 8 s watchdog expire if and only if slack plus work is at most two seconds, or five if it is refused. |
| Watchdog.LongErase | src/direct_flash.rs:130-137 | However many sectors are erased, the gap is bounded by one sector's time. |
| Watchdog.EraseIsFed | src/direct_flash.rs:130-137 | Every erase window is preceded by a feed. |
| Watchdog.WriteIsFed | src/direct_flash.rs:159-187 | Every program window is preceded by a feed. |
| RestoreHistory.RestoreBehaviour | src/main.rs:178-195 | After every history of commands and boots the pin has the level of the last power command, or of the last boot by the last mode and the last commanded power state. |
| RestoreHistory.BootLevel | src/main.rs:178-195 | After a boot the pin is low in mode OFF, high in mode ON, and in LAST_STATE high if and only if power was last commanded on. |
| RestoreHistory.LastPowerIs | src/main.rs:241-250 | The power state a history leaves behind is that of its last power command, wherever it is. |
| RestoreHistory.LastModeIs | src/main.rs:251-262 | The mode a history leaves behind is that of its last mode command. |
| RestoreHistory.PinIsNotTheRecord | src/main.rs:183-186 | A history after which pin and recorded power state differ. |
| RestoreHistory.BootRestoresRecovered | src/main.rs:165-195 | With power cuts too, after a boot the pin is high if and only if the entry the record specification gives has mode ON, or LAST_STATE and power on. |
| ApplicationRuns.RunRestores | src/main.rs:178-299 | After every run of the application on a healthy chip, updates and resets included, the pin has the level of the last power command or boot, and memory and flash hold what was last commanded. |
| ApplicationRuns.BootRestoresCommands | src/main.rs:178-262 | In terms of the commands alone: after a boot RESTORE_MODE_OFF leaves the pin low, RESTORE_MODE_ON high, RESTORE_MODE_LAST_STATE high if and only if the last power command was PWR_ON. |
| ApplicationRuns.PinFollowsCommands | src/main.rs:241-250 | Between boots the pin is high if and only if the last power command was PWR_ON. |
| ApplicationRuns.BlankDeviceBootsLow | src/flash_store.rs:75-128 | A blank settings sector boots to power off, mode OFF and a low pin. |
| Application.CommandMeans | src/main.rs:240-277 | Command by command: which level the pin takes, which field of the record changes to what, what is sent, and that nothing else changes. |
| Application.CommandKeepsOrder | src/main.rs:241-262 | On a healthy chip a setting command leaves a well-formed sector from which a boot would recover what is in memory. |
| ApplicationRuns.OthersKeepSettings | src/main.rs:267-299 | Transactions, ticks and the bootloader leave the settings sector alone. |
| Application.Application.constructor | src/main.rs:165-195 | Boot reads the settings; the pin is high if and only if the mode is ON, or LAST_STATE with power on; nothing is confirmed. |
| Application.Application.Assign | src/main.rs:241-262 | A setting command drives the pin and takes one step of the store. |
| Application.Application.Dispatch | src/main.rs:240-278 | Each command has its effect on chip, trace, output, entry and pin, and no other; only the update command, one transaction, reads on, and the device resets exactly when it commits. |
| Application.Application.ServeCommand | src/main.rs:236-278 | Which of command and ticker wins is exactly what the polls decide, and a line offered in time is served; a command takes exactly the bytes of its line and has its effect and no other; when the ticker won, the bytes taken are in the line buffer and nothing else changed. |
| Application.Application.Tick | src/main.rs:280-299 | The watchdog is fed; only the first tick of a boot can mark, only in the swap state, and on a healthy chip then does. |
| Application.MarkBooted | src/main.rs:295-298 | A failed confirmation is ignored and leaves the state unmarked or marked. |
| PanicDigits.Print | src/panic_handler.rs:60-74 | For every u32 the digit loop stays in its ten-byte buffer and leaves the decimal numeral. |
| PanicDigits.DigitIsAscii | src/panic_handler.rs:66 | The byte written for a digit is that digit in ASCII. |
| PanicDigits.DecimalParses | src/panic_handler.rs:60-71 | The numeral is canonical and parses back to the number. |
| PanicDigits.CanonicalIsDecimal | src/panic_handler.rs:60-71 | It is the only canonical numeral of that number. |
| Uf2.Convert | tools/bin2uf2.py:10-22 | The loop produces the block sequence if and only if every field fits 32 bits. |
| Uf2.BlockInNumbers | tools/bin2uf2.py:4-22 | Every block of the file byte by byte: magic numbers, family flag and id, flash address, size, number, count and data. |
| Uf2.BlockRoundTrip | tools/bin2uf2.py:14-22 | Reading a block returns its address, payload, number and count. |
| Uf2.RoundTrip | tools/bin2uf2.py:10-22 | Reading all blocks returns the file at consecutive addresses, from 512*ceil(n/256) bytes. |

## Left out

- BootContract.Sound: embassy-boot's page-by-page swap progress is not part of this model; swap, revert and mark are atomic.
- DirectFlash.DirectFlash.XipOffOp: the ROM calls, register writes and interrupt masking inside a window are represented by their effect on the cells and the trace.
- SettingsLog.CrashRecovery: bit-level torn programs and torn erases are not modelled; the code does not defend against them.
- FwUpdate.MarkUpdated: the driver windows embassy-boot uses for a mark are one event, since its writes to the state sector are not in the repository.
- UartHandler.BufferedRx: ring-buffer overflow and the choice between ready branches in `select` are not modelled; in particular no claim is made that the ticker is ever served under a constant command stream.
- Application.Application.Dispatch: the text of the VERSION reply is a parameter.
- Application.Application.Tick: the INA219 readings and the `f32` status line are not modelled; a status line is a `Telemetry` reply in `UpdateLink`.
- UpdateLink.UpdateCompletes: fault-free channels and a healthy chip; the script's five-second `read` timeout and the device's three-second timeout do not fire there (`FwUpdate.Run` covers the device's).
- ApplicationRuns.RunRestores: the turns of a run end before the next begins; power cuts inside a settings write are in `SettingsHistory.LogRefinesRecord`, inside a transaction in `Conformance.CutConforms`.
- Lifecycle.CutUpdate: a cut between the start of staging and the mark may leave anything in the DFU partition, which allows more than an interrupted write can do.
- Bootloader start-up, oscillator workaround and the jump into the application are hardware sequences without logic of their own.
- Panic text other than the line number, logging macros, build scripts and packaging are plumbing.

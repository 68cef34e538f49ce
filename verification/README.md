# A verified model of the update system

The firmware keeps two images in flash, A and B, boots one of them, receives a new one over a
bus and must survive a power cut at any flash operation. This project models that system in
Dafny and proves what its documentation promises: the boot journal is an atomic register, no
run that keeps to one rule ends in safe mode, an image gets at most three trial boots, the
progress log does not claim bytes that flash does not hold, and the sender's loop ends with a
complete device. A second part proves the arithmetic under the signature check: SHA-512, reduction modulo the group order,
field multiplication and signed sliding windows.

## How it is built

**Flash** (`Flash.dfy`) is a byte array that only clears bits and is erased by sector. Every word
program and every erase takes one unit of a supply; the operation that finds none left is where
the power is cut, and nothing runs after it. So each contract covers every cut point at once. A
word is written whole or not at all; an interrupted erase may leave anything in its sector except
a 16- or 32-byte record with a matching CRC that was not there before.

**Records** (`Crc32.dfy`, `CrcDivision.dfy`, `Journal.dfy`, `Progress.dfy`, `BootLog.dfy`, `HostCodec.dfy`). The
journal, the progress log and the boot log are modelled byte for byte, with the scanning and
writing loops of the source.

**Store** (`Store.dfy`) is what the rest sees of flash: the journal's register, the bytes of the
two slots, the last progress record.

**Transfer** (`Transfer.dfy`, `TransferProofs.dfy`, `Updater.dfy`). The frame handlers are
functions on values, and the class `Updater`, with the fields of the source's `ctx`, is proved
equal to them on the real flash, including what a cut inside a handler can leave.

**Images** (`Image.dfy`, `HostImage.dfy`, `HostNames.dfy`) are validated as the firmware does it, and
the host's tools that build, check and name them are modelled beside it.

**Runs** (`Boot.dfy`, `System.dfy`, `Lifecycle.dfy`, `Device.dfy`, `Trial.dfy`, `Witness.dfy`). The system is a
transition relation over power-ups, resets, confirms, frames and cuts, for any function that
judges the bytes of a slot; `Devices.Live` takes the bootloader, `ota.c` and `update.c` through
any sequence of events, with the checks of `image.c` as that function, and is proved to be such
a run. Where a document promises more than the code keeps, `Witness.dfy` has a run from a device
as it leaves the factory that shows it.

**Session** (`Session.dfy`) is a whole transfer by the sender to the update code, from START to
the verdict, with data frames lost, doubled, swapped and delayed. **Queue** (`Queue.dfy`)
interleaves the interrupt and the main loop step by step.

**Arithmetic** (`Sha512Standard.dfy`, `Sha512Constants.dfy`, `Sha512Example.dfy`, `Sha512.dfy`, `Barrett.dfy`, `Slide.dfy`, `Field.dfy`).
Integers are unbounded in Dafny; the subset types `u32`, `u64`, `i32` and `i64` make every
assignment to one a proof that nothing overflows. `Sha512Standard` restates sections 5.1.2 and
6.4.2 of FIPS 180-4; `Sha512Constants` derives its constants from primes, and `Sha512Example`
checks its steps against the published example.

## Where the code and its documents disagree

- docs/ARCHITECTURE.md:485-509 says a RECEIVING record's bytes are always in flash. That fails in
  two places: a cut of a START that has changed the slot but not yet replaced the record that
  speaks for it (`StartCutExact`, `EraseToRecordGap`, reached in `FalseRecordIsReachable`), and a
  cut inside the erase of a full progress log that brings back an old RECEIVING record
  (`FullLogCutExact`, shown in `FullLogCanLie`). `ClaimsHoldThroughout` covers every run without
  these two outcomes; any other cut, of a full log or not, is allowed in it.
- docs/ARCHITECTURE.md:489-491 says that no slot is pending until FINISH has been accepted. START
  does not take back a pending slot, so a second image received there is trial-booted although
  FINISH never judged it, its version included (`UnjudgedImageBoots`). A trial boots judged bytes
  exactly until a START erases them (`JudgedBytesStay`).
- docs/ARCHITECTURE.md:262-273 bounds the harm of a torn journal record by the chance of a CRC
  collision. The code does better: a torn record reads as nothing or as the whole new state,
  whatever the CRC (`TornIsNothingOrWhole`).
- The comment above FE_CARRY allows |t0| < 2^63; its first addition of 2^25 fits exactly below
  2^63 - 2^25 (`FirstAdditionFits`, `CommentAllowsOverflow`). All callers stay below that.
- A START is refused for the running slot only. During an unconfirmed trial that lets it erase the
  active slot, and from then on resets alone lead to safe mode, however many trials are left
  (`StartRuleIsExact`, `SafeModeIsReachable`). Only the theorems about safe mode and the active
  slot ask for the rule `SparesActive`, which allows every START but one into the active slot
  while another image runs. A START that goes on with a transfer into the active slot spares it
  in that step, but lets later frames write there; the rule keeps it out as well.

## What is assumed of the world

START_A and START_B arrive as a pair, data frames are numbered below the total and carry six
bytes, and flash operations fail only through a power cut or because a bit would have to be set.
For claims about contents, the frames carry the image that START announced, and header CRC and
size tell images apart: two images that agree in both would be resumed as one. Journal numbers
are not bounded: with the last one used, writes show nothing, and the theorems hold on. Only
what has to be counted or recorded in the journal, the trials and the end of a pending image,
needs numbers that last.

## Model

| member | source | states |
|---|---|---|
| Crc32.Crc32Update | firmware/common/crc32.c:3-14 | The two loops compute the CRC register over the message, for any starting value. |
| Crc32.Crc32Of | firmware/common/crc32.c:16-19 | From zero the CRC of the message, complemented at both ends. |
| Crc32.UpdateChains | firmware/common/crc32.c:3-14 | Feeding a message in two pieces gives the CRC of the whole. |
| Crc32.BurstDetected | firmware/common/crc32.c:3-14 | Any change confined to four consecutive bytes, anywhere in a message of any length, changes the CRC. |
| Crc32.FourInjective | firmware/common/crc32.c:7-12 | From any register value, the register after four bytes determines the four bytes. |
| Crc32.AbsorbInjective | firmware/common/crc32.c:7-12 | One byte step is injective in the register. |
| Crc32.CrcBytesTell | firmware/common/journal.c:123-127 | The four stored bytes determine the CRC. |
| CrcDivision.CrcIsRemainder | firmware/common/crc32.c:3-14 | The register of any message is the complement of the remainder that clause 3.2.9 of IEEE 802.3 defines, by long division modulo its generator. |
| CrcDivision.StoredCrcIsCheckSequence | firmware/common/crc32.c:3-19 | The four stored bytes, lowest bit first, are that standard's frame check sequence of the bytes before them. |
| CrcDivision.PolyIsGenerator | firmware/common/crc32.c:10 | The constant is the standard's generator, highest power in the lowest bit. |
| FlashMemory.Flash.EraseSector | firmware/common/flash.c:40-55 | Erases exactly the sector, refuses sectors above 11, and when cut leaves a torn sector with no forged record and everything else intact. |
| FlashMemory.Flash.ProgramWord | firmware/common/flash.c:57-76 | Succeeds exactly for aligned words that only clear bits; writes the whole word or nothing. |
| FlashMemory.Flash.Program | firmware/common/flash.c:78-92 | Writes a prefix of whole words; with power on it succeeds exactly when every word can be programmed as memory stood before the call. |
| FlashMemory.Flash.IsErased | firmware/common/flash.c:94-103 | True exactly when all bytes are 0xFF. |
| FlashMemory.ClearsOn | firmware/common/flash.c:84-89 | Programming the words before does not change whether the next word can be programmed. |
| Journal.BestIsHighest | firmware/common/journal.c:66-78 | The record a bank scan picks is valid and none has a higher number. |
| Journal.DecodeEncode | firmware/common/journal.c:31-48 | Decoding inverts encoding exactly for states whose slots exist. |
| Journal.TornIsNothingOrWhole | firmware/common/journal.c:31-48 | A record cut after any number of words decodes to nothing or to the whole state, whatever the CRC. |
| Journal.BankUsed | firmware/common/journal.c:51-58 | Returns the index just past the last record that is not erased. |
| Journal.RecordDecode | firmware/common/journal.c:31-48 | Returns what the record means: erased, CRC mismatch and impossible slots are refused. |
| Journal.BankBest | firmware/common/journal.c:66-78 | Finds the first of the highest valid records. |
| Journal.CurrentBank | firmware/common/journal.c:90-105 | Finds the current record of the two banks, bank 0 winning ties, or the default state. |
| Journal.JournalRead | firmware/common/journal.c:107-110 | Reads the register and tells whether a record was found. |
| Journal.EraseKeepsCurrent | firmware/common/journal.c:151-158 | Erasing the bank without the current record, wholly or in part, changes neither the current record nor its place. |
| Journal.AppendIsAtomic | firmware/common/journal.c:162-170 | After any number of words of a higher-numbered record, the journal reads as before or as that state. |
| Journal.AppendBelowShowsNothing | firmware/common/journal.c:162-170 | A record with a lower number than the current one, as the wrap at 2^32 makes it, is never read, at any cut. |
| Journal.EraseKeepsTidy | firmware/common/journal.c:132-160 | Erases, cut or not, keep the current bank free of gaps and the other bank older. |
| Journal.AppendKeepsTidy | firmware/common/journal.c:162-170 | Appends, cut or not, keep the current bank free of gaps and the other bank older. |
| Journal.MakeRoom | firmware/common/journal.c:136-160 | Chooses the place of the next record; never erases the bank that holds the current one; changes no state, even when cut. |
| Journal.JournalWrite | firmware/common/journal.c:130-171 | While numbers last, the next read returns the new state numbered one higher, and after a cut exactly the old state or exactly the new one; with the last number used, the write shows nothing. |
| Journal.JournalIsRegister | firmware/common/journal.c:107-171 | After any number of writes, complete or cut, the journal reads as a register that took every complete write and some of the cut ones. |
| HostCodec.PackRecord | tools/bootjournal.py:25-28 | Packs the same sixteen bytes as the firmware. |
| HostCodec.TornRecord | tools/bootjournal.py:31-34 | Builds the same torn record as a cut in the firmware, for any number of words. |
| HostCodec.ParseBank | tools/bootjournal.py:37-49 | Decodes the records up to the first erased one, without a range check; raises exactly when it gets to an incomplete record. |
| HostCodec.CurrentState | tools/bootjournal.py:52-58 | Picks the first highest record over both banks, of any length; raises exactly when parsing one of them does. |
| HostCodec.HostAgrees | tools/bootjournal.py:37-58 | On every journal that the firmware's writes and torn erases can leave, if CRC-valid records name existing slots, host and firmware find the same state. |
| HostCodec.HostAgreesWithoutGaps | tools/bootjournal.py:37-58 | The same on any two banks without gaps. |
| HostCodec.RangeCheckDiffers | firmware/common/journal.c:44-46 | Host and firmware differ on a packed record exactly when its slots do not exist. |
| Progress.TornIsHarmless | firmware/common/progress.c:62-89 | A torn progress record decodes to nothing, to no state, or to the record itself (perhaps with unwritten flags), whatever the CRC. |
| Progress.ProgressCount | firmware/common/progress.c:27-34 | Returns the index just past the last record that is not erased. |
| Progress.ProgressRead | firmware/common/progress.c:51-60 | Returns the last record that decodes. |
| Progress.LastAfterAppend | firmware/common/progress.c:62-89 | After any number of words of a new record the last record is the old one or what the torn record decodes to. |
| Progress.ProgressWrite | firmware/common/progress.c:62-89 | The new record becomes the last, numbered after the old one, unless its bytes read as erased; what each cut can leave instead. |
| Progress.EraseMayLeaveAny | firmware/common/progress.c:67-72 | An interrupted erase of the log can leave any of its records as the only one. |
| BootLog.Get | firmware/common/bootlog.c:35-54 | Returns the entry at a place, or nothing for an erased or torn one or past the end. |
| BootLog.LastNumber | firmware/common/bootlog.c:58-69 | Walks back to the number of the last readable entry. |
| BootLog.Append | firmware/common/bootlog.c:56-93 | Adds any entry behind the last used one, numbered next, and keeps all others unless the log was full; a cut loses no entry of a log that is not full and makes none up. |
| BootLog.EntryShows | firmware/common/bootlog.c:78-92 | An entry with a reason other than 0xFF never reads as erased. |
| Image.ImageValidate | firmware/common/image.c:26-70 | Returns the result of the checks in the source's order, on the SHA-512 of FIPS 180-4. |
| Image.SignatureDecides | firmware/common/image.c:49-58 | Only with a signature that verifies over 32 header bytes and the SHA-512 of the body is an image judged good; with all else right a refused one is BadSignature. |
| Image.ResultNamesTheFault | firmware/common/image.c:26-70 | Each result if and only if it names the first thing that is wrong, in terms of the bytes of header and body. |
| Image.VersionOrder | firmware/common/image.h:68-71 | Packed versions compare by major, then minor, then patch number. |
| HostImage.BuiltImageIsJudged | tools/otaimg.py:82-137 | The firmware's result for any image that the host builds, with each fault it can build in, whatever lies behind it in the slot. |
| HostImage.HostCheckDiffers | tools/otaimg.py:158-174 | The host's check agrees with the firmware's exactly on slots not refused for their place or vectors. |
| HostNames.ResultsAgree | tools/ota_send.py:46-63 | A validation result bears the same name on the console, in a verdict and in the boot log. |
| Image.ErasedNeverValid | firmware/common/image.c:31-33 | A slot whose first word is erased never validates. |
| Image.ValidInOneSlotOnly | firmware/common/image.c:40-42 | No bytes validate in both slots. |
| Image.SampleIsValid | firmware/common/image.c:26-70 | For either slot and any patch version there is an image that passes every check but the signature. |
| Stores.ViewAfterJournal | firmware/common/journal.c:130-171 | A journal write touches nothing but the register, at every cut. |
| Stores.ViewAfterLog | firmware/common/progress.c:62-89 | A progress write touches nothing but the last record, at every cut. |
| Stores.SlotFrame | firmware/common/update.c:247-261 | Changes inside a slot's sector leave journal, log and the other slot alone. |
| Stores.Layout | firmware/common/layout.h:5-15 | Every region starts with its own sector, and every log fills its sector. |
| Updaters.Updater.constructor | firmware/common/update.c:103-112 | The context after initialisation. |
| Updaters.Updater.HandleStartA | firmware/common/update.c:167-174 | Overwrites size and version, at any time. |
| Updaters.Updater.HandleStartB | firmware/common/update.c:176-238 | Refuses, resumes or starts afresh as specified, and leaves one of the specified stores when cut. |
| Updaters.Updater.FlushWindow | firmware/common/update.c:247-261 | Programs the held chunks at the place of the next chunk and records progress after them; fails exactly when flash refuses. |
| Updaters.Updater.HandleData | firmware/common/update.c:263-303 | Accepts the expected chunk only, NAKs a gap once, flushes and acknowledges a full window or the last chunk. |
| Updaters.Updater.HandleFinish | firmware/common/update.c:320-364 | Judges the image as the bootloader will, then marks it pending and records the end; also after a lone START_A. |
| Updaters.Updater.HandleAbort | firmware/common/update.c:366-375 | Records the abort of a running transfer and goes idle; also after a lone START_A. |
| Updaters.Updater.UpdateTick | firmware/common/update.c:498-512 | Counts idle time of a running transfer; the tick that reaches five minutes drops RAM state only. |
| TransferProofs.FlushIsNeverRefused | firmware/common/update.c:247-261 | In a genuine transfer, resumed or not, a flush is word aligned, min(192, remaining) bytes long, inside the slot, and only clears bits. |
| TransferProofs.HeldGrows | firmware/common/update.c:287-291 | An accepted chunk extends the RAM window by exactly its part of the image. |
| TransferProofs.DataKeepsSound | firmware/common/update.c:263-303 | Flash and RAM stay a prefix of the image under loss, duplication and reordering; nothing but the target slot and the log changes. |
| TransferProofs.DataCutKeepsClaim | firmware/common/update.c:247-303 | At every cut inside a flush, of a full log too, the last record still tells the truth, unless the cut brought back an older one. |
| TransferProofs.StartKeepsSound | firmware/common/update.c:176-238 | Accepted, resumed or refused, START leaves a truthful record and a consistent session. |
| TransferProofs.StartCutExact | firmware/common/update.c:212-231 | The claim survives every cut inside an erasing START if and only if the last record does not speak for that slot. |
| TransferProofs.EraseToRecordGap | firmware/common/update.c:224-231 | A cut between erase and record leaves a true claim exactly when all claimed bytes are 0xFF. |
| TransferProofs.FullLogCutExact | firmware/common/progress.c:62-72 | The claim survives every cut of writing a true record if and only if the log was not full or each RECEIVING record in it is still true. |
| TransferProofs.LogOfTransfers | firmware/common/progress.c:62-72 | A log survives every cut if, slot by slot, its RECEIVING records are of one transfer whose newest record is true. |
| TransferProofs.EndKeepsSound | firmware/common/update.c:320-375 | FINISH, ABORT and timeout keep the record true. |
| TransferProofs.FinishSeesTheImage | firmware/common/update.c:326-333 | When FINISH is not INCOMPLETE, the slot holds exactly the image. |
| BootLog.NumbersGoUp | firmware/common/bootlog.c:58-78 | Entries are numbered one more than the last readable one. |
| Lifecycle.RecordsAreNumbered | firmware/common/progress.c:62-75 | Every progress record is numbered one more than the one before. |
| Lifecycle.TimeoutForgets | firmware/common/update.c:498-512 | Five idle minutes drop what RAM holds, and data frames are then answered NOT_STARTED. |
| Boot.Choose | firmware/boot/main.c:146-204 | Decides and records what the decision function says, and leaves the old or the new journal when cut. |
| Boot.BootMain | firmware/boot/main.c:146-230 | The decision is recorded, then logged with its journal number, slot, reason, attempt, results and version; a cut anywhere leaves the old or the new journal, and only journal and boot log are written. |
| Boot.SafeModeExactly | firmware/boot/main.c:160-204 | Safe mode exactly when neither the active slot nor its alternative validates; any chosen slot has validated. |
| Lifecycle.PowerUpSettles | firmware/boot/main.c:160-192 | After a complete power-up an image is pending exactly if it validated with fewer than three trials used, and it runs; any other is dropped from the journal. |
| Lifecycle.PowerUpRuns | firmware/boot/main.c:160-204 | Which image runs when none is on trial. |
| Lifecycle.BootLogTells | firmware/boot/main.c:206-230 | The boot log entry agrees with what runs, with the journal, and with both validations, in the host's names. |
| Lifecycle.ConfirmMakesActive | firmware/common/ota.c:38-66 | A complete confirmation makes the running image active with nothing pending and no trial used, or writes nothing if it already is. |
| Lifecycle.ConfirmedBoots | firmware/boot/main.c:193-195 | The next complete power-up boots a confirmed image, on no trial and without a journal write. |
| Lifecycle.StartIsTaken | firmware/common/update.c:176-238 | START opens a transfer if and only if slot, size and version or force allow it, and else changes nothing in flash and goes idle; it goes on with the same unfinished transfer, or erases. |
| Lifecycle.StartRefusals | firmware/common/update.c:179-202 | The reply to every START, refusals by the host's names. |
| Lifecycle.FinishInstalls | firmware/common/update.c:320-364 | FINISH makes the slot pending if and only if the complete image validates, has the announced size and is not older or was forced. |
| Lifecycle.FinishVerdicts | firmware/common/update.c:305-364 | The verdicts by the host's names, with the number that goes with each. |
| Lifecycle.AbortEnds | firmware/common/update.c:366-375 | ABORT records the end of a running transfer and goes idle. |
| Lifecycle.EndedIsNotResumed | firmware/common/update.c:212-223 | No START goes on with a transfer that FINISH or ABORT has ended. |
| Lifecycle.InterruptedTransferGoesOn | firmware/common/update.c:212-223 | However the device was reset, cut or idle, a welcome START of the same transfer goes on behind the last window in flash. |
| Lifecycle.UpdateTakesHold | firmware/common/ota.c:38-66 | From the FINISH that an update deserves over a trial and a confirmation to the boot of it as the active image. |
| Lifecycle.OnlySignedImagesRun | firmware/common/image.c:49-58 | No power-up ends in an image whose signature does not verify; with a key that verifies nothing, none ends in an image at all. |
| Lifecycle.OnlySignedImagesArePending | firmware/common/update.c:326-345 | No step makes a slot pending whose signature does not verify. |
| Boot.Ota.constructor | firmware/common/ota.c:23-31 | Status fields after initialisation. |
| Boot.Ota.Confirm | firmware/common/ota.c:38-66 | Makes the running image active and clears the trial, atomically under a cut. |
| Systems.StepKeeps | firmware/common/update.c:176-364 | Every event that obeys the START rule, complete or cut, keeps the active and the running slot valid and untouched. |
| Systems.NeverSafeMode | firmware/boot/main.c:160-204 | From a valid active slot no run that obeys the START rule reaches safe mode, loses the active image or boots a slot that did not validate. |
| Systems.ActiveSlotUntouched | firmware/common/update.c:186-196 | Over any stretch of a run a slot stays as it is while it is the active one. |
| Systems.TrialIsCounted | firmware/boot/main.c:176-182 | In any state and whatever is sent, a trial boot is counted in flash before the image runs, and no count is raised beyond three; with the last journal number used, nothing is counted and nothing changes. |
| Systems.AtMostThreeTrials | firmware/boot/main.c:160-192 | At most three trial boots per installed image in every run in which journal numbers last, whatever the slots hold and whatever is sent. |
| Systems.RollbackFollows | firmware/boot/main.c:160-174 | Once the count is used up the next boot boots the active image, or safe mode if that does not validate, and clears the pending one while journal numbers last. |
| Systems.StartSparesActive | firmware/common/update.c:188-191 | START takes the valid image from the active slot exactly when it erases that slot, which only happens while another slot runs. |
| Witnesses.EraseEndsInSafeMode | firmware/boot/main.c:160-204 | After a START that erased the active slot during a trial there is a run of power-ups and resets into safe mode, however many trials are left. |
| Witnesses.StartRuleIsExact | firmware/common/update.c:188-231 | A START that does not resume into the active slot keeps safe mode out of reach of all runs that obey the rule afterwards if and only if it does not erase the active slot. |
| Witnesses.SafeModeIsReachable | firmware/common/update.c:188-231 | A run from the factory into safe mode: update installed, trials unconfirmed, a START into the active slot. |
| Systems.ClaimsHoldThroughout | firmware/common/update.c:212-261 | In every run with genuine frames the last record is true and RAM holds the chunks that follow it, unless a cut brings back an old RECEIVING record or a cut START leaves a record that speaks for the slot it has changed. |
| Witnesses.FalseRecordIsReachable | firmware/common/update.c:224-231 | A run from the factory to a record that claims erased bytes, by one cut in the gap. |
| Witnesses.FullLogCanLie | firmware/common/progress.c:62-89 | A full log with every place used and numbered in order, as the writes of one device leave it, whose interrupted erase leaves a record that claims erased bytes. |
| Witnesses.UnjudgedImageBoots | firmware/common/update.c:212-238 | A run from the factory, within the START rule, to the trial boot of an image that FINISH would refuse for its version. |
| Trials.JudgedBytesStay | firmware/common/update.c:320-364 | From the FINISH that accepted it on, as long as no cut brings back an old record of the slot, the slot holds the judged bytes if and only if no START has erased it. |
| Devices.Device.PowerOn | firmware/boot/main.c:124-255 | Power-up of the code, boot log included, is a step of the system, complete or cut. |
| Devices.Device.Respond | firmware/common/update.c:453-483 | Every event the code handles is a step of the system and writes nothing outside journal, slots, progress log and boot log. |
| Devices.FactoryDevice | firmware/common/journal.c:80-105 | An erased journal and a valid image in slot A are a state from which all run theorems hold. |
| Devices.Live | firmware/boot/main.c:146-255 | The code under any events goes through a run of the system and writes nothing outside journal, slots, progress log and boot log; from a valid active slot and with the START rule, no node is in safe mode. |
| Session.ReceiveKeepsStep | firmware/common/update.c:269-301 | Whatever frame arrives, the sender stays behind the device, replies stay ordered, the latest ACK is on its way, and no more replies can come than before. |
| Session.WindowIsAcknowledged | tools/ota_send.py:284-292 | Once the chunks up to the computed window end have arrived in order the device has flushed up to it. |
| Session.AnswerIsComing | tools/ota_send.py:341-381 | A flushed window that the sender waits for has its ACK on its way. |
| Session.TakenReply | tools/ota_send.py:353-381 | Every reply moves the sender and uses up one: a NAK rewinds it but never behind where it was, an ACK always covers the window it waits for. |
| Session.SendWindow | tools/ota_send.py:278-316 | Puts only chunks of the image, with the corrupted one if there is to be one, and of the window on the bus, and all of them in order when no other fault is injected. |
| Session.TransferLoop | tools/ota_send.py:333-383 | The loop ends within a bound on rounds; unless stopped, cancelled or out of retries after eleven timeouts without progress, the device is complete and no reply is on the way. |
| Session.TransferImage | tools/ota_send.py:318-394 | A verdict is never INCOMPLETE and judges a slot that holds exactly what was sent; with OK that slot is pending while journal numbers last, otherwise the journal is as before. |
| Session.FaultIsInTheImage | tools/ota_send.py:278-282 | A sender with a corrupted chunk sends the frames of an image with one bit turned over. |
| Session.CorruptChunkIsCaught | tests/test_ota_transfer.py:143-151 | With a corrupted chunk anywhere in the body, an image whose header has the right size and CRC is never judged good, and the verdict is BAD_CRC if the image validates without the fault. |
| Session.DataIsReceive | firmware/common/update.c:263-303 | Inside a session a data frame does to counters and replies what the receiver function says. |
| Session.AtTheTotal | tools/ota_send.py:335-386 | A sender at the end meets a complete device and no stale reply before the verdict. |
| Session.CompleteTakesNothing | firmware/common/update.c:274-282 | Late frames change nothing in a complete device. |
| Session.OnlyTheTotalUndoes | firmware/common/update.c:269-274 | A frame undoes a complete transfer exactly when it carries the number of the total. |
| Session.FinishIsIncompleteExactly | firmware/common/update.c:320-330 | FINISH is answered INCOMPLETE exactly when the device is not complete. |
| Queue.StepRefines | firmware/common/update.c:124-137 | Publish appends and release removes the first frame of an abstract queue, every other step leaves it alone, and a frame is refused exactly when 64 wait. |
| Queue.NothingLost | firmware/common/update.c:485-496 | In every interleaving, from any counter value, accepted frames are the delivered ones followed by the waiting ones. |
| Queue.FrameQueue.Enqueue | firmware/common/update.c:130-135 | Appends the frame, or drops it exactly when the queue is full. |
| Queue.FrameQueue.Take | firmware/common/update.c:491-495 | Removes the first frame, or finds the queue empty. |
| Sha512.ScheduleStep | firmware/common/monocypher/monocypher-ed25519.c:161-164 | One in-place update of the 16-word buffer makes the next word of the 80-word schedule. |
| Sha512Constants.RoundConstants | firmware/common/monocypher/monocypher-ed25519.c:121-142 | Word t is the first 64 bits of the fraction of the cube root of the t-th prime (section 4.2.3 of FIPS 180-4), the eighty primes proved prime and complete. |
| Sha512Constants.InitialValue | firmware/common/monocypher/monocypher-ed25519.c:196-205 | The initial hash value is the first 64 bits of the fractions of the square roots of the first eight primes (section 5.3.5). |
| Sha512Example.PaddedBlock | firmware/common/monocypher/monocypher-ed25519.c:275-302 | The padded block of the published example "abc". |
| Sha512Example.NewWords | firmware/common/monocypher/monocypher-ed25519.c:161-164 | The first words that the schedule of the example adds. |
| Sha512Example.FirstRounds | firmware/common/monocypher/monocypher-ed25519.c:151-157 | The registers of the example after one and two rounds. |
| Sha512Example.DigestBytes | firmware/common/monocypher/monocypher-ed25519.c:293-297 | The first bytes of the example's digest from its final words. |
| Sha512.Context.CompressInput | firmware/common/monocypher/monocypher-ed25519.c:144-177 | Compresses the block as section 6.4.2 of FIPS 180-4 does. |
| Sha512.Context.Update | firmware/common/monocypher/monocypher-ed25519.c:212-273 | Appends to the message hashed so far, however it is split. |
| Sha512.Context.Final | firmware/common/monocypher/monocypher-ed25519.c:275-302 | Returns the standard's digest of everything fed in. |
| Sha512.HashInPieces | firmware/common/monocypher/monocypher-ed25519.c:212-302 | Any split of a message over updates gives the digest of the whole, padded and hashed as the standard says. |
| Sha512.Hash | firmware/common/monocypher/monocypher-ed25519.c:304-310 | The standard's digest of a message. |
| Barrett.Multiply | firmware/common/monocypher/monocypher.c:1573-1584 | p + a * b on words, with u64 carries that do not overflow; also the first loop of `mod_l`. |
| Barrett.IsAboveL | firmware/common/monocypher/monocypher.c:1586-1596 | 1 exactly when the number is at least L. |
| Barrett.RemoveL | firmware/common/monocypher/monocypher.c:1602-1611 | The residue of a number below 2L, also when both arrays are the same. |
| Barrett.TimesLTruncated | firmware/common/monocypher/monocypher.c:1636-1643 | The truncated product with L is right up to a multiple of 2^256. |
| Barrett.EstimateIsClose | firmware/common/monocypher/monocypher.c:1631-1634 | Quotient estimate: what is left is below 2L. |
| Barrett.ReciprocalIsR | firmware/common/monocypher/monocypher.c:1616-1619 | The constant is the floor of 2^512 / L. |
| Barrett.ModL | firmware/common/monocypher/monocypher.c:1614-1656 | The result is x mod L for every 512-bit x. |
| Barrett.Reduce | firmware/common/monocypher/monocypher.c:1658-1664 | The 32 bytes are the 64-byte number mod L. |
| Slide.UpperIsByteVal | firmware/common/monocypher/monocypher.c:1478-1482 | The scalar's bits make up its value. |
| Slide.WindowIsWorth | firmware/common/monocypher/monocypher.c:1944-1950 | A signed window is worth its bits, given the rounding above and below it. |
| Slide.DigitBounds | firmware/common/monocypher/monocypher.c:1951-1957 | A digit is odd, below half the window's range, and lies inside the window. |
| Slide.MasksFindPosition | firmware/common/monocypher/monocypher.c:1951-1955 | The three masks find the position of the lowest bit. |
| Slide.SlideCtx.constructor | firmware/common/monocypher/monocypher.c:1917-1936 | Starts above the highest set bit with nothing recoded. |
| Slide.SlideCtx.SlideStep | firmware/common/monocypher/monocypher.c:1938-1962 | Keeps digits found plus digit waiting equal to the bits already looked at, through the u8 wrap; digits are zero or odd and in table range. |
| Slide.Ladder | firmware/common/monocypher/monocypher.c:2002-2018 | For all scalars below 2^253 the merged loop adds up exactly h and s, with every table index in bounds. |
| Slide.OrderFits | firmware/common/monocypher/monocypher.c:1919-1921 | Scalars below L are below 2^253. |
| Fields.FeCarry | firmware/common/monocypher/monocypher.c:1105-1120 | Keeps the number modulo 2^255-19, leaves limbs below 1.1 * 2^25 and 1.1 * 2^24, and no sum or product overflows its i64. |
| Fields.FirstAdditionFits | firmware/common/monocypher/monocypher.c:1045-1053 | On the range of the comment, the first addition fits an i64 exactly below 2^63 - 2^25. |
| Fields.CommentAllowsOverflow | firmware/common/monocypher/monocypher.c:1045-1053 | A t0 that the comment allows and that overflows. |
| Fields.FeMul | firmware/common/monocypher/monocypher.c:1225-1273 | The product modulo 2^255-19 from limbs below 1.65 * 2^26 and 1.65 * 2^25, every product and partial sum within i32 and i64; arrays may alias. |
| Fields.FeSq | firmware/common/monocypher/monocypher.c:1281-1325 | The square, likewise. |
| Fields.ColumnsMultiply | firmware/common/monocypher/monocypher.c:1241-1260 | The ten columns, with their factors 2 and 19, make up the product modulo 2^255-19. |
| Fields.SumOfTightIsLoose | firmware/common/monocypher/monocypher.c:974-975 | One addition or subtraction of carried elements may be multiplied. |
| Fields.SignQuotient | firmware/common/monocypher/monocypher.c:1165-1177 | The first loop of `fe_tobytes` finds 0 or -1 by the sign of the number. |
| Fields.Normalize | firmware/common/monocypher/monocypher.c:1179-1184 | The second loop brings all limbs into their positive range. |
| Fields.FeToBytes | firmware/common/monocypher/monocypher.c:1161-1196 | The bytes are the residue in [0, 2^255-19). |

## Left out

- Bit rot as a free fault.
- Flash operations that fail although power is on and the bits can be programmed; so the bootloader's ignored write results and the FLASH and JOURNAL error replies of START and FINISH do not arise.
- FlashMemory.Flash.EraseSector: assumes that an interrupted erase makes no new CRC-valid record; real flash gives no such guarantee, only a small probability.
- Image.ImageValidate: takes the Ed25519 check as a parameter, because curve group laws are not modelled.
- Updaters.Updater.HandleData: takes frame numbers below the total, as the sender emits them; the source does not check this, and `Session.OnlyTheTotalUndoes` shows what the number of the total does. It also takes no lone START_A in mid-transfer.
- Updaters.Updater.FlushWindow: takes no lone START_A in mid-transfer, which would change the image size under the window.
- Systems.AtMostThreeTrials: journal numbers below 2^32 - 1; at that number writes show nothing (`Journal.JournalWrite`) and trials are no longer counted (`Systems.TrialIsCounted`).
- Witnesses.StartRuleIsExact: three journal numbers must be left, for the same reason; a START that resumes into the active slot is not decided, because what later frames do there depends on how images are judged.
- Systems.NeverSafeMode: no START into the active slot while another image runs, since otherwise it is false (`Witnesses.SafeModeIsReachable`).
- Systems.ActiveSlotUntouched: the same rule, for the same reason.
- Systems.ClaimsHoldThroughout: not after a cut that brings back an old RECEIVING record out of a full log, nor after a cut of START that leaves the record of the slot it has changed; both are characterised exactly.
- Trials.JudgedBytesStay: not after a cut that brings back an old RECEIVING record of the slot out of a full log, because a START may resume from it.
- Session.TransferLoop: a session without device reset, so NOT_STARTED and the renewed START are not modelled.
- Session.TransferImage: a transfer that is resumed must have sent the same bytes before, corrupted chunk included.
- Sha512.Context.Final: the two length counters are integers below 2^64 and become words by the standard's big-endian bytes; the C assignment of one word to another is not modelled below that.
- HostImage.BuiltImageIsJudged: not for an image with both its CRC and its body corrupted, where the two faults could cancel.
- Lifecycle.PowerUpSettles: journal numbers below 2^32 - 1, at which a write shows nothing; the same for the other lemmas of that module that speak of a journal write.
- Sha512Example.FirstRounds: the example is followed at its ends, not through all eighty rounds.
- Slide.Ladder: is stated on coefficients, and takes the contents of the precomputed tables as odd multiples.
- Frames shorter than their handlers read, and the dispatch on identifiers.
- The race between the inactivity tick and a data frame: the tick is one atomic step.
- INFO, LOG and STATUS replies, console output, the final jump and the check of the safe-mode image's vectors. The reset cause is a parameter.
- Peripheral drivers, startup code, the CAN gateway, key generation and fleet tools.
- Point decoding and unforgeability of Ed25519.
- `fe_frombytes`, field inversion and the rest of Monocypher that verification does not need in this form.
- Wiping of buffers.

/** What the flash means to the boot and update code: the journal's register, the bytes of
    the two slots and the last progress record. Every flash routine is brought up to this
    level here, with what a power cut inside it can leave. */
module Stores {
  import opened Bytes
  import opened Options
  import opened FlashMemory
  import opened Image
  import J = Journal
  import P = Progress
  import BootLog

  datatype Store = Store(journal: J.BootState, slotA: seq<byte>, slotB: seq<byte>, last: Option<P.Progress>)

  function SlotOf(s: Store, slot: byte): seq<byte> {
    if slot == J.SLOT_B then s.slotB else s.slotA
  }

  function WithSlot(s: Store, slot: byte, bytes: seq<byte>): Store {
    if slot == J.SLOT_B then s.(slotB := bytes) else s.(slotA := bytes)
  }

  function View(m: seq<byte>): (s: Store)
    requires |m| == FLASH_SIZE
    ensures |s.slotA| == |s.slotB| == SLOT_SIZE
  {
    Store(J.Value(m), SlotBytes(m, J.SLOT_A), SlotBytes(m, J.SLOT_B), P.LastRecord(m))
  }

  predicate InJournal(i: int) {
    J.BankBase(0) <= i < J.BankBase(2)
  }

  predicate InBootLog(i: int) {
    BootLog.BASE <= i < BootLog.BASE + BootLog.SIZE * BootLog.ENTRIES
  }

  predicate InSlots(i: int) {
    SlotBase(J.SLOT_A) <= i < SlotBase(J.SLOT_B) + SLOT_SIZE
  }

  predicate InProgress(i: int) {
    P.PROGRESS_BASE <= i < P.PROGRESS_BASE + P.RECORD * P.RECORDS
  }

  /** What the code of an image may leave changed: journal, slots and progress log. */
  ghost predicate ElsewhereSame(m: seq<byte>, m': seq<byte>) {
    |m| == |m'| && forall i :: 0 <= i < |m| && !InJournal(i) && !InSlots(i) && !InProgress(i) ==> m'[i] == m[i]
  }

  /** What the bootloader may leave changed: journal and boot log. */
  ghost predicate BootElsewhereSame(m: seq<byte>, m': seq<byte>) {
    |m| == |m'| && forall i :: 0 <= i < |m| && !InJournal(i) && !InBootLog(i) ==> m'[i] == m[i]
  }

  /** What the device may leave changed. The bootloader, the safe-mode image and everything
      else in flash lie outside. */
  ghost predicate DeviceElsewhereSame(m: seq<byte>, m': seq<byte>) {
    |m| == |m'| && forall i :: 0 <= i < |m| && !InJournal(i) && !InSlots(i) && !InProgress(i) && !InBootLog(i) ==> m'[i] == m[i]
  }

  lemma ElsewhereSelf(m: seq<byte>)
    ensures ElsewhereSame(m, m) && BootElsewhereSame(m, m) && DeviceElsewhereSame(m, m)
  {
  }

  lemma ElsewhereWider(m: seq<byte>, m': seq<byte>)
    ensures ElsewhereSame(m, m') ==> DeviceElsewhereSame(m, m')
    ensures BootElsewhereSame(m, m') ==> DeviceElsewhereSame(m, m')
  {
    hide InJournal, InSlots, InProgress, InBootLog;
  }

  lemma ElsewhereChains(a: seq<byte>, b: seq<byte>, c: seq<byte>)
    ensures ElsewhereSame(a, b) && ElsewhereSame(b, c) ==> ElsewhereSame(a, c)
    ensures BootElsewhereSame(a, b) && BootElsewhereSame(b, c) ==> BootElsewhereSame(a, c)
    ensures DeviceElsewhereSame(a, b) && DeviceElsewhereSame(b, c) ==> DeviceElsewhereSame(a, c)
  {
    hide InJournal, InSlots, InProgress, InBootLog;
  }

  lemma ElsewhereOf(m: seq<byte>, m': seq<byte>)
    requires |m| == |m'| == FLASH_SIZE
    ensures SameOutside(m, m', J.BankBase(0), J.BankBase(2)) ==> ElsewhereSame(m, m') && BootElsewhereSame(m, m')
    ensures P.OnlyLogChanged(m, m') ==> ElsewhereSame(m, m')
    ensures BootLog.OnlyLogChanged(m, m') ==> BootElsewhereSame(m, m')
    ensures forall slot: byte :: slot <= J.SLOT_B && SameOutside(m, m', SlotBase(slot), SlotBase(slot) + SLOT_SIZE) ==> ElsewhereSame(m, m')
  {
  }

  /** The boot log is none of what the store shows, and no journal write touches it. */
  lemma BootLogFrame(m: seq<byte>, m': seq<byte>)
    requires |m| == |m'| == FLASH_SIZE
    ensures BootLog.OnlyLogChanged(m, m') ==> View(m') == View(m) && P.Full(m') == P.Full(m)
    ensures SameOutside(m, m', J.BankBase(0), J.BankBase(2)) ==> BootLog.SameLog(m, m')
  {
    hide J.Value, P.Entries, BootLog.Decode;
    if BootLog.OnlyLogChanged(m, m') {
      OutsideJournalFrame(m, m');
      P.EntriesFrame(m, m');
      assert SlotBytes(m', J.SLOT_A) == SlotBytes(m, J.SLOT_A);
      assert SlotBytes(m', J.SLOT_B) == SlotBytes(m, J.SLOT_B);
    }
    if SameOutside(m, m', J.BankBase(0), J.BankBase(2)) {
      forall i | 0 <= i < BootLog.ENTRIES
        ensures BootLog.BytesAt(m', i) == BootLog.BytesAt(m, i)
      {
      }
    }
  }

  /** Every region starts with its own sector, as layout.h lists them, and every log fills its sector:
      an erase of one touches no other, and no record lies across an end. */
  lemma Layout()
    ensures J.BankBase(0) == SectorBase(2) == 0x8000 && J.BankBase(1) == SectorBase(3) == 0xC000 && J.BankBase(2) == SectorBase(4)
    ensures J.RECORD * J.RECORDS == 0x4000
    ensures SlotBase(0) == SectorBase(SlotSector(0)) == 0x2_0000 && SlotSector(0) == 5
    ensures SlotBase(1) == SectorBase(SlotSector(1)) == 0x4_0000 && SlotSector(1) == 6
    ensures SLOT_SIZE == SectorBase(6) - SectorBase(5) == SectorBase(7) - SectorBase(6) == 0x2_0000
    ensures BootLog.BASE == SectorBase(BootLog.SECTOR) == 0x6_0000 && BootLog.SIZE * BootLog.ENTRIES == SectorBase(8) - SectorBase(7)
    ensures P.PROGRESS_BASE == SectorBase(P.PROGRESS_SECTOR) == 0x8_0000 && P.RECORD * P.RECORDS == SectorBase(9) - SectorBase(8)
    ensures SectorBase(12) == FLASH_SIZE == 0x10_0000
  {
  }

  // ----- store-level meaning of the two logs -----

  /** What the journal reads after a write of `b`: the state, numbered next, for as long as there
      are numbers. */
  function Register(was: J.BootState, b: J.BootState): J.BootState {
    if was.number < 0xFFFF_FFFF then J.Next(was, b) else was
  }

  /** What a write hands back. */
  function Stamped(was: J.BootState, b: J.BootState): J.BootState {
    b.(number := (was.number + 1) % 0x1_0000_0000)
  }

  ghost predicate JournalDone(s: Store, s': Store, b: J.BootState) {
    s' == s.(journal := Register(s.journal, b))
  }

  ghost predicate JournalCut(s: Store, s': Store, b: J.BootState) {
    s' == s || JournalDone(s, s', b)
  }

  function NumberedAfter(last: Option<P.Progress>, p: P.Progress): P.Progress {
    p.(number := ((if last.Some? then last.value.number else 0) + 1) % 0x1_0000_0000)
  }

  ghost predicate LogDone(s: Store, s': Store, p: P.Progress) {
    s' == s.(last := Some(NumberedAfter(s.last, p)))
  }

  /** `full` tells that the log had to be erased first. */
  ghost predicate LogCut(s: Store, s': Store, p: P.Progress, full: bool) {
    && s' == s.(last := s'.last)
    && (s'.last == s.last || P.ShowsOrIsHarmless(s'.last, NumberedAfter(s.last, p)) || full)
  }

  // ----- what a change to one region leaves alone -----

  lemma ValueInRange(m: seq<byte>)
    requires |m| == FLASH_SIZE
    ensures J.InRange(J.Value(m))
  {
    hide J.Entries, J.Best, J.Decode;
    J.BestIsHighest(J.Entries(m, 0));
    J.BestIsHighest(J.Entries(m, 1));
    EntriesInRange(m, 0);
    EntriesInRange(m, 1);
  }

  lemma EntriesInRange(m: seq<byte>, bank: nat)
    requires |m| == FLASH_SIZE && bank < 2
    ensures forall d :: d in J.Entries(m, bank) && d.Some? ==> J.InRange(d.value)
  {
    hide Intact;
  }

  lemma JournalFrame(m: seq<byte>, m': seq<byte>)
    requires |m| == |m'| == FLASH_SIZE && SameOutside(m, m', J.BankBase(0), J.BankBase(2))
    ensures View(m').slotA == View(m).slotA && View(m').slotB == View(m).slotB && View(m').last == View(m).last
    ensures P.Full(m') == P.Full(m)
  {
    hide P.Entries, J.Value;
    P.EntriesFrame(m, m');
    SlotUnchanged(m, m', J.SLOT_A);
    SlotUnchanged(m, m', J.SLOT_B);
  }

  lemma SlotUnchanged(m: seq<byte>, m': seq<byte>, slot: byte)
    requires |m| == |m'| == FLASH_SIZE && forall i :: SlotBase(slot) <= i < SlotBase(slot) + SLOT_SIZE ==> m'[i] == m[i]
    ensures SlotBytes(m', slot) == SlotBytes(m, slot)
  {
    forall k | 0 <= k < SLOT_SIZE
      ensures SlotBytes(m', slot)[k] == SlotBytes(m, slot)[k]
    {
      assert m'[SlotBase(slot) + k] == m[SlotBase(slot) + k];
    }
  }

  lemma OutsideJournalFrame(m: seq<byte>, m': seq<byte>)
    requires |m| == |m'| == FLASH_SIZE && forall i :: 0x8000 <= i < 0x1_0000 ==> m[i] == m'[i]
    ensures View(m').journal == View(m).journal
  {
    hide J.Entries;
    J.EntriesFrame(m, m', 0);
    J.EntriesFrame(m, m', 1);
  }

  lemma LogFrame(m: seq<byte>, m': seq<byte>)
    requires |m| == |m'| == FLASH_SIZE && P.OnlyLogChanged(m, m')
    ensures View(m') == View(m).(last := View(m').last)
  {
    hide J.Value, P.LastRecord;
    OutsideJournalFrame(m, m');
    assert SlotBytes(m', J.SLOT_A) == SlotBytes(m, J.SLOT_A);
    assert SlotBytes(m', J.SLOT_B) == SlotBytes(m, J.SLOT_B);
  }

  lemma SlotFrame(m: seq<byte>, m': seq<byte>, slot: byte)
    requires |m| == |m'| == FLASH_SIZE && slot <= J.SLOT_B
    requires SameOutside(m, m', SlotBase(slot), SlotBase(slot) + SLOT_SIZE)
    ensures View(m') == WithSlot(View(m), slot, SlotBytes(m', slot))
    ensures P.Full(m') == P.Full(m)
  {
    hide P.Entries;
    OutsideJournalFrame(m, m');
    P.EntriesFrame(m, m');
  }

  // ----- the flash routines at this level -----

  lemma ViewAfterJournal(m: seq<byte>, m': seq<byte>, b: J.BootState)
    requires |m| == |m'| == FLASH_SIZE && J.InRange(b)
    ensures J.Written(m, m', b) ==> JournalDone(View(m), View(m'), b)
    ensures J.CutWhileWriting(m, m', b) ==> JournalCut(View(m), View(m'), b)
  {
    hide J.Value, P.LastRecord;
    if SameOutside(m, m', J.BankBase(0), J.BankBase(2)) {
      JournalFrame(m, m');
    }
  }

  lemma ViewAfterLog(m: seq<byte>, m': seq<byte>, p: P.Progress)
    requires |m| == |m'| == FLASH_SIZE
    ensures P.Logged(m, m', p) ==> LogDone(View(m), View(m'), p)
    ensures P.CutWhileLogging(m, m', p) ==> LogCut(View(m), View(m'), p, P.Full(m))
  {
    hide J.Value, P.LastRecord, P.Full;
    if P.OnlyLogChanged(m, m') {
      LogFrame(m, m');
    }
  }

  lemma ViewAfterErase(m: seq<byte>, slot: byte)
    requires |m| == FLASH_SIZE && slot <= J.SLOT_B
    ensures View(Erase(m, SlotSector(slot))) == WithSlot(View(m), slot, Blank(SLOT_SIZE))
    ensures ElsewhereSame(m, Erase(m, SlotSector(slot)))
  {
    hide View, ElsewhereSame;
    var m' := Erase(m, SlotSector(slot));
    ElsewhereOf(m, m');
    SlotFrame(m, m', slot);
    assert SlotBytes(m', slot) == Blank(SLOT_SIZE);
  }

  lemma ViewAfterTornErase(m: seq<byte>, m': seq<byte>, slot: byte)
    requires |m| == |m'| == FLASH_SIZE && slot <= J.SLOT_B && TornErase(m, m', SlotSector(slot))
    ensures View(m') == WithSlot(View(m), slot, SlotBytes(m', slot)) && ElsewhereSame(m, m')
  {
    hide View, ForgesNothing, ElsewhereSame;
    ElsewhereOf(m, m');
    SlotFrame(m, m', slot);
  }

  lemma ViewAfterProgram(m: seq<byte>, slot: byte, at: nat, data: seq<byte>)
    requires |m| == FLASH_SIZE && slot <= J.SLOT_B && at + |data| <= SLOT_SIZE
    ensures View(Splice(m, SlotBase(slot) + at, data)) == WithSlot(View(m), slot, Splice(SlotBytes(m, slot), at, data))
    ensures ElsewhereSame(m, Splice(m, SlotBase(slot) + at, data))
  {
    hide View, ElsewhereSame;
    var m' := Splice(m, SlotBase(slot) + at, data);
    ElsewhereOf(m, m');
    SlotFrame(m, m', slot);
    assert SlotBytes(m', slot) == Splice(SlotBytes(m, slot), at, data);
  }

  method ReadJournal(flash: Flash) returns (b: J.BootState)
    requires |flash.mem| == FLASH_SIZE
    ensures b == View(flash.mem).journal && J.InRange(b)
  {
    hide J.Value, P.LastRecord;
    var present;
    present, b := J.JournalRead(flash);
    ValueInRange(flash.mem);
  }

  method WriteJournal(flash: Flash, b: J.BootState) returns (ok: bool, written: J.BootState)
    requires flash.Ready() && J.InRange(b)
    modifies flash
    ensures |flash.mem| == FLASH_SIZE && ok == flash.on && P.Full(flash.mem) == old(P.Full(flash.mem))
    ensures written == Stamped(old(View(flash.mem)).journal, b)
    ensures ok ==> JournalDone(old(View(flash.mem)), View(flash.mem), b)
    ensures !ok ==> JournalCut(old(View(flash.mem)), View(flash.mem), b)
    ensures ElsewhereSame(old(flash.mem), flash.mem) && BootElsewhereSame(old(flash.mem), flash.mem)
    ensures BootLog.SameLog(old(flash.mem), flash.mem)
  {
    hide P.Full, P.LastRecord, J.Value, ElsewhereSame, BootElsewhereSame, BootLog.SameLog;
    ok, written := J.JournalWrite(flash, b);
    ElsewhereOf(old(flash.mem), flash.mem);
    BootLogFrame(old(flash.mem), flash.mem);
    ViewAfterJournal(old(flash.mem), flash.mem, b);
    JournalFrame(old(flash.mem), flash.mem);
  }
}

/** firmware/boot/main.c and firmware/common/ota.c: who boots, and how an image confirms. */
module Boot {
  import opened Bytes
  import opened Options
  import opened FlashMemory
  import opened Stores
  import opened Image
  import J = Journal
  import P = Progress
  import BootLog

  const MAX_ATTEMPTS: byte := 3

  datatype Reason = Active | PendingTrial | Fallback | Rollback | SafeMode

  /** What the bootloader decides; `write` is the journal record it makes first, if any. */
  datatype Decision = Decision(chosen: byte, reason: Reason, write: Option<J.BootState>)

  predicate Valid(s: Store, slot: byte, check: Checker)
    requires |s.slotA| == |s.slotB| == SLOT_SIZE
  {
    check(SlotOf(s, slot), slot) == ImageOk
  }

  function Other(slot: byte): byte {
    if slot == J.SLOT_A then J.SLOT_B else J.SLOT_A
  }

  function Decide(s: Store, check: Checker): Decision
    requires |s.slotA| == |s.slotB| == SLOT_SIZE && J.InRange(s.journal)
  {
    var b := s.journal;
    if b.pending != J.SLOT_NONE && b.attempts >= MAX_ATTEMPTS then
      var write := Some(b.(pending := J.SLOT_NONE, attempts := 0, confirmed := 0));
      if Valid(s, b.active, check) then Decision(b.active, Rollback, write) else Decision(J.SLOT_NONE, SafeMode, write)
    else if b.pending != J.SLOT_NONE then
      if Valid(s, b.pending, check) then
        Decision(b.pending, PendingTrial, Some(b.(attempts := b.attempts + 1, confirmed := 0)))
      else
        var write := Some(b.(pending := J.SLOT_NONE, attempts := 0));
        if Valid(s, b.active, check) then Decision(b.active, Fallback, write) else Decision(J.SLOT_NONE, SafeMode, write)
    else if Valid(s, b.active, check) then Decision(b.active, Active, None)
    else if Valid(s, Other(b.active), check) then Decision(Other(b.active), Fallback, None)
    else Decision(J.SLOT_NONE, SafeMode, None)
  }

  ghost predicate BootDone(s: Store, s': Store, check: Checker)
    requires |s.slotA| == |s.slotB| == SLOT_SIZE && J.InRange(s.journal)
  {
    match Decide(s, check).write
    case None => s' == s
    case Some(b) => JournalDone(s, s', b)
  }

  /** What a cut leaves: inside the journal write the old or the new state, after it, while
      the boot log is written, the new one. */
  ghost predicate BootCut(s: Store, s': Store, check: Checker)
    requires |s.slotA| == |s.slotB| == SLOT_SIZE && J.InRange(s.journal)
  {
    match Decide(s, check).write
    case None => s' == s
    case Some(b) => JournalCut(s, s', b)
  }

  /** Safe mode is entered exactly when neither the active slot nor, in its turn, a pending
      or the other slot validates. */
  lemma SafeModeExactly(s: Store, check: Checker)
    requires |s.slotA| == |s.slotB| == SLOT_SIZE && J.InRange(s.journal)
    ensures var b := s.journal;
      Decide(s, check).reason == SafeMode <==>
        && !Valid(s, b.active, check)
        && (if b.pending == J.SLOT_NONE then !Valid(s, Other(b.active), check)
            else b.attempts >= 3 || !Valid(s, b.pending, check))
    ensures Decide(s, check).reason == SafeMode <==> Decide(s, check).chosen == J.SLOT_NONE
    ensures Decide(s, check).chosen != J.SLOT_NONE ==> Decide(s, check).chosen <= J.SLOT_B && Valid(s, Decide(s, check).chosen, check)
  {
  }

  method Check(flash: Flash, slot: byte, verify: Verifier) returns (r: ImageResult)
    requires |flash.mem| == FLASH_SIZE && slot <= J.SLOT_B
    ensures r == Validation(verify)(SlotOf(View(flash.mem), slot), slot)
  {
    hide Validate, J.Value, P.LastRecord;
    r := ImageValidate(flash, slot, verify);
  }

  /** The state that the bootloader has at hand after its journal write, if any. */
  function StateAtHand(s: Store, check: Checker): J.BootState
    requires |s.slotA| == |s.slotB| == SLOT_SIZE && J.InRange(s.journal)
  {
    match Decide(s, check).write
    case None => s.journal
    case Some(b) => Stamped(s.journal, b)
  }

  /** The decision, and the journal record that goes with it. */
  method Choose(flash: Flash, resultA: ImageResult, resultB: ImageResult, ghost check: Checker)
    returns (chosen: byte, reason: Reason, state: J.BootState)
    requires flash.Ready()
    requires resultA == check(SlotOf(View(flash.mem), J.SLOT_A), J.SLOT_A) && resultB == check(SlotOf(View(flash.mem), J.SLOT_B), J.SLOT_B)
    modifies flash
    ensures |flash.mem| == FLASH_SIZE && J.InRange(old(View(flash.mem)).journal)
    ensures flash.on ==> BootDone(old(View(flash.mem)), View(flash.mem), check) && state == StateAtHand(old(View(flash.mem)), check)
    ensures flash.on ==> chosen == Decide(old(View(flash.mem)), check).chosen && reason == Decide(old(View(flash.mem)), check).reason
    ensures !flash.on ==> BootCut(old(View(flash.mem)), View(flash.mem), check)
    ensures BootElsewhereSame(old(flash.mem), flash.mem) && BootLog.SameLog(old(flash.mem), flash.mem)
  {
    hide View, JournalDone, JournalCut, BootElsewhereSame, ElsewhereSame, BootLog.SameLog;
    ElsewhereSelf(flash.mem);
    SameLogSelf(flash.mem);
    state := ReadJournal(flash);
    var result := map[J.SLOT_A := resultA, J.SLOT_B := resultB];
    chosen, reason := J.SLOT_NONE, SafeMode;
    var ok, written;
    if state.pending != J.SLOT_NONE && state.attempts >= MAX_ATTEMPTS {
      state := state.(pending := J.SLOT_NONE, attempts := 0, confirmed := 0);
      ok, written := WriteJournal(flash, state);
      state := state.(number := written.number);
      if result[state.active] == ImageOk {
        chosen, reason := state.active, Rollback;
      }
    } else if state.pending != J.SLOT_NONE {
      if result[state.pending] == ImageOk {
        state := state.(attempts := state.attempts + 1, confirmed := 0);
        ok, written := WriteJournal(flash, state);
        state := state.(number := written.number);
        chosen, reason := state.pending, PendingTrial;
      } else {
        state := state.(pending := J.SLOT_NONE, attempts := 0);
        ok, written := WriteJournal(flash, state);
        state := state.(number := written.number);
        if result[state.active] == ImageOk {
          chosen, reason := state.active, Fallback;
        }
      }
    } else {
      if result[state.active] == ImageOk {
        chosen, reason := state.active, Active;
      } else {
        var other := if state.active == J.SLOT_A then J.SLOT_B else J.SLOT_A;
        if result[other] == ImageOk {
          chosen, reason := other, Fallback;
        }
      }
    }
  }

  lemma SameLogSelf(m: seq<byte>)
    requires |m| == FLASH_SIZE
    ensures BootLog.SameLog(m, m)
  {
  }

  function ReasonCode(r: Reason): byte {
    match r
    case Active => 0
    case PendingTrial => 1
    case Fallback => 2
    case Rollback => 3
    case SafeMode => 4
  }

  function ResultCode(r: ImageResult): byte {
    match r
    case ImageOk => 0
    case BadMagic => 1
    case BadHeader => 2
    case BadSize => 3
    case WrongSlot => 4
    case BadCrc => 5
    case BadSignature => 6
    case BadVectors => 7
  }

  const SLOT_SAFE: byte := 2

  /** What the boot log says about a boot from the store `s`. */
  function EntryOf(s: Store, cause: byte, check: Checker): BootLog.Entry
    requires |s.slotA| == |s.slotB| == SLOT_SIZE && J.InRange(s.journal)
  {
    var d, b := Decide(s, check), StateAtHand(s, check);
    BootLog.Entry(0, b.number, if d.chosen == J.SLOT_NONE then SLOT_SAFE else d.chosen, ReasonCode(d.reason),
                  if d.reason == PendingTrial then b.attempts else 0, cause,
                  ResultCode(check(s.slotA, J.SLOT_A)), ResultCode(check(s.slotB, J.SLOT_B)),
                  if d.chosen == J.SLOT_NONE then 0 else Version(SlotOf(s, d.chosen)))
  }

  lemma BootEntryShows(s: Store, cause: byte, check: Checker, number: u32)
    requires |s.slotA| == |s.slotB| == SLOT_SIZE && J.InRange(s.journal)
    ensures BootLog.Shown(EntryOf(s, cause, check).(number := number)) == Some(EntryOf(s, cause, check).(number := number))
  {
    hide BootLog.Shown, Decide, StateAtHand, Version;
    BootLog.EntryShows(EntryOf(s, cause, check).(number := number));
  }

  /** The bootloader's `main`, from the journal to the boot log; `cause` is read from RAM. On
      return with power on, the caller jumps to `chosen`, or to the safe-mode image if that is
      SLOT_NONE. */
  method BootMain(flash: Flash, verify: Verifier, cause: byte) returns (chosen: byte, reason: Reason)
    requires flash.Ready()
    modifies flash
    ensures |flash.mem| == FLASH_SIZE && J.InRange(old(View(flash.mem)).journal)
    ensures flash.on ==> BootDone(old(View(flash.mem)), View(flash.mem), Validation(verify))
    ensures flash.on ==> chosen == Decide(old(View(flash.mem)), Validation(verify)).chosen && reason == Decide(old(View(flash.mem)), Validation(verify)).reason
    ensures flash.on ==> BootLog.Appended(old(flash.mem), flash.mem, EntryOf(old(View(flash.mem)), cause, Validation(verify)))
    ensures !flash.on ==> BootCut(old(View(flash.mem)), View(flash.mem), Validation(verify))
    ensures BootElsewhereSame(old(flash.mem), flash.mem)
  {
    hide View, BootDone, BootCut, Decide, BootElsewhereSame, StateAtHand, BootLog.SameLog, BootLog.Appended, BootLog.CutWhileAppending, BootLog.OnlyLogChanged, Version, Validation, Validate;
    ghost var s, check := View(flash.mem), Validation(verify);
    var resultA := Check(flash, J.SLOT_A, verify);
    var resultB := Check(flash, J.SLOT_B, verify);
    var state;
    chosen, reason, state := Choose(flash, resultA, resultB, check);
    if !flash.on {
      return;
    }
    ghost var m := flash.mem;
    DecisionFits(s, View(m), check);
    var version := if chosen == J.SLOT_NONE then 0 else Version(SlotBytes(flash.mem, chosen));
    SlotsInView(m);
    var entry := BootLog.Entry(0, state.number, if chosen == J.SLOT_NONE then SLOT_SAFE else chosen, ReasonCode(reason),
                               if reason == PendingTrial then state.attempts else 0, cause, ResultCode(resultA), ResultCode(resultB), version);
    assert entry == EntryOf(s, cause, check);
    var ok := BootLog.Append(flash, entry);
    BootLogFrame(m, flash.mem);
    ElsewhereOf(m, flash.mem);
    ElsewhereChains(old(flash.mem), m, flash.mem);
    if ok {
      BootLog.AppendedFrom(old(flash.mem), m, flash.mem, entry);
    }
    DoneMayBeCut(s, View(m), check);
  }

  lemma DecisionFits(s: Store, s': Store, check: Checker)
    requires |s.slotA| == |s.slotB| == SLOT_SIZE && J.InRange(s.journal) && BootDone(s, s', check)
    ensures s'.slotA == s.slotA && s'.slotB == s.slotB
    ensures Decide(s, check).chosen != J.SLOT_NONE ==> Decide(s, check).chosen <= J.SLOT_B
  {
    SafeModeExactly(s, check);
  }

  lemma SlotsInView(m: seq<byte>)
    requires |m| == FLASH_SIZE
    ensures View(m).slotA == SlotBytes(m, J.SLOT_A) && View(m).slotB == SlotBytes(m, J.SLOT_B)
  {
  }

  lemma DoneMayBeCut(s: Store, s': Store, check: Checker)
    requires |s.slotA| == |s.slotB| == SLOT_SIZE && J.InRange(s.journal) && BootDone(s, s', check)
    ensures BootCut(s, s', check)
  {
  }

  // ----- ota.c -----

  function Confirmed(b: J.BootState, running: byte): J.BootState {
    b.(active := running, pending := J.SLOT_NONE, attempts := 0, confirmed := 1)
  }

  predicate NeedsConfirm(b: J.BootState, running: byte) {
    running <= J.SLOT_B && !(b.active == running && b.pending == J.SLOT_NONE)
  }

  /** The static status of ota.c. */
  class Ota {
    const runningSlot: byte
    const hasHeader: bool
    var state: J.BootState
    var isPending: bool
    var isActive: bool
    var confirmedNow: bool

    /** `ota_init` */
    constructor (flash: Flash, runningSlot: byte)
      requires |flash.mem| == FLASH_SIZE
      ensures this.runningSlot == runningSlot && hasHeader == (runningSlot <= J.SLOT_B) && !confirmedNow
      ensures state == View(flash.mem).journal
      ensures isPending == (state.pending == runningSlot) && isActive == (state.active == runningSlot)
    {
      var s := ReadJournal(flash);
      this.runningSlot := runningSlot;
      hasHeader := runningSlot == J.SLOT_A || runningSlot == J.SLOT_B;
      state, confirmedNow := s, false;
      isPending := s.pending == runningSlot;
      isActive := s.active == runningSlot;
    }

    /** `ota_confirm` */
    method Confirm(flash: Flash) returns (ok: bool)
      requires flash.Ready() && hasHeader == (runningSlot <= J.SLOT_B)
      modifies this, flash
      ensures |flash.mem| == FLASH_SIZE && ok == (flash.on && hasHeader)
      ensures flash.on && NeedsConfirm(old(View(flash.mem)).journal, runningSlot) ==>
        && JournalDone(old(View(flash.mem)), View(flash.mem), Confirmed(old(View(flash.mem)).journal, runningSlot))
        && state == Stamped(old(View(flash.mem)).journal, Confirmed(old(View(flash.mem)).journal, runningSlot)) && isActive && !isPending && confirmedNow
      ensures flash.on && !NeedsConfirm(old(View(flash.mem)).journal, runningSlot) ==>
        View(flash.mem) == old(View(flash.mem)) && confirmedNow == old(confirmedNow) && state == old(state)
      ensures !flash.on ==>
        && NeedsConfirm(old(View(flash.mem)).journal, runningSlot)
        && JournalCut(old(View(flash.mem)), View(flash.mem), Confirmed(old(View(flash.mem)).journal, runningSlot))
      ensures ElsewhereSame(old(flash.mem), flash.mem)
    {
      hide View, ElsewhereSame;
      ElsewhereSelf(flash.mem);
      if !hasHeader {
        return false;
      }
      var cur := ReadJournal(flash);
      if cur.active == runningSlot && cur.pending == J.SLOT_NONE {
        return true;
      }
      var next := cur.(active := runningSlot, pending := J.SLOT_NONE, attempts := 0, confirmed := 1);
      var written;
      ok, written := WriteJournal(flash, next);
      if !ok {
        return false;
      }
      state := written;
      isActive, isPending, confirmedNow := true, false, true;
    }
  }
}

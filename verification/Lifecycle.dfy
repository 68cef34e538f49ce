/** What each event of the system is for: who runs after a power-up, what a confirmation, a START, a
    FINISH and an ABORT settle, and the way of an update from its verdict to the active slot. */
module Lifecycle {
  import opened Bytes
  import opened Options
  import opened Stores
  import opened Image
  import opened Transfer
  import opened Boot
  import opened Systems
  import opened Trials
  import opened HostNames
  import BootLog
  import J = Journal
  import P = Progress

  const LAST_NUMBER: u32 := 0xFFFF_FFFF

  // ----- power-up -----

  /** The pending image gets another trial. */
  predicate OnTrial(s: Store, check: Checker)
    requires |s.slotA| == |s.slotB| == SLOT_SIZE
  {
    s.journal.pending != J.SLOT_NONE && s.journal.attempts < 3 && Valid(s, s.journal.pending, check)
  }

  /** A power-up that comes to its end settles what is pending: an image stays pending exactly if it
      gets a trial now, and then it is the one that runs. Any other is dropped, whether its trials
      are used up or it does not validate. */
  lemma PowerUpSettles(n: Node, n': Node, check: Checker, full: bool)
    requires Step(n, PowerUp, n', check, full) && !n'.mode.Off? && n.store.journal.number < LAST_NUMBER
    ensures n'.store == n.store.(journal := n'.store.journal)
    ensures var b, b' := n.store.journal, n'.store.journal;
      && (b'.pending != J.SLOT_NONE <==> OnTrial(n.store, check))
      && (OnTrial(n.store, check) ==> n'.mode == Running(Booted(b.pending)) && b' == J.BootState(b.number + 1, b.active, b.pending, b.attempts + 1, 0))
      && (b.pending == J.SLOT_NONE ==> b' == b)
      && (b.pending != J.SLOT_NONE && !OnTrial(n.store, check) ==>
           b' == J.BootState(b.number + 1, b.active, J.SLOT_NONE, 0, if b.attempts >= 3 then 0 else b.confirmed))
  {
  }

  /** Which image runs when none is on trial: the active one; if that does not validate, the other
      one, but only when none was pending. */
  lemma PowerUpRuns(n: Node, n': Node, check: Checker, full: bool)
    requires Step(n, PowerUp, n', check, full) && !n'.mode.Off? && !OnTrial(n.store, check)
    ensures var s, active := n.store, n.store.journal.active;
      n'.mode == if Valid(s, active, check) then Running(Booted(active))
                 else if s.journal.pending == J.SLOT_NONE && Valid(s, 1 - active, check) then Running(Booted(1 - active))
                 else Safe
  {
  }

  /** What the boot log says of a power-up, in the names of the host. */
  lemma BootLogTells(n: Node, n': Node, check: Checker, full: bool, cause: byte)
    requires Step(n, PowerUp, n', check, full) && !n'.mode.Off? && n.store.journal.number < LAST_NUMBER
    ensures var e := EntryOf(n.store, cause, check);
      && e.journalNumber == n'.store.journal.number && e.cause == cause
      && (n'.mode.Running? ==> e.slot == n'.mode.ctx.running && e.version == Version(SlotOf(n'.store, n'.mode.ctx.running)))
      && (n'.mode.Safe? <==> SlotName(e.slot) == "SAFE") && (n'.mode.Safe? <==> ReasonName(e.reason) == "SAFE_MODE")
      && (OnTrial(n.store, check) <==> ReasonName(e.reason) == "PENDING_TRIAL")
      && e.attempts == (if OnTrial(n.store, check) then n'.store.journal.attempts else 0)
      && (ReasonName(e.reason) == "ROLLBACK" <==> n'.mode.Running? && n.store.journal.pending != J.SLOT_NONE && n.store.journal.attempts >= 3)
      && (ReasonName(e.reason) == "ACTIVE" ==> n'.mode == Running(Booted(n.store.journal.active)) && n.store.journal.pending == J.SLOT_NONE)
      && LoggedResult(e.resultA) == ResultName(check(n.store.slotA, 0)) && LoggedResult(e.resultB) == ResultName(check(n.store.slotB, 1))
  {
    hide Version;
  }

  // ----- confirmation -----

  /** A confirmation that comes to its end makes the running image the active one with nothing
      pending, unless it already is: then it writes nothing. */
  lemma ConfirmMakesActive(n: Node, n': Node, check: Checker, full: bool)
    requires Step(n, Confirm, n', check, full) && !n'.mode.Off? && n.mode.ctx.running <= J.SLOT_B && n.store.journal.number < LAST_NUMBER
    ensures var b, running := n.store.journal, n.mode.ctx.running;
      n' == if b.active == running && b.pending == J.SLOT_NONE then n
            else n.(store := n.store.(journal := J.BootState(b.number + 1, running, J.SLOT_NONE, 0, 1)))
  {
  }

  /** A confirmed image boots from then on, on no trial and without a journal write, for as long as
      it validates. */
  lemma ConfirmedBoots(n: Node, c: Node, n': Node, check: Checker, full: bool, full': bool)
    requires Step(n, Confirm, c, check, full) && !c.mode.Off? && n.mode.ctx.running <= J.SLOT_B && n.store.journal.number < LAST_NUMBER
    requires Step(Node(c.store, Off), PowerUp, n', check, full') && !n'.mode.Off? && Valid(c.store, n.mode.ctx.running, check)
    ensures n' == Node(c.store, Running(Booted(n.mode.ctx.running))) && !TrialBoot(Node(c.store, Off), n')
  {
    ConfirmMakesActive(n, c, check, full);
  }

  // ----- START -----

  predicate SizeFits(size: u32) {
    0x200 < size <= 0x2_0000 && size % 4 == 0
  }

  predicate NotOlder(n: Node, version: u32, flags: byte)
    requires Real(n.store) && n.mode.Running?
  {
    version >= Version(SlotOf(n.store, n.mode.ctx.running)) || flags % 2 == 1
  }

  /** What makes a START welcome. */
  predicate Welcome(n: Node, e: Event)
    requires Real(n.store) && n.mode.Running? && e.Start?
  {
    (e.slot == 0 || e.slot == 1) && e.slot != n.mode.ctx.running && SizeFits(e.size) && NotOlder(n, e.version, e.flags)
  }

  /** The last record is of the same transfer, unfinished. */
  predicate SameTransfer(n: Node, e: Event)
    requires e.Start?
  {
    && n.store.last.Some?
    && var p := n.store.last.value;
       && p.state == P.RECEIVING && p.headerCrc == e.headerCrc && p.imageSize == e.size && p.slot == e.slot
       && 6 * p.chunks < e.size + 6
  }

  lemma SizeIsGood(size: u32, chunks: u16)
    ensures SizeFits(size) <==> GoodSize(size)
    ensures 6 * chunks < size + 6 <==> chunks <= Chunks(size)
    ensures GoodSize(size) ==> Chunks(size) < 0x1_0000
  {
  }

  /** A START that comes to its end opens a transfer if and only if it is welcome; any other leaves
      flash alone and the device idle. A welcome START goes on where the last record of the same
      transfer says, or erases the slot and records that nothing has been received. */
  lemma StartIsTaken(n: Node, e: Event, n': Node, check: Checker, full: bool)
    requires e.Start? && Step(n, e, n', check, full) && !n'.mode.Off?
    ensures n'.mode.Running? && (n'.mode.ctx.state == P.RECEIVING <==> Welcome(n, e))
    ensures !Welcome(n, e) ==> n'.store == n.store && n'.mode.ctx.state == P.IDLE
    ensures Welcome(n, e) ==>
      var c, w := n'.mode.ctx, n'.mode.ctx.w;
      && c.running == n.mode.ctx.running && c.slot == e.slot && c.size == e.size && c.headerCrc == e.headerCrc && c.flags == e.flags
      && e.size <= 6 * w.total < e.size + 6 && w.fill == 0 && c.held == []
      && if SameTransfer(n, e) then w.next == n.store.last.value.chunks && n'.store == n.store
         else
           && w.next == 0 && n'.store == WithSlot(n.store, e.slot, Blank(SLOT_SIZE)).(last := n'.store.last)
           && n'.store.last.Some? && SameTransfer(n', e) && n'.store.last.value.chunks == 0
  {
    hide Version, Chunks, GoodSize, SizeFits;
    SizeIsGood(e.size, if n.store.last.Some? then n.store.last.value.chunks else 0);
    SizeIsGood(e.size, 0);
    if GoodSize(e.size) {
      TotalCovers(e.size);
    }
  }

  lemma TotalCovers(size: u32)
    requires GoodSize(size)
    ensures size <= 6 * Chunks(size) < size + 6
  {
  }

  /** What the refusals are called, in the order of the checks; a START_B without a START_A before it
      is out of sequence. */
  lemma StartRefusals(n: Node, e: Event)
    requires Real(n.store) && n.mode.Running? && e.Start?
    ensures var c := n.mode.ctx;
      var reply := StartB(StartA(c, e.size, e.version), n.store, e.flags, e.slot, e.headerCrc).reply;
      if Welcome(n, e) then reply == if SameTransfer(n, e) then Ack(n.store.last.value.chunks, 1) else Ack(0, 0)
      else
        && reply.Nak? && reply.seqNo == 0
        && CodeName(reply.code) ==
           if e.slot > 1 then "WRONG_SLOT" else if e.slot == c.running then "SLOT_BUSY"
           else if !SizeFits(e.size) then "BAD_SIZE" else "VERSION_LOW"
    ensures var o := StartB(n.mode.ctx.(haveA := false), n.store, e.flags, e.slot, e.headerCrc);
      o.reply.Nak? && CodeName(o.reply.code) == "SEQUENCE" && o.store == n.store && o.ctx == n.mode.ctx.(haveA := false)
  {
    hide Version, Chunks, GoodSize, SizeFits;
    SizeIsGood(e.size, if n.store.last.Some? then n.store.last.value.chunks else 0);
  }

  // ----- FINISH and ABORT -----

  /** What FINISH asks of a transfer: all of the image is there, it validates, its header gives the
      size that START announced, and it is not older than the running image or was forced. */
  predicate Deserves(c: Ctx, s: Store, check: Checker)
    requires |s.slotA| == |s.slotB| == SLOT_SIZE
  {
    var bytes := SlotOf(s, c.slot);
    && c.w.next == c.w.total && c.w.fill == 0
    && check(bytes, c.slot) == ImageOk
    && (BodySize(bytes) + 0x200 - c.size) % 0x1_0000_0000 == 0
    && (Version(bytes) >= Version(SlotOf(s, c.running)) || c.flags % 2 == 1)
  }

  /** FINISH makes the slot pending, with no trial used, if and only if the transfer deserves it. A
      complete one that does not is over, an incomplete one goes on. */
  lemma FinishInstalls(n: Node, n': Node, check: Checker, full: bool)
    requires Step(n, FinishFrame, n', check, full) && !n'.mode.Off? && n.mode.ctx.state == P.RECEIVING && n.store.journal.number < LAST_NUMBER
    ensures var c, b, b' := n.mode.ctx, n.store.journal, n'.store.journal;
      && n'.mode.Running? && n'.store == n.store.(journal := b', last := n'.store.last)
      && b' == (if Deserves(c, n.store, check) then J.BootState(b.number + 1, b.active, c.slot, 0, 0) else b)
      && (!Complete(c.w) ==> n' == n)
      && (Complete(c.w) ==> n'.mode.ctx == c.(state := if Deserves(c, n.store, check) then P.DONE else P.IDLE) && EndsWith(n', c, if Deserves(c, n.store, check) then 2 else 0xFE))
  {
    hide Version, BodySize, Chunks;
  }

  /** The last record says how the transfer ended. */
  predicate EndsWith(n: Node, c: Ctx, state: byte) {
    && n.store.last.Some?
    && n.store.last.value == P.Progress(n.store.last.value.number, c.headerCrc, c.size, c.slot, state, c.w.next, c.flags)
  }

  /** The verdicts by name, and the number that goes with each: the next chunk that is missing, the
      number of the journal record, or the version of an image that validates. */
  lemma FinishVerdicts(c: Ctx, s: Store, check: Checker)
    requires |s.slotA| == |s.slotB| == SLOT_SIZE
    ensures var reply, result, bytes := Finish(c, s, check).reply, check(SlotOf(s, c.slot), c.slot), SlotOf(s, c.slot);
      && reply.Verdict?
      && CodeName(reply.code) ==
         if c.state != P.RECEIVING then "NOT_STARTED"
         else if !Complete(c.w) then "INCOMPLETE"
         else if result != ImageOk then ResultName(result)
         else if (BodySize(bytes) + 0x200 - c.size) % 0x1_0000_0000 != 0 then "BAD_SIZE"
         else if !Deserves(c, s, check) then "VERSION_LOW" else "OK"
    ensures var reply := Finish(c, s, check).reply;
      reply.Verdict? &&
      (c.state == P.RECEIVING && !Complete(c.w) ==> reply.detail == c.w.next) &&
      (c.state == P.RECEIVING && Complete(c.w) ==>
        if Deserves(c, s, check) then reply.detail == (s.journal.number + 1) % 0x1_0000_0000
        else reply.detail == if check(SlotOf(s, c.slot), c.slot) == ImageOk then Version(SlotOf(s, c.slot)) else 0)
  {
    hide Version, BodySize;
  }

  /** ABORT ends a running transfer for good. */
  lemma AbortEnds(n: Node, n': Node, check: Checker, full: bool)
    requires Step(n, AbortFrame, n', check, full) && !n'.mode.Off?
    ensures n'.mode.Running? && n'.mode.ctx == n.mode.ctx.(state := P.IDLE, haveA := false)
    ensures n'.store == n.store.(last := n'.store.last)
    ensures if n.mode.ctx.state == P.RECEIVING then EndsWith(n', n.mode.ctx, 0xFE) else n'.store == n.store
    ensures Abort(n.mode.ctx, n.store).reply == Ack(n.mode.ctx.w.next, 0)
  {
  }

  /** No START goes on with a transfer that has ended. */
  lemma EndedIsNotResumed(n: Node, c: Ctx, state: byte, c': Ctx, flags: byte, slot: byte, headerCrc: u32)
    requires Real(n.store) && EndsWith(n, c, state) && (state == 2 || state == 0xFE)
    ensures !StartKindOf(c', n.store, flags, slot, headerCrc).Resume?
  {
    hide Version, Chunks;
  }

  /** Whatever an event that comes to its end records in the progress log, the record is numbered one
      more than the one before, from 1. */
  lemma RecordsAreNumbered(n: Node, e: Event, n': Node, check: Checker, full: bool)
    requires Step(n, e, n', check, full) && !n'.mode.Off? && n'.store.last != n.store.last
    ensures n'.store.last.Some?
    ensures n'.store.last.value.number == if n.store.last.None? then 1 else (n.store.last.value.number + 1) % 0x1_0000_0000
  {
    hide Version, Chunks, GoodSize, HeldAfter, Flushes, Receive, BodySize, Splice;
  }

  // ----- a transfer that is interrupted -----

  /** Five idle minutes make the device forget what it holds in RAM, not what is in flash: it answers
      data frames with NOT_STARTED, and the sender starts again. */
  lemma TimeoutForgets(c: Ctx, s: Store, seqNo: u16, payload: seq<byte>)
    requires c.state == P.RECEIVING && |payload| == 6
    ensures var c' := Timeout(c);
      && c'.state == P.IDLE && c'.held == [] && c'.w == c.w.(fill := 0) && c' == c.(state := c'.state, held := c'.held, w := c'.w)
      && Data(c', s, seqNo, payload).store == s && Data(c', s, seqNo, payload).reply.Nak?
      && CodeName(Data(c', s, seqNo, payload).reply.code) == "NOT_STARTED"
  {
  }

  /** Events that send nothing to the device. */
  predicate Silent(e: Event) {
    e.PowerUp? || e.Reset? || e.Confirm? || e.Tick?
  }

  lemma SilenceKeeps(n: Node, e: Event, n': Node, check: Checker, full: bool)
    requires Step(n, e, n', check, full) && Silent(e)
    ensures n'.store == n.store.(journal := n'.store.journal)
  {
  }

  lemma {:induction false} SilenceKeepsAll(nodes: seq<Node>, history: seq<Happening>, check: Checker, i: nat, j: nat)
    requires Run(nodes, history, check) && i <= j < |nodes| && forall k :: i <= k < j ==> Silent(history[k].event)
    ensures nodes[j].store == nodes[i].store.(journal := nodes[j].store.journal)
  {
    hide Step, Silent;
    if i < j {
      SilenceKeepsAll(nodes, history, check, i, j - 1);
      SilenceKeeps(nodes[j - 1], history[j - 1].event, nodes[j - 1 + 1], check, history[j - 1].full);
    }
  }

  /** However the device was reset, cut or left alone, the next START of the same transfer, if it is
      welcome, goes on behind the last window that is in flash, and writes nothing. */
  lemma InterruptedTransferGoesOn(nodes: seq<Node>, history: seq<Happening>, check: Checker, i: nat, j: nat)
    requires Run(nodes, history, check) && nodes[0].mode.Off? && i <= j < |history|
    requires nodes[i].mode.Running? && nodes[i].mode.ctx.state == P.RECEIVING
    requires forall k :: i <= k < j ==> Silent(history[k].event)
    requires var e := history[j].event;
      e.Start? && e.slot == nodes[i].mode.ctx.slot && e.size == nodes[i].mode.ctx.size && e.headerCrc == nodes[i].mode.ctx.headerCrc
    requires !nodes[j + 1].mode.Off? && Real(nodes[j].store) && nodes[j].mode.Running? && Welcome(nodes[j], history[j].event)
    ensures nodes[j + 1].store == nodes[j].store && nodes[j + 1].mode.Running?
    ensures nodes[j + 1].mode.ctx.w.next == nodes[i].mode.ctx.w.next && nodes[j + 1].mode.ctx.w.fill == 0
  {
    hide Step, Welcome, Recorded, GoodSize;
    RunRecords(nodes, history, check, i);
    SilenceKeepsAll(nodes, history, check, i, j);
    RecordIsSame(nodes[i], nodes[j], history[j].event);
    StartIsTaken(nodes[j], history[j].event, nodes[j + 1], check, history[j].full);
  }

  lemma RecordIsSame(n: Node, m: Node, e: Event)
    requires n.mode.Running? && n.mode.ctx.state == P.RECEIVING && Recorded(n) && m.store.last == n.store.last
    requires e.Start? && e.slot == n.mode.ctx.slot && e.size == n.mode.ctx.size && e.headerCrc == n.mode.ctx.headerCrc
    ensures SameTransfer(m, e) && m.store.last.value.chunks == n.mode.ctx.w.next
  {
    hide GoodSize, Chunks;
    SizeIsGood(e.size, n.mode.ctx.w.next);
  }

  // ----- the way of an update -----

  ghost predicate Completes(n: Node, e: Event, n': Node, check: Checker) {
    Step(n, e, n', check, false) && (e.Reset? || !n'.mode.Off?)
  }

  /** An update that deserves it gets a trial at the next boot and, once confirmed, is the active
      image that boots from then on. */
  lemma UpdateTakesHold(n: seq<Node>, check: Checker)
    requires |n| == 7 && n[0].mode.Running? && Real(n[0].store) && n[0].store.journal.number < LAST_NUMBER - 3
    requires var c := n[0].mode.ctx; c.state == P.RECEIVING && c.slot <= J.SLOT_B && Deserves(c, n[0].store, check)
    requires Completes(n[0], FinishFrame, n[1], check) && Completes(n[1], Reset, n[2], check) && Completes(n[2], PowerUp, n[3], check)
    requires Completes(n[3], Confirm, n[4], check) && Completes(n[4], Reset, n[5], check) && Completes(n[5], PowerUp, n[6], check)
    ensures var slot := n[0].mode.ctx.slot;
      && n[3].mode == Running(Booted(slot)) && TrialBoot(n[2], n[3]) && n[3].store.journal.attempts == 1
      && n[6].mode == Running(Booted(slot)) && !TrialBoot(n[5], n[6])
      && n[6].store.journal == J.BootState(n[0].store.journal.number + 3, slot, J.SLOT_NONE, 0, 1)
      && n[6].store.slotA == n[0].store.slotA && n[6].store.slotB == n[0].store.slotB
  {
    hide Step, Deserves;
    var slot := n[0].mode.ctx.slot;
    FinishInstalls(n[0], n[1], check, false);
    ResetKeeps(n[1], n[2], check);
    DeservesIsValid(n[0].mode.ctx, n[0].store, n[2].store, check);
    PowerUpSettles(n[2], n[3], check, false);
    ConfirmMakesActive(n[3], n[4], check, false);
    ResetKeeps(n[4], n[5], check);
    ConfirmedBoots(n[3], n[4], n[6], check, false, false);
  }

  lemma ResetKeeps(n: Node, n': Node, check: Checker)
    requires Step(n, Reset, n', check, false)
    ensures n' == Node(n.store, Off)
  {
  }

  lemma DeservesIsValid(c: Ctx, s: Store, s': Store, check: Checker)
    requires |s.slotA| == |s.slotB| == SLOT_SIZE && Deserves(c, s, check) && s'.slotA == s.slotA && s'.slotB == s.slotB
    ensures Valid(s', c.slot, check)
  {
  }

  // ----- signatures -----

  /** The slot's image bears a signature that verifies. */
  predicate Signed(s: Store, slot: byte, verify: Verifier)
    requires |s.slotA| == |s.slotB| == SLOT_SIZE
  {
    var bytes := SlotOf(s, slot);
    BodySize(bytes) <= BODY_MAX && verify(bytes[32..96], SignedMessage(bytes))
  }

  /** The bootloader starts no image whose signature does not verify; with a key that verifies
      nothing, it starts none at all. */
  lemma OnlySignedImagesRun(n: Node, n': Node, verify: Verifier, full: bool)
    requires Step(n, PowerUp, n', Validation(verify), full) && n'.mode.Running?
    ensures n'.mode.ctx.running <= J.SLOT_B && Signed(n'.store, n'.mode.ctx.running, verify)
    ensures exists signature, message :: verify(signature, message)
  {
    hide Validate, SignedMessage;
    var bytes := SlotOf(n.store, n'.mode.ctx.running);
    assert Validate(bytes, n'.mode.ctx.running, verify) == ImageOk;
    SignatureDecides(bytes, n'.mode.ctx.running, verify);
  }

  /** No image becomes pending whose signature does not verify. */
  lemma OnlySignedImagesArePending(n: Node, e: Event, n': Node, verify: Verifier, full: bool)
    requires Step(n, e, n', Validation(verify), full) && n'.store.journal.pending != J.SLOT_NONE && n'.store.journal.pending != n.store.journal.pending
    ensures n'.store.journal.pending == n.mode.ctx.slot && Signed(n'.store, n'.store.journal.pending, verify)
  {
    hide Validate, SignedMessage, DataDone, DataCut, HoldsInSlot, StartKindOf, Chunks, Version, BodySize;
    if e.DataFrame? {
      DataStepKeepsJournal(n, e, n', Validation(verify), full);
      assert false;
    } else {
      PendingFromFinish(n, e, n', Validation(verify), full);
      var slot := n.mode.ctx.slot;
      SignatureDecides(SlotOf(n.store, slot), slot, verify);
    }
  }

  lemma PendingFromFinish(n: Node, e: Event, n': Node, check: Checker, full: bool)
    requires !e.DataFrame? && Step(n, e, n', check, full) && n'.store.journal.pending != J.SLOT_NONE && n'.store.journal.pending != n.store.journal.pending
    ensures e.FinishFrame? && n.mode.Running? && n'.store.journal.pending == n.mode.ctx.slot
    ensures check(SlotOf(n.store, n.mode.ctx.slot), n.mode.ctx.slot) == ImageOk && SlotOf(n'.store, n.mode.ctx.slot) == SlotOf(n.store, n.mode.ctx.slot)
  {
    hide StartKindOf, Chunks, Version, BodySize;
  }
}

/** The whole device over a run: power-up, resets, confirmation, update frames and power cuts
    inside any of them, in any order. */
module Systems {
  import opened Bytes
  import opened Stores
  import opened Image
  import opened Transfer
  import opened TransferProofs
  import opened Boot
  import opened Updaters
  import FlashMemory
  import J = Journal
  import P = Progress

  datatype Mode = Off | Running(ctx: Ctx) | Safe

  datatype Node = Node(store: Store, mode: Mode)

  /** START_A and START_B are one event: the sender sends them as a pair. */
  datatype Event =
    | PowerUp
    | Reset
    | Confirm
    | Start(size: u32, version: u32, flags: byte, slot: byte, headerCrc: u32)
    | DataFrame(seqNo: u16, payload: seq<byte>)
    | FinishFrame
    | AbortFrame
    | Tick

  /** What every store read from flash is. */
  predicate Real(s: Store) {
    |s.slotA| == |s.slotB| == SLOT_SIZE && J.InRange(s.journal)
  }

  /** What can happen at all, with data frames numbered below the total. Their contents are
      free, and so is every START. */
  predicate Allowed(n: Node, e: Event) {
    match e
    case PowerUp => n.mode.Off?
    case Reset => !n.mode.Off?
    case DataFrame(k, payload) =>
      n.mode.Running? && |payload| == CHUNK && (n.mode.ctx.state == P.RECEIVING ==> k < n.mode.ctx.w.total)
    case _ => n.mode.Running?
  }

  /** The one rule for whoever starts transfers: no START into the active slot while another
      image runs. Both slots can be read from the device's INFO reply. */
  predicate SparesActive(n: Node, e: Event) {
    e.Start? && n.mode.Running? ==> n.mode.ctx.running == n.store.journal.active || e.slot != n.store.journal.active
  }

  /** The context after `update_init`. */
  function Booted(running: byte): Ctx {
    Ctx(P.IDLE, running, 0, 0, 0, 0, 0, false, Receiver(0, 0, 0, 0), [])
  }

  predicate HoldsInSlot(c: Ctx, s: Store, seqNo: u16, payload: seq<byte>)
    requires |payload| == CHUNK
  {
    Accepts(c, seqNo) ==> c.w.next * CHUNK + |HeldAfter(c, seqNo, payload)| <= |SlotOf(s, c.slot)|
  }

  /** A data frame, refused by flash or not. */
  ghost predicate DataDone(c: Ctx, s: Store, seqNo: u16, payload: seq<byte>, c': Ctx, s': Store)
    requires |payload| == CHUNK
  {
    if HoldsInSlot(c, s, seqNo, payload) && Takes(c, s, seqNo, payload) then
      Data(c, s, seqNo, payload).ctx == c' && Data(c, s, seqNo, payload).store == s'
    else
      c'.state == P.IDLE && c'.running == c.running && s' == WithSlot(s, c.slot, SlotOf(s', c.slot))
  }

  /** The event runs to its end. */
  ghost predicate Done(n: Node, e: Event, n': Node, check: Checker)
    requires Real(n.store) && Allowed(n, e)
  {
    var s, s' := n.store, n'.store;
    match e
    case PowerUp =>
      var d := Decide(s, check);
      BootDone(s, s', check) && n'.mode == if d.chosen == J.SLOT_NONE then Safe else Running(Booted(d.chosen))
    case Reset => n' == Node(s, Off)
    case Confirm =>
      && n'.mode == n.mode
      && if NeedsConfirm(s.journal, n.mode.ctx.running) then JournalDone(s, s', Confirmed(s.journal, n.mode.ctx.running)) else s' == s
    case Start(size, version, flags, slot, headerCrc) =>
      var o := StartB(StartA(n.mode.ctx, size, version), s, flags, slot, headerCrc);
      n' == Node(o.store, Running(o.ctx))
    case DataFrame(k, payload) => n'.mode.Running? && DataDone(n.mode.ctx, s, k, payload, n'.mode.ctx, s')
    case FinishFrame => n' == Node(Finish(n.mode.ctx, s, check).store, Running(Finish(n.mode.ctx, s, check).ctx))
    case AbortFrame => n' == Node(Abort(n.mode.ctx, s).store, Running(Abort(n.mode.ctx, s).ctx))
    case Tick => n' == n || n' == Node(s, Running(Timeout(n.mode.ctx)))
  }

  /** Power fails inside the event. `full` tells that the progress log was full. */
  ghost predicate Cut(n: Node, e: Event, s': Store, check: Checker, full: bool)
    requires Real(n.store) && Allowed(n, e)
  {
    var s := n.store;
    match e
    case PowerUp => BootCut(s, s', check)
    case Reset => false
    case Confirm => NeedsConfirm(s.journal, n.mode.ctx.running) && JournalCut(s, s', Confirmed(s.journal, n.mode.ctx.running))
    case Start(size, version, flags, slot, headerCrc) => StartBCut(StartA(n.mode.ctx, size, version), s, s', flags, slot, headerCrc, full)
    case DataFrame(k, payload) => HoldsInSlot(n.mode.ctx, s, k, payload) && DataCut(n.mode.ctx, s, s', k, payload, full)
    case FinishFrame => FinishCut(n.mode.ctx, s, s', check, full)
    case AbortFrame => AbortCut(n.mode.ctx, s, s', full)
    case Tick => false
  }

  ghost predicate Step(n: Node, e: Event, n': Node, check: Checker, full: bool) {
    && Real(n.store) && Real(n'.store) && Allowed(n, e)
    && (Done(n, e, n', check) || (n'.mode.Off? && Cut(n, e, n'.store, check, full)))
  }

  /** What the flash tells of one event and the context it happened in. */
  datatype Happening = Happening(event: Event, full: bool)

  ghost predicate Run(nodes: seq<Node>, history: seq<Happening>, check: Checker) {
    && |nodes| == |history| + 1
    && forall k :: 0 <= k < |history| ==> Step(nodes[k], history[k].event, nodes[k + 1], check, history[k].full)
  }

  /** Every START of the run obeys the rule. */
  predicate AllSpareActive(nodes: seq<Node>, history: seq<Happening>)
    requires |nodes| == |history| + 1
  {
    forall k :: 0 <= k < |history| ==> SparesActive(nodes[k], history[k].event)
  }

  // ----- what every step keeps -----

  predicate ValidCtx(c: Ctx) {
    c.state == P.RECEIVING ==>
      && c.slot <= J.SLOT_B && c.slot != c.running && GoodSize(c.size) && c.w.total == Chunks(c.size)
      && c.w.fill < WINDOW && c.w.next + c.w.fill <= c.w.total && (c.w.fill > 0 ==> c.w.next + c.w.fill < c.w.total)
      && |c.held| == CHUNK * c.w.fill
  }

  predicate TrialsLeft(b: J.BootState) {
    b.pending != J.SLOT_NONE ==> b.pending != b.active && b.attempts <= MAX_ATTEMPTS
  }

  /** The active slot holds a valid image and so does the slot that runs, which is the active or
      the pending one; a transfer goes on only while the active image runs, and into the other
      slot. */
  predicate Inv(n: Node, check: Checker) {
    && |n.store.slotA| == |n.store.slotB| == SLOT_SIZE && J.InRange(n.store.journal)
    && Valid(n.store, n.store.journal.active, check)
    && TrialsLeft(n.store.journal)
    && !n.mode.Safe?
    && (n.mode.Running? ==>
         var c := n.mode.ctx;
         && c.running <= J.SLOT_B && Valid(n.store, c.running, check) && ValidCtx(c)
         && (c.running == n.store.journal.active || c.running == n.store.journal.pending)
         && (c.state == P.RECEIVING ==> c.running == n.store.journal.active))
  }

  /** Neither the active slot nor the one that runs has changed. */
  predicate SlotsKept(n: Node, n': Node) {
    && (n.store.journal.active <= J.SLOT_B ==> SlotOf(n'.store, n.store.journal.active) == SlotOf(n.store, n.store.journal.active))
    && (n.mode.Running? && n.mode.ctx.running <= J.SLOT_B ==> SlotOf(n'.store, n.mode.ctx.running) == SlotOf(n.store, n.mode.ctx.running))
  }

  lemma PowerUpKeeps(n: Node, n': Node, check: Checker, full: bool)
    requires Inv(n, check) && Step(n, PowerUp, n', check, full)
    ensures Inv(n', check) && SlotsKept(n, n')
  {
  }

  lemma ConfirmKeeps(n: Node, n': Node, check: Checker, full: bool)
    requires Inv(n, check) && Step(n, Confirm, n', check, full)
    ensures Inv(n', check) && SlotsKept(n, n')
  {
  }

  lemma StartKeeps(n: Node, e: Event, n': Node, check: Checker, full: bool)
    requires Inv(n, check) && e.Start? && Step(n, e, n', check, full) && SparesActive(n, e)
    ensures Inv(n', check) && SlotsKept(n, n')
  {
    hide Chunks, RunningVersion;
    ChunkCountIfGood(e.size);
  }

  lemma ChunkCountIfGood(size: u32)
    ensures GoodSize(size) ==> 0 < Chunks(size) < 0x1_0000
  {
  }

  lemma HeldLength(c: Ctx, seqNo: u16, payload: seq<byte>)
    requires ValidCtx(c) && |payload| == CHUNK && Accepts(c, seqNo) && seqNo < c.w.total
    ensures seqNo == c.w.next + c.w.fill
    ensures c.w.next * CHUNK + |HeldAfter(c, seqNo, payload)| <= c.size <= SLOT_SIZE
    ensures seqNo + 1 < c.w.total ==> |HeldAfter(c, seqNo, payload)| == CHUNK * (c.w.fill + 1)
  {
    hide ChunkLen, Chunks;
    ChunkCountIfGood(c.size);
    ChunkArithmetic(c.size, seqNo);
  }

  lemma AcceptedFill(w: Receiver, seqNo: u16)
    requires seqNo == w.next + w.fill < w.total && w.fill < WINDOW
    ensures var w' := Receive(w, seqNo).0; w'.total == w.total && w'.fill < WINDOW && w'.next + w'.fill == seqNo + 1
    ensures var w' := Receive(w, seqNo).0; if Flushes(w, seqNo) then w'.fill == 0 else w'.fill == w.fill + 1 && seqNo + 1 < w.total
  {
  }

  lemma AcceptKeepsValid(c: Ctx, s: Store, seqNo: u16, payload: seq<byte>)
    requires ValidCtx(c) && |payload| == CHUNK && Accepts(c, seqNo) && seqNo < c.w.total
    requires c.w.next * CHUNK + |HeldAfter(c, seqNo, payload)| <= |SlotOf(s, c.slot)|
    ensures ValidCtx(Data(c, s, seqNo, payload).ctx)
  {
    hide Chunks, HeldAfter, Receive, Flushes, Flushed;
    HeldLength(c, seqNo, payload);
    AcceptedFill(c.w, seqNo);
  }

  /** Whatever flash makes of a data frame, only the slot of the transfer changes. */
  lemma DataStaysInSlot(n: Node, e: Event, n': Node, check: Checker, full: bool)
    requires Inv(n, check) && e.DataFrame? && Step(n, e, n', check, full)
    ensures n'.store.journal == n.store.journal && SlotsKept(n, n')
    ensures n.mode.ctx.state != P.RECEIVING ==> n'.store == n.store
  {
    hide Chunks, HeldAfter, Receive, Flushes, Splice, Fits, ChunkLen;
    var c := n.mode.ctx;
    if Accepts(c, e.seqNo) {
      HeldLength(c, e.seqNo, e.payload);
    }
  }

  lemma DataKeeps(n: Node, e: Event, n': Node, check: Checker, full: bool)
    requires Inv(n, check) && e.DataFrame? && Step(n, e, n', check, full)
    ensures Inv(n', check) && SlotsKept(n, n')
  {
    hide Chunks, HeldAfter, Receive, Flushes, Flushed, Takes, DataCut;
    var c := n.mode.ctx;
    DataStaysInSlot(n, e, n', check, full);
    if Accepts(c, e.seqNo) {
      HeldLength(c, e.seqNo, e.payload);
      AcceptKeepsValid(c, n.store, e.seqNo, e.payload);
    } else {
      RefusedWindow(c.w, e.seqNo);
    }
  }

  lemma FinishKeeps(n: Node, n': Node, check: Checker, full: bool)
    requires Inv(n, check) && Step(n, FinishFrame, n', check, full)
    ensures Inv(n', check) && SlotsKept(n, n')
  {
    hide Chunks, Judge;
  }

  /** The events that write no journal record and no slot. */
  lemma RestKeeps(n: Node, e: Event, n': Node, check: Checker, full: bool)
    requires Inv(n, check) && (e.Reset? || e.AbortFrame? || e.Tick?) && Step(n, e, n', check, full)
    ensures Inv(n', check) && SlotsKept(n, n')
  {
    hide Chunks, RecordOf;
  }

  lemma StepKeeps(n: Node, e: Event, n': Node, check: Checker, full: bool)
    requires Inv(n, check) && Step(n, e, n', check, full) && SparesActive(n, e)
    ensures Inv(n', check) && SlotsKept(n, n')
  {
    hide Inv, Step, SlotsKept, SparesActive;
    match e {
      case PowerUp => PowerUpKeeps(n, n', check, full);
      case Confirm => ConfirmKeeps(n, n', check, full);
      case Start(_, _, _, _, _) => StartKeeps(n, e, n', check, full);
      case DataFrame(_, _) => DataKeeps(n, e, n', check, full);
      case FinishFrame => FinishKeeps(n, n', check, full);
      case _ => RestKeeps(n, e, n', check, full);
    }
  }

  // ----- every run -----

  /** From a device whose active slot holds a valid image: no run that obeys the rule, whatever
      its resets, frames and power cuts, reaches safe mode, loses the valid image in the active
      slot, or boots a slot that does not validate. */
  lemma {:induction false} NeverSafeMode(nodes: seq<Node>, history: seq<Happening>, check: Checker, k: nat)
    requires Run(nodes, history, check) && AllSpareActive(nodes, history) && Inv(nodes[0], check) && k < |nodes|
    ensures Inv(nodes[k], check)
  {
    hide Inv, Step, SparesActive;
    if k > 0 {
      NeverSafeMode(nodes, history, check, k - 1);
      StepKeeps(nodes[k - 1], history[k - 1].event, nodes[k], check, history[k - 1].full);
    }
  }

  /** Nobody touches a slot for as long as it is the active one. */
  lemma {:induction false} ActiveSlotUntouched(nodes: seq<Node>, history: seq<Happening>, check: Checker, i: nat, j: nat, slot: byte)
    requires Run(nodes, history, check) && AllSpareActive(nodes, history) && Inv(nodes[0], check) && i <= j < |nodes|
    requires forall k :: i <= k < j ==> nodes[k].store.journal.active == slot
    ensures slot <= J.SLOT_B ==> SlotOf(nodes[j].store, slot) == SlotOf(nodes[i].store, slot)
  {
    hide Inv, Step, SparesActive;
    if i < j {
      ActiveSlotUntouched(nodes, history, check, i, j - 1, slot);
      NeverSafeMode(nodes, history, check, j - 1);
      StepKeeps(nodes[j - 1], history[j - 1].event, nodes[j], check, history[j - 1].full);
    }
  }

  // ----- trial boots -----

  /** The bootloader hands over to the pending image. */
  predicate TrialBoot(n: Node, n': Node) {
    n.mode.Off? && n'.mode.Running? && n.store.journal.pending != J.SLOT_NONE && n'.mode.ctx.running == n.store.journal.pending
  }

  function TrialBoots(nodes: seq<Node>, i: nat, j: nat): nat
    requires i <= j < |nodes|
  {
    if i == j then 0 else TrialBoots(nodes, i, j - 1) + (if TrialBoot(nodes[j - 1], nodes[j]) then 1 else 0)
  }

  /** An image stays pending from one node to the next: it is not confirmed, not dropped and
      not installed anew. */
  predicate StaysPending(n: Node, n': Node) {
    && n.store.journal.pending != J.SLOT_NONE && n'.store.journal.pending != J.SLOT_NONE
    && (n'.store.journal == n.store.journal || n'.store.journal.attempts > 0)
  }

  lemma OneSlotOnly(s: Store, s': Store, slot: byte)
    requires s' == WithSlot(s, slot, SlotOf(s', slot))
    ensures s'.journal == s.journal
  {
  }

  lemma DataKeepsJournal(c: Ctx, s: Store, seqNo: u16, payload: seq<byte>, s': Store, full: bool)
    requires |payload| == CHUNK && HoldsInSlot(c, s, seqNo, payload)
    ensures Data(c, s, seqNo, payload).store.journal == s.journal
    ensures DataCut(c, s, s', seqNo, payload, full) ==> s'.journal == s.journal
  {
    hide Receive, Flushes, HeldAfter, Splice;
  }

  /** No data frame, taken, refused or cut, touches the journal. */
  lemma DataStepKeepsJournal(n: Node, e: Event, n': Node, check: Checker, full: bool)
    requires e.DataFrame? && Step(n, e, n', check, full)
    ensures n'.store.journal == n.store.journal
  {
    hide Data, DataCut, Takes, HoldsInSlot, WithSlot, SlotOf;
    var c, s := n.mode.ctx, n.store;
    if HoldsInSlot(c, s, e.seqNo, e.payload) {
      DataKeepsJournal(c, s, e.seqNo, e.payload, n'.store, full);
    }
    if n'.store == WithSlot(s, c.slot, SlotOf(n'.store, c.slot)) {
      OneSlotOnly(s, n'.store, c.slot);
    }
  }

  /** A trial is counted in flash before the image gets to run, and only a count below the
      limit is raised. Once the journal's numbers are used up, it stays as it is and nothing is
      counted any more. */
  lemma TrialIsCounted(n: Node, e: Event, n': Node, check: Checker, full: bool)
    requires Step(n, e, n', check, full) && StaysPending(n, n')
    ensures n'.store.journal.attempts >= n.store.journal.attempts
    ensures n.store.journal.number == 0xFFFF_FFFF ==> n'.store.journal == n.store.journal
    ensures n.store.journal.number < 0xFFFF_FFFF ==>
      && (TrialBoot(n, n') ==> n'.store.journal.attempts == n.store.journal.attempts + 1 <= 3)
      && (n'.store.journal.attempts <= 3 || n'.store.journal.attempts == n.store.journal.attempts)
  {
    hide Judge, StartKindOf, Chunks, DataDone, DataCut, HoldsInSlot;
    if e.DataFrame? {
      DataStepKeepsJournal(n, e, n', check, full);
    }
  }

  /** An image gets at most three trial boots per installation, however often the device is
      reset or loses power, whatever the slots hold and whatever is sent to it; and the count
      in flash is never behind. The journal's numbers must last that long. */
  lemma {:induction false} AtMostThreeTrials(nodes: seq<Node>, history: seq<Happening>, check: Checker, i: nat, j: nat)
    requires Run(nodes, history, check) && i <= j < |nodes|
    requires forall k :: i <= k < j ==> StaysPending(nodes[k], nodes[k + 1])
    requires forall k :: i <= k < j ==> nodes[k].store.journal.number < 0xFFFF_FFFF
    ensures TrialBoots(nodes, i, j) <= 3
    ensures nodes[i].store.journal.attempts + TrialBoots(nodes, i, j) <= nodes[j].store.journal.attempts
    ensures TrialBoots(nodes, i, j) > 0 ==> nodes[j].store.journal.attempts <= 3
  {
    hide Step, TrialBoot, StaysPending;
    if i < j {
      AtMostThreeTrials(nodes, history, check, i, j - 1);
      var n, n' := nodes[j - 1], nodes[j];
      assert StaysPending(n, nodes[j - 1 + 1]);
      TrialIsCounted(n, history[j - 1].event, n', check, history[j - 1].full);
    }
  }

  /** Once the count is used up, the next power-up that comes to its end clears the pending
      image; it boots the active one, or safe mode if that does not validate. */
  lemma RollbackFollows(n: Node, n': Node, check: Checker, full: bool)
    requires Step(n, PowerUp, n', check, full) && !n'.mode.Off?
    requires n.store.journal.pending != J.SLOT_NONE && n.store.journal.attempts >= 3
    ensures n'.mode == if Valid(n.store, n.store.journal.active, check) then Running(Booted(n.store.journal.active)) else Safe
    ensures n.store.journal.number < 0xFFFF_FFFF ==> n'.store.journal.(number := 0) == J.BootState(0, n.store.journal.active, J.SLOT_NONE, 0, 0)
  {
  }

  // ----- why a transfer must not start during a trial -----

  /** A START takes the valid image from the active slot in exactly one case: it erases, and
      the slot is the active one. That can only happen while another slot runs. */
  lemma StartSparesActive(c: Ctx, s: Store, flags: byte, slot: byte, headerCrc: u32, check: Checker)
    requires Real(s) && RefusesErased(check) && Valid(s, s.journal.active, check)
    ensures Valid(StartB(c, s, flags, slot, headerCrc).store, s.journal.active, check)
      <==> !(StartKindOf(c, s, flags, slot, headerCrc).Fresh? && slot == s.journal.active)
    ensures StartKindOf(c, s, flags, slot, headerCrc).Fresh? && slot == s.journal.active ==> c.running != s.journal.active
  {
    hide RunningVersion, Chunks, Started;
  }

  // ----- the progress claim over a run -----

  ghost predicate Claiming(n: Node, images: Images) {
    && |n.store.slotA| == |n.store.slotB| == SLOT_SIZE
    && ClaimHolds(n.store, images)
    && (n.mode.Running? ==> InSession(n.mode.ctx, n.store, images))
  }

  /** Data frames carry the image that their START announced. */
  ghost predicate GenuineEvent(n: Node, e: Event, images: Images) {
    e.DataFrame? && n.mode.Running? ==> Genuine(n.mode.ctx, e.seqNo, e.payload, images)
  }

  /** Power fails inside what a running image does. */
  predicate CutShort(n: Node, e: Event, n': Node) {
    n.mode.Running? && n'.mode.Off? && !e.Reset?
  }

  /** The cut has brought back an old record: the last one is now a RECEIVING record that the
      same cut could not have left in a log with room. That takes a cut inside the erase of a
      full log. */
  ghost predicate OldRecordReturns(n: Node, e: Event, n': Node, check: Checker) {
    && CutShort(n, e, n') && Real(n.store) && Allowed(n, e)
    && n'.store.last.Some? && n'.store.last.value.state == P.RECEIVING
    && !Cut(n, e, n'.store, check, false)
  }

  /** The cut of a START has changed the slot for which the last record spoke, and still speaks. */
  predicate RecordOutlivesSlot(n: Node, e: Event, n': Node) {
    && CutShort(n, e, n') && e.Start? && e.slot <= J.SLOT_B
    && Endangered(n.store, e.slot) && n'.store.last == n.store.last
    && SlotOf(n'.store, e.slot) != SlotOf(n.store, e.slot)
  }

  /** The two things that a cut may do to break the claim. */
  ghost predicate OutsideTheGaps(n: Node, e: Event, n': Node, check: Checker) {
    !OldRecordReturns(n, e, n', check) && !RecordOutlivesSlot(n, e, n')
  }

  /** Flash takes every window of a genuine transfer. */
  lemma GenuineIsTaken(c: Ctx, s: Store, seqNo: u16, payload: seq<byte>, images: Images)
    requires Sound(c, s, images) && |payload| == CHUNK && Genuine(c, seqNo, payload, images)
    ensures HoldsInSlot(c, s, seqNo, payload) && Takes(c, s, seqNo, payload)
  {
    hide HeldAfter, Flushes, FlashMemory.Programmable, Matches, Chunks, Part;
    if Accepts(c, seqNo) {
      FlushIsNeverRefused(c, s, seqNo, payload, images);
    }
  }

  lemma StartClaims(n: Node, e: Event, n': Node, check: Checker, images: Images)
    requires Claiming(n, images) && RightSizes(images) && e.Start? && Step(n, e, n', check, false)
    requires !RecordOutlivesSlot(n, e, n')
    ensures Claiming(n', images)
  {
    hide ClaimHolds, InSession, StartB, StartBCut, Endangered;
    var c := StartA(n.mode.ctx, e.size, e.version);
    if n'.mode.Off? {
      StartCutMeans(c, n.store, n'.store, e.flags, e.slot, e.headerCrc);
      StartCutKeepsClaim(c, n.store, n'.store, e.flags, e.slot, e.headerCrc, images);
    } else {
      StartKeepsSound(c, n.store, e.flags, e.slot, e.headerCrc, images);
    }
  }

  lemma StartCutMeans(c: Ctx, s: Store, s': Store, flags: byte, slot: byte, headerCrc: u32)
    requires |s.slotA| == |s.slotB| == SLOT_SIZE && StartBCut(c, s, s', flags, slot, headerCrc, false)
    ensures slot <= J.SLOT_B
  {
    hide RunningVersion;
  }

  lemma DataClaims(n: Node, e: Event, n': Node, check: Checker, images: Images)
    requires Claiming(n, images) && e.DataFrame? && GenuineEvent(n, e, images) && Step(n, e, n', check, false)
    ensures Claiming(n', images)
  {
    hide ClaimHolds, InSession, Data, DataCut, Takes, HoldsInSlot, Genuine;
    GenuineIsTaken(n.mode.ctx, n.store, e.seqNo, e.payload, images);
    DataKeepsSound(n.mode.ctx, n.store, e.seqNo, e.payload, images);
    if n'.mode.Off? {
      DataCutKeepsClaim(n.mode.ctx, n.store, n'.store, e.seqNo, e.payload, false, images);
      NotReturned(n.mode.ctx, n.store, n'.store, e.seqNo, e.payload);
    }
  }

  lemma NotReturned(c: Ctx, s: Store, s': Store, seqNo: u16, payload: seq<byte>)
    requires |payload| == CHUNK && HoldsInSlot(c, s, seqNo, payload) && DataCut(c, s, s', seqNo, payload, false)
    ensures !OldRecordAfterData(c, s, s', seqNo, payload)
  {
  }

  lemma EndClaims(n: Node, e: Event, n': Node, check: Checker, images: Images)
    requires Claiming(n, images) && !e.Start? && !e.DataFrame? && Step(n, e, n', check, false)
    ensures Claiming(n', images)
  {
    hide Claims, Judge, Part, Chunks, Finish, Abort, FinishCut, AbortCut;
    if e.FinishFrame? || e.AbortFrame? || e.Tick? {
      EndKeepsSound(n.mode.ctx, n.store, check, images);
      if n'.mode.Off? {
        EndCutKeepsClaim(n.mode.ctx, n.store, n'.store, check, images);
      }
    }
  }

  /** Whether the log was full matters only to what a cut leaves, and only if it brings back an
      old record. */
  lemma FullMatters(n: Node, e: Event, n': Node, check: Checker, full: bool)
    requires Step(n, e, n', check, full) && !OldRecordReturns(n, e, n', check)
    ensures Step(n, e, n', check, false) || (n'.mode.Off? && (n'.store.last.None? || n'.store.last.value.state != P.RECEIVING))
  {
    hide Done, BootCut, StartBCut, DataCut, FinishCut, AbortCut, JournalCut, HoldsInSlot;
  }

  lemma NothingClaimed(n: Node, images: Images)
    requires Real(n.store) && n.mode.Off? && (n.store.last.None? || n.store.last.value.state != P.RECEIVING)
    ensures Claiming(n, images)
  {
  }

  /** Every step outside the gaps keeps the claim. */
  lemma StepClaims(n: Node, e: Event, n': Node, check: Checker, full: bool, images: Images)
    requires Claiming(n, images) && RightSizes(images) && GenuineEvent(n, e, images)
    requires Step(n, e, n', check, full) && OutsideTheGaps(n, e, n', check)
    ensures Claiming(n', images)
  {
    FullMatters(n, e, n', check, full);
    hide Claiming, GenuineEvent, RightSizes, Done, Cut, RecordOutlivesSlot, OldRecordReturns;
    if !Step(n, e, n', check, false) {
      NothingClaimed(n', images);
    } else if e.Start? {
      StartClaims(n, e, n', check, images);
    } else if e.DataFrame? {
      DataClaims(n, e, n', check, images);
    } else {
      EndClaims(n, e, n', check, images);
    }
  }

  /** At every point of every run the last progress record tells the truth about flash, and a
      running transfer holds exactly the chunks of the image that follow the recorded ones. */
  lemma {:induction false} ClaimsHoldThroughout(nodes: seq<Node>, history: seq<Happening>, check: Checker, images: Images, k: nat)
    requires Run(nodes, history, check) && RightSizes(images) && Claiming(nodes[0], images) && k < |nodes|
    requires forall i :: 0 <= i < |history| ==> GenuineEvent(nodes[i], history[i].event, images) && OutsideTheGaps(nodes[i], history[i].event, nodes[i + 1], check)
    ensures Claiming(nodes[k], images)
  {
    hide Claiming, Step, GenuineEvent, OutsideTheGaps, RightSizes;
    if k > 0 {
      ClaimsHoldThroughout(nodes, history, check, images, k - 1);
      StepClaims(nodes[k - 1], history[k - 1].event, nodes[k], check, history[k - 1].full, images);
    }
  }
}

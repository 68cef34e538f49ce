/** What a trial boots: the bytes that FINISH has judged, unless a START has erased them. */
module Trials {
  import opened Bytes
  import opened Options
  import opened Stores
  import opened Image
  import opened Transfer
  import opened Boot
  import opened TransferProofs
  import opened Systems
  import opened Updaters
  import J = Journal
  import P = Progress

  /** The record of a running transfer is the last one. */
  predicate Recorded(n: Node) {
    n.mode.Running? && n.mode.ctx.state == P.RECEIVING ==>
      var c := n.mode.ctx;
      && c.slot <= J.SLOT_B && GoodSize(c.size) && c.w.total == Chunks(c.size) && c.w.next + c.w.fill <= c.w.total
      && RecordsSession(c, n.store.last)
  }

  lemma RecordedStarts(c: Ctx, s: Store, flags: byte, slot: byte, headerCrc: u32)
    requires |s.slotA| == |s.slotB| == SLOT_SIZE && c.haveA
    ensures var o := StartB(c, s, flags, slot, headerCrc); Recorded(Node(o.store, Running(o.ctx)))
  {
    hide RunningVersion;
    ChunkCountIfGood(c.size);
  }

  lemma RecordedData(c: Ctx, s: Store, seqNo: u16, payload: seq<byte>)
    requires |payload| == CHUNK && HoldsInSlot(c, s, seqNo, payload) && Recorded(Node(s, Running(c))) && (c.state == P.RECEIVING ==> seqNo < c.w.total)
    ensures var o := Data(c, s, seqNo, payload); Recorded(Node(o.store, Running(o.ctx)))
  {
    hide Receive, Flushes, HeldAfter, Splice, Chunks;
    ReceiveNext(c.w, seqNo);
    ChunkCountIfGood(c.size);
  }

  lemma ReceiveNext(w: Receiver, seqNo: u16)
    ensures var w' := Receive(w, seqNo).0;
      w'.total == w.total && (seqNo != Expected(w) || !Flushes(w, seqNo) ==> w'.next == w.next)
    ensures w.next + w.fill <= w.total && seqNo < w.total ==> var w' := Receive(w, seqNo).0; w'.next + w'.fill <= w'.total
  {
  }

  lemma StepRecords(n: Node, e: Event, n': Node, check: Checker, full: bool)
    requires Recorded(n) && Step(n, e, n', check, full)
    ensures Recorded(n')
  {
    hide Chunks, Judge, DataDone, DataCut, StartB, StartBCut;
    if n'.mode.Running? {
      match e {
        case Start(size, version, flags, slot, headerCrc) => RecordedStarts(StartA(n.mode.ctx, size, version), n.store, flags, slot, headerCrc);
        case DataFrame(k, payload) => DataRecords(n, k, payload, n', check, full);
        case _ =>
      }
    }
  }

  lemma DataRecords(n: Node, k: u16, payload: seq<byte>, n': Node, check: Checker, full: bool)
    requires Recorded(n) && Step(n, DataFrame(k, payload), n', check, full) && n'.mode.Running?
    ensures Recorded(n')
  {
    hide Data, HoldsInSlot, Takes, Chunks, HeldAfter, RecordsSession;
    if HoldsInSlot(n.mode.ctx, n.store, k, payload) {
      RecordedData(n.mode.ctx, n.store, k, payload);
    }
  }

  // ----- nothing writes to the pending slot -----

  /** A START that erases the slot. */
  predicate Erases(n: Node, e: Event, slot: byte) {
    && Real(n.store) && e.Start? && n.mode.Running? && e.slot == slot
    && StartKindOf(StartA(n.mode.ctx, e.size, e.version), n.store, e.flags, slot, e.headerCrc).Fresh?
  }

  predicate SpeaksOfWhole(p: P.Progress) {
    p.chunks >= Chunks(p.imageSize)
  }

  /** ... and has run to its end or, cut, has already changed the slot. */
  predicate Erased(n: Node, e: Event, n': Node, slot: byte) {
    Erases(n, e, slot) && (n'.mode.Running? || !SameBytes(n, n', slot))
  }

  /** No chunk can be written to the slot: a transfer to it is complete, and so is any that
      could be resumed. */
  predicate Quiet(n: Node, slot: byte) {
    && (n.mode.Running? && n.mode.ctx.state == P.RECEIVING ==>
         n.mode.ctx.slot <= J.SLOT_B && (n.mode.ctx.slot == slot ==> n.mode.ctx.w.next == n.mode.ctx.w.total && n.mode.ctx.w.fill == 0))
    && QuietRecord(n.store.last, slot)
  }

  predicate QuietRecord(last: Option<P.Progress>, slot: byte) {
    last.Some? && last.value.state == P.RECEIVING && last.value.slot == slot ==> SpeaksOfWhole(last.value)
  }

  predicate SameBytes(n: Node, n': Node, slot: byte) {
    SlotOf(n'.store, slot) == SlotOf(n.store, slot)
  }

  lemma QuietLogCut(s: Store, s': Store, p: P.Progress, slot: byte)
    requires QuietRecord(s.last, slot) && LogCut(s, s', p, false)
    requires p.state == P.RECEIVING && p.slot == slot ==> SpeaksOfWhole(p)
    ensures QuietRecord(s'.last, slot) && s'.slotA == s.slotA && s'.slotB == s.slotB
  {
    hide Chunks;
  }

  lemma StartStaysQuiet(n: Node, e: Event, n': Node, check: Checker, slot: byte)
    requires e.Start? && Step(n, e, n', check, false) && slot <= J.SLOT_B && Quiet(n, slot) && !Erases(n, e, slot)
    ensures Quiet(n', slot) && SameBytes(n, n', slot)
  {
    hide RunningVersion, Chunks, LogCut, GoodSize;
    ChunkCountIfGood(e.size);
    var c, s := StartA(n.mode.ctx, e.size, e.version), n.store;
    if n'.mode.Off? && StartKindOf(c, s, e.flags, e.slot, e.headerCrc).Fresh? {
      var blank, p := WithSlot(s, e.slot, Blank(SLOT_SIZE)), RecordOf(Started(c, e.flags, e.slot, e.headerCrc, 0), P.RECEIVING);
      if LogCut(blank, n'.store, p, false) {
        QuietLogCut(blank, n'.store, p, slot);
      }
    }
  }

  lemma CompleteRefuses(c: Ctx, s: Store, seqNo: u16, payload: seq<byte>)
    requires c.state == P.RECEIVING && c.w.next == c.w.total && c.w.fill == 0 && seqNo < c.w.total && |payload| == CHUNK
    ensures !Accepts(c, seqNo) && HoldsInSlot(c, s, seqNo, payload) && Data(c, s, seqNo, payload) == Outcome(c, s, NoReply)
  {
  }

  lemma OtherSlotData(c: Ctx, s: Store, seqNo: u16, payload: seq<byte>, slot: byte)
    requires |payload| == CHUNK && HoldsInSlot(c, s, seqNo, payload) && slot <= J.SLOT_B && c.state == P.RECEIVING
    requires c.slot <= J.SLOT_B && c.slot != slot && QuietRecord(s.last, slot)
    ensures var o := Data(c, s, seqNo, payload); Quiet(Node(o.store, Running(o.ctx)), slot) && SlotOf(o.store, slot) == SlotOf(s, slot)
  {
    hide Receive, Flushes, HeldAfter, Splice, Chunks;
  }

  lemma OtherSlotCut(c: Ctx, s: Store, s': Store, seqNo: u16, payload: seq<byte>, slot: byte)
    requires |payload| == CHUNK && HoldsInSlot(c, s, seqNo, payload) && slot <= J.SLOT_B && c.slot <= J.SLOT_B && c.slot != slot
    requires QuietRecord(s.last, slot) && DataCut(c, s, s', seqNo, payload, false)
    ensures QuietRecord(s'.last, slot) && SlotOf(s', slot) == SlotOf(s, slot)
  {
    hide Receive, Flushes, HeldAfter, Splice, Chunks, LogCut;
    var held := HeldAfter(c, seqNo, payload);
    var whole, p := Flushed(c, s, held), RecordOf(Data(c, s, seqNo, payload).ctx, P.RECEIVING);
    if LogCut(whole, s', p, false) {
      QuietLogCut(whole, s', p, slot);
    }
  }

  lemma DataStaysQuiet(n: Node, e: Event, n': Node, check: Checker, slot: byte)
    requires e.DataFrame? && Step(n, e, n', check, false) && slot <= J.SLOT_B && Quiet(n, slot)
    ensures Quiet(n', slot) && SameBytes(n, n', slot)
  {
    hide Data, DataCut, Takes, HoldsInSlot, Chunks, Accepts;
    var c, s := n.mode.ctx, n.store;
    if c.state != P.RECEIVING {
      IdleIgnores(n, e, n', check);
    } else if c.slot == slot {
      CompleteRefuses(c, s, e.seqNo, e.payload);
      RefusedTakes(c, s, n'.store, e.seqNo, e.payload);
    } else {
      OtherSlotStaysQuiet(n, e, n', check, slot);
    }
  }

  lemma OtherSlotStaysQuiet(n: Node, e: Event, n': Node, check: Checker, slot: byte)
    requires e.DataFrame? && Step(n, e, n', check, false) && slot <= J.SLOT_B && Quiet(n, slot)
    requires n.mode.ctx.state == P.RECEIVING && n.mode.ctx.slot != slot
    ensures Quiet(n', slot) && SameBytes(n, n', slot)
  {
    hide Data, DataCut, Takes, Chunks, HeldAfter;
    var c, s := n.mode.ctx, n.store;
    if HoldsInSlot(c, s, e.seqNo, e.payload) {
      OtherSlotData(c, s, e.seqNo, e.payload, slot);
      if n'.mode.Off? && DataCut(c, s, n'.store, e.seqNo, e.payload, false) {
        OtherSlotCut(c, s, n'.store, e.seqNo, e.payload, slot);
      }
    }
  }

  lemma IdleIgnores(n: Node, e: Event, n': Node, check: Checker)
    requires e.DataFrame? && Step(n, e, n', check, false) && n.mode.ctx.state != P.RECEIVING
    ensures n' == n
  {
  }

  lemma RefusedTakes(c: Ctx, s: Store, s': Store, seqNo: u16, payload: seq<byte>)
    requires |payload| == CHUNK && !Accepts(c, seqNo) && HoldsInSlot(c, s, seqNo, payload)
    ensures Takes(c, s, seqNo, payload) && !DataCut(c, s, s', seqNo, payload, false)
  {
  }

  lemma FinishStaysQuiet(n: Node, n': Node, check: Checker, slot: byte)
    requires Step(n, FinishFrame, n', check, false) && slot <= J.SLOT_B && Quiet(n, slot)
    ensures Quiet(n', slot) && SameBytes(n, n', slot)
  {
    hide Judge, Chunks;
  }

  lemma OrderlyStepStaysQuiet(n: Node, e: Event, n': Node, check: Checker, slot: byte)
    requires Step(n, e, n', check, false) && slot <= J.SLOT_B && Quiet(n, slot) && !Erases(n, e, slot)
    ensures Quiet(n', slot) && SameBytes(n, n', slot)
  {
    hide Judge, Chunks, DataDone, DataCut, StartB, StartBCut, Erases;
    match e {
      case Start(_, _, _, _, _) => StartStaysQuiet(n, e, n', check, slot);
      case DataFrame(_, _) => DataStaysQuiet(n, e, n', check, slot);
      case FinishFrame => FinishStaysQuiet(n, n', check, slot);
      case _ =>
    }
  }

  /** A cut has brought back an old record of a transfer to the slot. */
  ghost predicate OldRecordOf(n: Node, e: Event, n': Node, check: Checker, slot: byte) {
    OldRecordReturns(n, e, n', check) && n'.store.last.value.slot == slot
  }

  /** But for the last record, a cut leaves what a cut leaves while there is room in the log. */
  lemma CutWithRoom(n: Node, e: Event, s': Store, check: Checker, full: bool)
    requires Real(n.store) && Allowed(n, e) && Cut(n, e, s', check, full)
    ensures Cut(n, e, s'.(last := n.store.last), check, false)
  {
    hide LogCut, Judge, Chunks, HeldAfter, Flushes, Splice, RunningVersion, Data, RecordOf, Flushed, Started;
    match e {
      case Start(size, version, flags, slot, headerCrc) => StartCutWithRoom(StartA(n.mode.ctx, size, version), n.store, s', flags, slot, headerCrc, full);
      case DataFrame(k, payload) => DataCutWithRoom(n.mode.ctx, n.store, s', k, payload, full);
      case FinishFrame =>
        var c, s := n.mode.ctx, n.store;
        LogCutWithRoom(s, s', RecordOf(c, P.ABORTED), full);
        LogCutWithRoom(s.(journal := Register(s.journal, Installed(s, c.slot))), s', RecordOf(c, P.DONE), full);
      case AbortFrame => LogCutWithRoom(n.store, s', RecordOf(n.mode.ctx, P.ABORTED), full);
      case _ =>
    }
  }

  lemma LogCutWithRoom(s: Store, s': Store, p: P.Progress, full: bool)
    ensures LogCut(s, s', p, full) ==> LogCut(s, s'.(last := s.last), p, false)
  {
  }

  lemma StartCutWithRoom(c: Ctx, s: Store, s': Store, flags: byte, slot: byte, headerCrc: u32, full: bool)
    requires |s.slotA| == |s.slotB| == SLOT_SIZE && StartBCut(c, s, s', flags, slot, headerCrc, full)
    ensures StartBCut(c, s, s'.(last := s.last), flags, slot, headerCrc, false)
  {
    hide LogCut, Chunks, RunningVersion;
    ChunkCountIfGood(c.size);
    LogCutWithRoom(WithSlot(s, slot, Blank(SLOT_SIZE)), s', RecordOf(Started(c, flags, slot, headerCrc, 0), P.RECEIVING), full);
  }

  lemma DataCutWithRoom(c: Ctx, s: Store, s': Store, seqNo: u16, payload: seq<byte>, full: bool)
    requires |payload| == CHUNK && HoldsInSlot(c, s, seqNo, payload) && DataCut(c, s, s', seqNo, payload, full)
    ensures DataCut(c, s, s'.(last := s.last), seqNo, payload, false)
  {
    hide LogCut, HeldAfter, Flushes, Splice, Data;
    LogCutWithRoom(Flushed(c, s, HeldAfter(c, seqNo, payload)), s', RecordOf(Data(c, s, seqNo, payload).ctx, P.RECEIVING), full);
  }

  lemma SameAfterLog(n: Node, s': Store, last: Option<P.Progress>, slot: byte)
    ensures SlotOf(s'.(last := last), slot) == SlotOf(s', slot)
  {
  }

  /** A step that may be cut anywhere. */
  lemma StepStaysQuiet(n: Node, e: Event, n': Node, check: Checker, full: bool, slot: byte)
    requires Step(n, e, n', check, full) && slot <= J.SLOT_B && Quiet(n, slot) && !Erases(n, e, slot) && !OldRecordOf(n, e, n', check, slot)
    ensures Quiet(n', slot) && SameBytes(n, n', slot)
  {
    hide Done, Cut, Erases, QuietRecord, SlotOf;
    if Step(n, e, n', check, false) {
      OrderlyStepStaysQuiet(n, e, n', check, slot);
    } else {
      CutWithRoom(n, e, n'.store, check, full);
      OrderlyStepStaysQuiet(n, e, Node(n'.store.(last := n.store.last), Off), check, slot);
      SameAfterLog(n, n'.store, n.store.last, slot);
      NotNamed(n, e, n', check, full, slot);
    }
  }

  lemma NotNamed(n: Node, e: Event, n': Node, check: Checker, full: bool, slot: byte)
    requires Step(n, e, n', check, full) && !Step(n, e, n', check, false) && !OldRecordOf(n, e, n', check, slot)
    ensures QuietRecord(n'.store.last, slot)
  {
    hide Done, BootCut, StartBCut, DataCut, FinishCut, AbortCut, JournalCut, HoldsInSlot, SpeaksOfWhole;
  }

  /** A START that was cut before it had changed the slot leaves it quiet too. */
  lemma EarlyCutStaysQuiet(n: Node, e: Event, n': Node, check: Checker, full: bool, slot: byte)
    requires Step(n, e, n', check, full) && slot <= J.SLOT_B && Quiet(n, slot) && Erases(n, e, slot) && !Erased(n, e, n', slot)
    requires RefusesErased(check) && check(SlotOf(n.store, slot), slot) == ImageOk
    ensures Quiet(n', slot)
  {
    hide RunningVersion, Chunks, Started, SpeaksOfWhole;
    assert check(Blank(SLOT_SIZE), slot) != ImageOk;
  }

  lemma ErasingTakesBytes(n: Node, e: Event, n': Node, check: Checker, full: bool, slot: byte)
    requires Step(n, e, n', check, full) && slot <= J.SLOT_B && !n'.mode.Off? && Erases(n, e, slot)
    ensures SlotOf(n'.store, slot) == Blank(SLOT_SIZE)
  {
    hide RunningVersion, Chunks, Started;
  }

  // ----- over a run -----

  /** FINISH has judged the image in the slot good and made the slot pending. */
  ghost predicate Accepted(n: Node, e: Event, n': Node, check: Checker, slot: byte) {
    && Real(n.store) && e.FinishFrame? && n.mode.Running? && n.mode.ctx.state == P.RECEIVING && n.mode.ctx.slot == slot
    && Complete(n.mode.ctx.w) && Judge(n.mode.ctx, n.store, check).0 == OK
    && n'.store.journal == Register(n.store.journal, Installed(n.store, slot))
  }

  lemma AcceptedIsQuiet(n: Node, e: Event, n': Node, check: Checker, full: bool, slot: byte)
    requires Step(n, e, n', check, full) && Recorded(n) && slot <= J.SLOT_B && Accepted(n, e, n', check, slot)
    requires !OldRecordOf(n, e, n', check, slot)
    ensures Quiet(n', slot) && SameBytes(n, n', slot) && check(SlotOf(n.store, slot), slot) == ImageOk
  {
    hide Step, Chunks, OldRecordOf, Judge, SlotOf;
    assert Quiet(n, slot) && !Erases(n, e, slot);
    JudgedOk(n.mode.ctx, n.store, check);
    StepStaysQuiet(n, e, n', check, full, slot);
  }

  lemma JudgedOk(c: Ctx, s: Store, check: Checker)
    requires |s.slotA| == |s.slotB| == SLOT_SIZE && Judge(c, s, check).0 == OK
    ensures check(SlotOf(s, c.slot), c.slot) == ImageOk
  {
  }

  lemma {:induction false} RunRecords(nodes: seq<Node>, history: seq<Happening>, check: Checker, k: nat)
    requires Run(nodes, history, check) && nodes[0].mode.Off? && k < |nodes|
    ensures Recorded(nodes[k])
  {
    hide Step, Recorded;
    if k > 0 {
      RunRecords(nodes, history, check, k - 1);
      StepRecords(nodes[k - 1], history[k - 1].event, nodes[k], check, history[k - 1].full);
    } else {
      OffIsRecorded(nodes[0]);
    }
  }

  lemma OffIsRecorded(n: Node)
    requires n.mode.Off?
    ensures Recorded(n)
  {
  }

  lemma {:induction false} QuietFrom(nodes: seq<Node>, history: seq<Happening>, check: Checker, i: nat, j: nat, slot: byte)
    requires Run(nodes, history, check) && i < j < |nodes| && slot <= J.SLOT_B && Quiet(nodes[i + 1], slot)
    requires RefusesErased(check) && check(SlotOf(nodes[i + 1].store, slot), slot) == ImageOk
    requires forall k :: i < k < j ==> !OldRecordOf(nodes[k], history[k].event, nodes[k + 1], check, slot)
    requires forall k :: i < k < j ==> !Erased(nodes[k], history[k].event, nodes[k + 1], slot)
    ensures Quiet(nodes[j], slot) && SameBytes(nodes[i + 1], nodes[j], slot)
  {
    hide Step, Quiet, Erases, OldRecordOf;
    if i + 1 < j {
      QuietFrom(nodes, history, check, i, j - 1, slot);
      var n, e, n', full := nodes[j - 1], history[j - 1].event, nodes[j - 1 + 1], history[j - 1].full;
      assert !Erased(n, e, n', slot) && !OldRecordOf(n, e, n', check, slot);
      if Erases(n, e, slot) {
        EarlyCutStaysQuiet(n, e, n', check, full, slot);
      } else {
        StepStaysQuiet(n, e, n', check, full, slot);
      }
    }
  }

  /** From the FINISH that accepted an image on, whatever else is sent, cut or reset, its slot
      holds exactly the bytes that were judged if and only if no START has erased it. In
      particular a trial boots judged bytes until then. Left out is only a cut inside the erase
      of a full progress log that brings back an old record of the slot. */
  lemma JudgedBytesStay(nodes: seq<Node>, history: seq<Happening>, check: Checker, i: nat, j: nat, slot: byte)
    requires Run(nodes, history, check) && nodes[0].mode.Off? && i < j < |nodes| && slot <= J.SLOT_B && RefusesErased(check)
    requires Accepted(nodes[i], history[i].event, nodes[i + 1], check, slot)
    requires forall k :: i <= k < j ==> !OldRecordOf(nodes[k], history[k].event, nodes[k + 1], check, slot)
    ensures (forall k :: i < k <= j ==> SameBytes(nodes[i], nodes[k], slot)) <==>
      (forall k :: i < k < j ==> !Erased(nodes[k], history[k].event, nodes[k + 1], slot))
  {
    hide Step, Quiet, Erased, Recorded, Accepted, OldRecordOf, SameBytes;
    RunRecords(nodes, history, check, i);
    AcceptedIsQuiet(nodes[i], history[i].event, nodes[i + 1], check, history[i].full, slot);
    if forall k :: i < k < j ==> !Erased(nodes[k], history[k].event, nodes[k + 1], slot) {
      forall k | i < k <= j
        ensures SameBytes(nodes[i], nodes[k], slot)
      {
        SameIsTransitive(nodes[i], nodes[i + 1], nodes[k], slot);
        QuietFrom(nodes, history, check, i, k, slot);
      }
    } else {
      var k :| i < k < j && Erased(nodes[k], history[k].event, nodes[k + 1], slot);
      ErasedChanges(nodes[i], nodes[k], history[k].event, nodes[k + 1], check, history[k].full, slot);
    }
  }

  lemma SameIsTransitive(a: Node, b: Node, c: Node, slot: byte)
    ensures SameBytes(a, b, slot) ==> SlotOf(b.store, slot) == SlotOf(a.store, slot)
    ensures SameBytes(a, b, slot) && SameBytes(b, c, slot) ==> SameBytes(a, c, slot)
  {
  }

  lemma ErasedChanges(first: Node, n: Node, e: Event, n': Node, check: Checker, full: bool, slot: byte)
    requires Step(n, e, n', check, full) && slot <= J.SLOT_B && Erased(n, e, n', slot)
    requires RefusesErased(check) && check(SlotOf(first.store, slot), slot) == ImageOk
    ensures !(SameBytes(first, n, slot) && SameBytes(first, n', slot))
  {
    hide Step, Erases;
    if n'.mode.Running? {
      ErasingTakesBytes(n, e, n', check, full, slot);
    }
  }
}

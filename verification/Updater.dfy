/** firmware/common/update.c: the transfer state machine over the flash driver. Every handler
    is proved to do what the function of the same name in Transfer.dfy says, and to leave
    one of the states that module allows when the supply fails inside it. */
module Updaters {
  import opened Bytes
  import opened Options
  import opened FlashMemory
  import opened Stores
  import opened Image
  import opened Transfer
  import TransferProofs
  import J = Journal
  import P = Progress

  /** The bytes can be programmed at that place of the slot. */
  ghost predicate Fits(bytes: seq<byte>, at: nat, data: seq<byte>) {
    at + |data| <= |bytes| && CanTake(bytes, at, data)
  }

  lemma FitsInFlash(m: seq<byte>, slot: byte, at: nat, data: seq<byte>)
    requires |m| == FLASH_SIZE && slot <= J.SLOT_B && at + |data| <= SLOT_SIZE
    ensures CanTake(m, SlotBase(slot) + at, data) == Fits(SlotOf(View(m), slot), at, data)
  {
    hide J.Value, P.LastRecord, Programmable;
    var lo := SlotBase(slot);
    forall i {:trigger data[i]} | 0 <= i < |data|
      ensures SlotBytes(m, slot)[at + i] == m[lo + at + i]
    {
      assert m[lo..lo + SLOT_SIZE][at + i] == m[lo + (at + i)];
    }
  }

  /** Flash accepts what the data frame makes the window flush. */
  ghost predicate Takes(c: Ctx, s: Store, seqNo: u16, payload: seq<byte>)
    requires |payload| == CHUNK
  {
    Accepts(c, seqNo) && Flushes(c.w, seqNo) ==> Fits(SlotOf(s, c.slot), CHUNK * c.w.next, HeldAfter(c, seqNo, payload))
  }

  /** What a flush of `held` may do to the store `s`, when `c'` is the context after success. */
  ghost predicate FlushOutcome(c: Ctx, s: Store, held: seq<byte>, c': Ctx, ok: bool, on: bool, s': Store, full: bool) {
    && c.w.next * CHUNK + |held| <= |SlotOf(s, c.slot)|
    && (on ==> ok == Fits(SlotOf(s, c.slot), CHUNK * c.w.next, held))
    && (ok ==> on && s' == AfterLog(Flushed(c, s, held), RecordOf(c', P.RECEIVING)))
    && (!ok && on ==> s' == WithSlot(s, c.slot, SlotOf(s', c.slot)))
    && (!on ==>
         || (exists words :: 0 <= 4 * words <= |held| && s' == Flushed(c, s, held[..4 * words]))
         || LogCut(Flushed(c, s, held), s', RecordOf(c', P.RECEIVING), full))
  }

  const INACTIVITY_MS := 300_000

  class Updater {
    const flash: Flash
    const verify: Verifier
    const runningSlot: byte
    var state: byte
    var slot: byte
    var flags: byte
    var imageSize: u32
    var headerCrc: u32
    var version: u32
    var totalChunks: u16
    var nextSeq: u16
    var fill: u16
    const window: array<byte>
    var lastNak: u16
    var haveStartA: bool
    var idleMs: nat

    ghost function Window(): Receiver
      reads this
    {
      Receiver(totalChunks, nextSeq, fill, lastNak)
    }

    ghost function Abs(): Ctx
      requires window.Length == CHUNK * WINDOW && fill <= WINDOW
      reads this, window
    {
      Ctx(state, runningSlot, slot, flags, imageSize, headerCrc, version, haveStartA, Window(), window[..CHUNK * fill])
    }

    ghost predicate Shape()
      reads this
    {
      window.Length == CHUNK * WINDOW && fill <= WINDOW
    }

    ghost predicate Valid()
      reads this
    {
      && Shape()
      && (state == P.RECEIVING ==>
           && slot <= J.SLOT_B && slot != runningSlot && GoodSize(imageSize) && totalChunks == Chunks(imageSize)
           && fill < WINDOW && nextSeq + fill <= totalChunks && (fill > 0 ==> nextSeq + fill < totalChunks))
    }

    /** A running transfer goes to a slot that exists. This holds even when a lone START_A has
        changed the size under it. */
    ghost predicate Placed()
      reads this
    {
      state == P.RECEIVING ==> slot <= J.SLOT_B
    }

    /** `update_init` */
    constructor (flash: Flash, verify: Verifier, runningSlot: byte)
      ensures Valid() && fresh(window) && Abs() == Ctx(P.IDLE, runningSlot, 0, 0, 0, 0, 0, false, Receiver(0, 0, 0, 0), [])
      ensures this.flash == flash && this.verify == verify && this.runningSlot == runningSlot
    {
      this.flash, this.verify, this.runningSlot := flash, verify, runningSlot;
      state, slot, flags, imageSize, headerCrc, version := P.IDLE, 0, 0, 0, 0, 0;
      totalChunks, nextSeq, fill, lastNak, haveStartA, idleMs := 0, 0, 0, 0, false, 0;
      window := new byte[CHUNK * WINDOW](_ => 0);
    }

    method HandleStartA(size: u32, ver: u32)
      requires Shape()
      modifies this
      ensures Shape() && Abs() == StartA(old(Abs()), size, ver)
    {
      imageSize := size;
      version := ver;
      haveStartA := true;
    }

    method WriteProgress(recordState: byte) returns (ok: bool)
      requires Shape() && flash.Ready() && slot != FF
      modifies flash
      ensures |flash.mem| == FLASH_SIZE && ok == flash.on
      ensures ok ==> View(flash.mem) == AfterLog(old(View(flash.mem)), RecordOf(old(Abs()), recordState))
      ensures !ok ==> LogCut(old(View(flash.mem)), View(flash.mem), RecordOf(old(Abs()), recordState), old(P.Full(flash.mem)))
      ensures ElsewhereSame(old(flash.mem), flash.mem)
    {
      hide View, P.Full, P.Numbered, P.ShowsOrIsHarmless, P.LastRecord, P.Entries, ElsewhereSame;
      var p := P.Progress(0, headerCrc, imageSize, slot, recordState, nextSeq, flags);
      P.NumberedShows(flash.mem, p);
      ok := P.ProgressWrite(flash, p);
      ViewAfterLog(old(flash.mem), flash.mem, p);
      ElsewhereOf(old(flash.mem), flash.mem);
    }

    /** The checks of `handle_start_b` that refuse a transfer. */
    method StartCode(newFlags: byte, newSlot: byte, ghost crc: u32) returns (code: byte)
      requires Shape() && |flash.mem| == FLASH_SIZE && haveStartA
      ensures var kind := StartKindOf(Abs(), View(flash.mem), newFlags, newSlot, crc);
        if code == OK then kind == (if Resumes(Abs(), View(flash.mem), newSlot, crc) then Resume(View(flash.mem).last.value.chunks) else Fresh)
        else kind == Rejected(code)
      ensures code == OK ==> newSlot <= J.SLOT_B && newSlot != runningSlot && GoodSize(imageSize)
    {
      hide J.Value, P.LastRecord, Version, Resumes;
      if newSlot != J.SLOT_A && newSlot != J.SLOT_B {
        return ERR_WRONG_SLOT;
      }
      if newSlot == runningSlot {
        return ERR_SLOT_BUSY;
      }
      if imageSize <= HEADER_SIZE || imageSize > SLOT_SIZE || imageSize % 4 != 0 {
        return ERR_BAD_SIZE;
      }
      // the header of the running image is the one of the slot it runs from
      if version < Version(SlotBytes(flash.mem, if runningSlot == J.SLOT_B then J.SLOT_B else J.SLOT_A)) && newFlags % 2 == 0 {
        return ERR_VERSION_LOW;
      }
      code := OK;
    }

    /** The rest of `handle_start_b` when nothing can be resumed. */
    method StartFresh() returns (reply: Reply)
      requires Shape() && flash.Ready() && slot <= J.SLOT_B
      modifies this`nextSeq, this`state, flash
      ensures |flash.mem| == FLASH_SIZE && nextSeq == 0
      ensures flash.on ==> state == P.RECEIVING && reply == Ack(0, 0)
      ensures flash.on ==>
        View(flash.mem) == AfterLog(WithSlot(old(View(flash.mem)), slot, Blank(SLOT_SIZE)), RecordOf(old(Abs()).(w := Window()), P.RECEIVING))
      ensures !flash.on ==>
        || (exists bytes :: |bytes| == SLOT_SIZE && View(flash.mem) == WithSlot(old(View(flash.mem)), slot, bytes))
        || LogCut(WithSlot(old(View(flash.mem)), slot, Blank(SLOT_SIZE)), View(flash.mem), RecordOf(old(Abs()).(w := Window()), P.RECEIVING), old(P.Full(flash.mem)))
      ensures ElsewhereSame(old(flash.mem), flash.mem)
    {
      hide P.Full, View, TornErase, Erase, ElsewhereSame;
      nextSeq := 0;
      var erased := flash.EraseSector(SlotSector(slot));
      if !erased {
        ViewAfterTornErase(old(flash.mem), flash.mem, slot);
        return NoReply;
      }
      ViewAfterErase(old(flash.mem), slot);
      EraseKeepsLog(old(flash.mem), slot);
      state := P.RECEIVING;
      ghost var m := flash.mem;
      var logged := WriteProgress(P.RECEIVING);
      ElsewhereChains(old(flash.mem), m, flash.mem);
      reply := if logged then Ack(0, 0) else NoReply;
    }

    /** The fields of a new or resumed transfer, but for where it starts. */
    method Adopt(newFlags: byte, newSlot: byte, crc: u32)
      requires Shape() && GoodSize(imageSize)
      modifies this
      ensures Shape() && imageSize == old(imageSize) && Chunks(imageSize) < 0x1_0000 && nextSeq == old(nextSeq) && state == old(state)
      ensures Abs().(state := P.RECEIVING) == Started(old(Abs()), newFlags, newSlot, crc, nextSeq)
    {
      ChunkCount(imageSize);
      haveStartA := false;
      flags := newFlags;
      slot := newSlot;
      headerCrc := crc;
      totalChunks := (imageSize + CHUNK - 1) / CHUNK;
      fill := 0;
      lastNak := NO_NAK;
      idleMs := 0;
    }

    /** `handle_start_b` */
    method HandleStartB(newFlags: byte, newSlot: byte, crc: u32) returns (reply: Reply)
      requires Shape() && (haveStartA || Valid()) && flash.Ready()
      modifies this, flash
      ensures |flash.mem| == FLASH_SIZE && Shape()
      ensures flash.on ==>
        Valid() && Outcome(Abs(), View(flash.mem), reply) == StartB(old(Abs()), old(View(flash.mem)), newFlags, newSlot, crc)
      ensures !flash.on ==> StartBCut(old(Abs()), old(View(flash.mem)), View(flash.mem), newFlags, newSlot, crc, old(P.Full(flash.mem)))
      ensures ElsewhereSame(old(flash.mem), flash.mem)
    {
      hide P.Full, View, StartKindOf, GoodSize, LogCut, AfterLog, Started, ElsewhereSame;
      ElsewhereSelf(flash.mem);
      ghost var c, s := Abs(), View(flash.mem);
      if !haveStartA {
        NoStartAKind(c, s, newFlags, newSlot, crc);
        return Nak(0, ERR_SEQUENCE);
      }
      var code := StartCode(newFlags, newSlot, crc);
      if code != OK {
        haveStartA := false;
        flags := newFlags;
        state := P.IDLE;
        return Nak(0, code);
      }
      Adopt(newFlags, newSlot, crc);
      var p := LastIs();
      if p.Some? && p.value.state == P.RECEIVING && p.value.headerCrc == crc && p.value.imageSize == imageSize
         && p.value.slot == slot && p.value.chunks <= totalChunks {
        StartedAt(c, newFlags, newSlot, crc, nextSeq, p.value.chunks);
        nextSeq := p.value.chunks;
        state := P.RECEIVING;
        return Ack(nextSeq, 1);
      }
      StartedAt(c, newFlags, newSlot, crc, nextSeq, 0);
      reply := StartFresh();
    }

    /** The loop of `flush_window` that adds up the lengths of the held chunks. */
    method WindowLength() returns (bytes: nat)
      requires Shape() && GoodSize(imageSize) && nextSeq + fill <= Chunks(imageSize) && fill > 0
      ensures bytes == CHUNK * (fill - 1) + ChunkLen(imageSize, nextSeq + fill - 1)
    {
      bytes := 0;
      for i := 0 to fill
        invariant bytes == if i == 0 then 0 else CHUNK * (i - 1) + ChunkLen(imageSize, nextSeq + i - 1)
      {
        TransferProofs.ChunkArithmetic(imageSize, nextSeq + i);
        if i > 0 {
          TransferProofs.ChunkArithmetic(imageSize, nextSeq + i - 1);
        }
        bytes := bytes + ChunkLen(imageSize, nextSeq + i);
      }
    }

    /** Programs the window at the place of chunk `nextSeq`, as far as flash goes along. */
    method ProgramWindow(bytes: nat) returns (ok: bool)
      requires Shape() && bytes <= CHUNK * WINDOW && CHUNK * nextSeq + bytes <= SLOT_SIZE
      requires flash.Ready() && slot <= J.SLOT_B
      modifies flash
      ensures |flash.mem| == FLASH_SIZE && P.Full(flash.mem) == old(P.Full(flash.mem))
      ensures var c, s, held := Abs(), old(View(flash.mem)), window[..bytes];
              && c.w.next * CHUNK + |held| <= |SlotOf(s, c.slot)|
              && (flash.on ==> ok == Fits(SlotOf(s, c.slot), CHUNK * c.w.next, held))
              && (ok ==> flash.on && View(flash.mem) == Flushed(c, s, held))
              && (!ok ==> forall c' :: FlushOutcome(c, s, held, c', ok, flash.on, View(flash.mem), old(P.Full(flash.mem))))
      ensures ElsewhereSame(old(flash.mem), flash.mem)
    {
      hide P.Full, CanTake, Splice, View, Fits, LogCut, AfterLog, RecordOf, ElsewhereSame;
      ghost var data := window[..bytes];
      ghost var words;
      FitsInFlash(flash.mem, slot, CHUNK * nextSeq, data);
      ok, words := flash.Program(SlotBase(slot) + CHUNK * nextSeq, window[..bytes]);
      ViewAfterProgram(old(flash.mem), slot, CHUNK * nextSeq, data[..4 * words]);
      ProgramKeepsLog(old(flash.mem), slot, CHUNK * nextSeq, data[..4 * words]);
      SlotInView(old(flash.mem), slot);
      assert View(flash.mem) == Flushed(Abs(), View(old(flash.mem)), data[..4 * words]);
      if ok {
        assert data[..4 * words] == data;
      }
    }

    /** `flush_window`, for a window whose last chunk is the one at `nextSeq + fill - 1`. */
    method FlushWindow() returns (ok: bool)
      requires Shape() && GoodSize(imageSize) && nextSeq + fill <= Chunks(imageSize) && fill > 0
      requires flash.Ready() && slot <= J.SLOT_B
      modifies this`nextSeq, this`fill, flash
      ensures |flash.mem| == FLASH_SIZE && Shape()
      ensures ok ==> flash.on && fill == 0 && nextSeq == old(nextSeq + fill)
      ensures !ok && flash.on ==> fill == old(fill) && nextSeq == old(nextSeq)
      ensures var held := old(window[..])[..CHUNK * (old(fill) - 1) + ChunkLen(imageSize, old(nextSeq + fill) - 1)];
              var c' := old(Abs()).(w := Receiver(totalChunks, old(nextSeq + fill), 0, lastNak));
              FlushOutcome(old(Abs()), old(View(flash.mem)), held, c', ok, flash.on, View(flash.mem), old(P.Full(flash.mem)))
      ensures ElsewhereSame(old(flash.mem), flash.mem)
    {
      hide View, P.Full, LogCut, AfterLog, ChunkLen, Chunks, CanTake, Splice, Fits, WithSlot, SlotOf, GoodSize, Flushed, FlushOutcome, ElsewhereSame;
      ChunkCount(imageSize);
      var bytes := WindowLength();
      TransferProofs.ChunkArithmetic(imageSize, nextSeq + fill - 1);
      ghost var c, s, held := Abs(), View(flash.mem), window[..bytes];
      assert held == window[..][..bytes];
      ok := ProgramWindow(bytes);
      if !ok {
        return;
      }
      ghost var c' := c.(w := Receiver(totalChunks, nextSeq + fill, 0, lastNak));
      nextSeq := nextSeq + fill;
      fill := 0;
      assert RecordOf(Abs(), P.RECEIVING) == RecordOf(c', P.RECEIVING);
      ghost var m := flash.mem;
      ok := WriteProgress(P.RECEIVING);
      ElsewhereChains(old(flash.mem), m, flash.mem);
      FlushLogged(c, s, held, c', ok, flash.on, View(flash.mem), old(P.Full(flash.mem)));
    }

    /** The loop of `handle_data` that copies an accepted chunk behind the held ones. */
    method HoldChunk(seqNo: u16, payload: seq<byte>)
      requires Shape() && fill < WINDOW && |payload| == CHUNK
      modifies window
      ensures forall i :: 0 <= i < CHUNK * WINDOW && !(CHUNK * fill <= i < CHUNK * fill + ChunkLen(imageSize, seqNo)) ==> window[i] == old(window[i])
      ensures window[CHUNK * fill..CHUNK * fill + ChunkLen(imageSize, seqNo)] == payload[..ChunkLen(imageSize, seqNo)]
    {
      var len := ChunkLen(imageSize, seqNo);
      for i := 0 to len
        invariant forall j :: 0 <= j < CHUNK * WINDOW && !(CHUNK * fill <= j < CHUNK * fill + i) ==> window[j] == old(window[j])
        invariant window[CHUNK * fill..CHUNK * fill + i] == payload[..i]
      {
        window[CHUNK * fill + i] := payload[i];
      }
    }

    /** Takes the expected chunk into the window. */
    method TakeChunk(seqNo: u16, payload: seq<byte>)
      requires Valid() && |payload| == CHUNK && state == P.RECEIVING && seqNo == nextSeq + fill < totalChunks
      modifies this`lastNak, this`fill, window
      ensures Shape() && fill == old(fill) + 1 && lastNak == NO_NAK
      ensures CHUNK * old(fill) + ChunkLen(imageSize, seqNo) <= |window[..]| && CHUNK * nextSeq + CHUNK * old(fill) + ChunkLen(imageSize, seqNo) <= SLOT_SIZE
      ensures HeldAfter(old(Abs()), seqNo, payload) == window[..CHUNK * old(fill) + ChunkLen(imageSize, seqNo)]
      ensures !Flushes(old(Window()), seqNo) ==> HeldAfter(old(Abs()), seqNo, payload) == window[..CHUNK * fill]
    {
      hide ChunkLen, Chunks, HeldAfter;
      TransferProofs.ChunkArithmetic(imageSize, seqNo);
      ghost var c := Abs();
      HoldChunk(seqNo, payload);
      HeldInWindow(window[..], c, seqNo, payload);
      lastNak := NO_NAK;
      fill := fill + 1;
    }

    /** The part of `handle_data` for the expected chunk. */
    method AcceptChunk(seqNo: u16, payload: seq<byte>) returns (reply: Reply, ghost ok: bool)
      requires Valid() && flash.Ready() && |payload| == CHUNK
      requires state == P.RECEIVING && seqNo == nextSeq + fill < totalChunks
      modifies this, window, flash
      ensures |flash.mem| == FLASH_SIZE && Shape() && slot == old(slot)
      ensures var c, s, held := old(Abs()), old(View(flash.mem)), HeldAfter(old(Abs()), seqNo, payload);
              var c' := c.(w := Receive(c.w, seqNo).0, held := if Flushes(c.w, seqNo) then [] else held);
              && c.w.next * CHUNK + |held| <= SLOT_SIZE
              && (!Flushes(c.w, seqNo) ==> flash.on && Abs() == c' && View(flash.mem) == s && reply == NoReply && Valid())
              && (Flushes(c.w, seqNo) ==>
                   && FlushOutcome(c, s, held, c', ok, flash.on, View(flash.mem), old(P.Full(flash.mem)))
                   && (ok ==> Valid() && Abs() == c' && reply == Ack(c'.w.next, 0))
                   && (!ok && flash.on ==> Valid() && state == P.IDLE && reply == Nak(c.w.next, ERR_FLASH)))
      ensures ElsewhereSame(old(flash.mem), flash.mem)
    {
      hide View, P.Full, LogCut, ChunkLen, Chunks, CanTake, Splice, Fits, WithSlot, SlotOf, Flushed, FlushOutcome, AfterLog, Receive, Flushes, HeldAfter, ElsewhereSame;
      ElsewhereSelf(flash.mem);
      ghost var c := Abs();
      ChunkCount(imageSize);
      ReceiveAccepted(c.w, seqNo);
      TakeChunk(seqNo, payload);
      ghost var held := HeldAfter(c, seqNo, payload);
      reply, ok := NoReply, true;
      if fill == WINDOW || seqNo + 1 == totalChunks {
        ghost var c0 := Abs();
        ghost var c1 := c0.(w := Receiver(totalChunks, nextSeq + fill, 0, lastNak));
        ghost var c' := c.(w := Receive(c.w, seqNo).0, held := []);
        var flushed := FlushWindow();
        ok := flushed;
        SameFlush(c0, c, View(old(flash.mem)), held, c1, c', ok, flash.on, View(flash.mem), old(P.Full(flash.mem)));
        if !flushed {
          state := P.IDLE;
          reply := Nak(nextSeq, ERR_FLASH);
          return;
        }
        assert Abs() == c';
        reply := Ack(nextSeq, 0);
      }
    }

    /** `handle_data`. The sender numbers its chunks below the total. */
    method HandleData(seqNo: u16, payload: seq<byte>) returns (reply: Reply)
      requires Valid() && flash.Ready() && |payload| == CHUNK
      requires Accepts(Abs(), seqNo) ==> seqNo < totalChunks
      modifies this, window, flash
      ensures |flash.mem| == FLASH_SIZE && Shape()
      ensures old(Accepts(Abs(), seqNo)) ==> CHUNK * old(nextSeq) + |HeldAfter(old(Abs()), seqNo, payload)| <= SLOT_SIZE
      ensures flash.on && old(Takes(Abs(), View(flash.mem), seqNo, payload)) ==>
        Valid() && Outcome(Abs(), View(flash.mem), reply) == Data(old(Abs()), old(View(flash.mem)), seqNo, payload)
      ensures flash.on && !old(Takes(Abs(), View(flash.mem), seqNo, payload)) ==>
        Valid() && state == P.IDLE && reply == Nak(old(nextSeq), ERR_FLASH)
        && View(flash.mem) == WithSlot(old(View(flash.mem)), old(slot), SlotOf(View(flash.mem), old(slot)))
      ensures !flash.on ==> DataCut(old(Abs()), old(View(flash.mem)), View(flash.mem), seqNo, payload, old(P.Full(flash.mem)))
      ensures ElsewhereSame(old(flash.mem), flash.mem)
    {
      hide View, P.Full, AfterLog, LogCut, Fits, ChunkLen, Chunks, GoodSize, WithSlot, SlotOf, Splice, ElsewhereSame;
      ElsewhereSelf(flash.mem);
      if state != P.RECEIVING {
        return Nak(0, ERR_NOT_STARTED);
      }
      idleMs := 0;
      var expected := (nextSeq + fill) % 0x1_0000;
      if seqNo != expected {
        if seqNo > expected && lastNak != expected {
          lastNak := expected;
          return Nak(expected, ERR_GAP);
        }
        return NoReply;
      }
      ChunkCount(imageSize);
      ghost var ok;
      reply, ok := AcceptChunk(seqNo, payload);
    }

    /** `handle_finish` */
    method HandleFinish() returns (reply: Reply)
      requires Shape() && Placed() && flash.Ready()
      modifies this, flash
      ensures |flash.mem| == FLASH_SIZE && Shape()
      ensures flash.on ==> (old(Valid()) ==> Valid()) && Outcome(Abs(), View(flash.mem), reply) == Finish(old(Abs()), old(View(flash.mem)), Validation(verify))
      ensures !flash.on ==> FinishCut(old(Abs()), old(View(flash.mem)), View(flash.mem), Validation(verify), old(P.Full(flash.mem)))
      ensures ElsewhereSame(old(flash.mem), flash.mem)
    {
      hide View, P.Full, AfterLog, LogCut, Judge, ElsewhereSame;
      ElsewhereSelf(flash.mem);
      ghost var c, s := Abs(), View(flash.mem);
      if state != P.RECEIVING {
        return Verdict(ERR_NOT_STARTED, 0);
      }
      if nextSeq != totalChunks || fill != 0 {
        return Verdict(ERR_INCOMPLETE, nextSeq);
      }
      var code, detail := JudgeSlot();
      ghost var journaled := flash.mem;
      if code == OK {
        var b := ReadJournal(flash);
        var installed := b.(pending := slot, attempts := 0, confirmed := 0);
        var ok, written := WriteJournal(flash, installed);
        journaled := flash.mem;
        if !ok {
          return NoReply;
        }
        detail := written.number;
      }
      var logged := WriteProgress(if code == OK then P.DONE else P.ABORTED);
      ElsewhereChains(old(flash.mem), journaled, flash.mem);
      if !logged {
        return NoReply;
      }
      state := if code == OK then P.DONE else P.IDLE;
      reply := Verdict(code, detail);
    }

    /** `handle_abort` */
    method HandleAbort() returns (reply: Reply)
      requires Shape() && Placed() && flash.Ready()
      modifies this, flash
      ensures |flash.mem| == FLASH_SIZE && Shape()
      ensures flash.on ==> (old(Valid()) ==> Valid()) && Outcome(Abs(), View(flash.mem), reply) == Abort(old(Abs()), old(View(flash.mem)))
      ensures !flash.on ==> AbortCut(old(Abs()), old(View(flash.mem)), View(flash.mem), old(P.Full(flash.mem)))
      ensures ElsewhereSame(old(flash.mem), flash.mem)
    {
      hide View, P.Full, AfterLog, LogCut, ElsewhereSame;
      ElsewhereSelf(flash.mem);
      if state == P.RECEIVING {
        var logged := WriteProgress(P.ABORTED);
        if !logged {
          return NoReply;
        }
      }
      state := P.IDLE;
      haveStartA := false;
      reply := Ack(nextSeq, 0);
    }

    /** `update_tick_10ms`: the tick that makes a transfer idle for five minutes drops its RAM
        state, every other tick only counts. */
    method UpdateTick()
      requires Shape()
      modifies this
      ensures Shape() && (old(Valid()) ==> Valid())
      ensures Abs() == if old(state == P.RECEIVING && idleMs + 10 >= 300_000) then Timeout(old(Abs())) else old(Abs())
      ensures idleMs == if old(state) != P.RECEIVING then old(idleMs) else if old(idleMs) + 10 >= 300_000 then 0 else old(idleMs) + 10
    {
      if state == P.RECEIVING {
        idleMs := idleMs + 10;
        if idleMs >= INACTIVITY_MS {
          state := P.IDLE;
          fill := 0;
          idleMs := 0;
        }
      }
    }

    /** The checks of `handle_finish` on the received image. */
    method JudgeSlot() returns (code: byte, detail: u32)
      requires Shape() && |flash.mem| == FLASH_SIZE && slot <= J.SLOT_B
      ensures (code, detail) == Judge(Abs(), View(flash.mem), Validation(verify))
    {
      hide Validate, J.Value, P.LastRecord, Version;
      var r := ImageValidate(flash, slot, verify);
      code := MapResult(r);
      detail := 0;
      if code == OK {
        var h := SlotBytes(flash.mem, slot);
        var running := SlotBytes(flash.mem, if runningSlot == J.SLOT_B then J.SLOT_B else J.SLOT_A);
        detail := Version(h);
        if (BodySize(h) + HEADER_SIZE) % 0x1_0000_0000 != imageSize {
          code := ERR_BAD_SIZE;
        } else if detail < Version(running) && flags % 2 == 0 {
          code := ERR_VERSION_LOW;
        }
      }
    }


    method LastIs() returns (p: Option<P.Progress>)
      requires |flash.mem| == FLASH_SIZE
      ensures p == View(flash.mem).last
    {
      p := P.ProgressRead(flash);
    }
  }

  lemma SlotInView(m: seq<byte>, slot: byte)
    requires |m| == FLASH_SIZE && slot <= J.SLOT_B
    ensures SlotOf(View(m), slot) == SlotBytes(m, slot)
  {
    hide J.Value, P.LastRecord;
  }

  lemma FlushLogged(c: Ctx, s: Store, held: seq<byte>, c': Ctx, ok: bool, on: bool, s': Store, full: bool)
    requires c.w.next * CHUNK + |held| <= |SlotOf(s, c.slot)|
    requires Fits(SlotOf(s, c.slot), CHUNK * c.w.next, held) && ok == on
    requires ok ==> s' == AfterLog(Flushed(c, s, held), RecordOf(c', P.RECEIVING))
    requires !ok ==> LogCut(Flushed(c, s, held), s', RecordOf(c', P.RECEIVING), full)
    ensures FlushOutcome(c, s, held, c', ok, on, s', full)
  {
    hide Fits, LogCut, Splice;
  }

  lemma SameFlush(c: Ctx, d: Ctx, s: Store, held: seq<byte>, c': Ctx, d': Ctx, ok: bool, on: bool, s': Store, full: bool)
    requires c.slot == d.slot && c.w.next == d.w.next && RecordOf(c', P.RECEIVING) == RecordOf(d', P.RECEIVING)
    ensures FlushOutcome(c, s, held, c', ok, on, s', full) == FlushOutcome(d, s, held, d', ok, on, s', full)
  {
    hide Fits, LogCut, Splice;
  }

  lemma ReceiveAccepted(w: Receiver, seqNo: u16)
    requires seqNo == w.next + w.fill < w.total && w.fill < WINDOW
    ensures Flushes(w, seqNo) <==> w.fill + 1 == WINDOW || seqNo + 1 == w.total
    ensures Flushes(w, seqNo) ==> Receive(w, seqNo) == (Receiver(w.total, seqNo + 1, 0, NO_NAK), Ack(seqNo + 1, 0))
    ensures !Flushes(w, seqNo) ==> Receive(w, seqNo) == (w.(fill := w.fill + 1, lastNak := NO_NAK), NoReply)
  {
  }

  lemma HeldInWindow(window: seq<byte>, c: Ctx, seqNo: u16, payload: seq<byte>)
    requires |payload| == CHUNK && CHUNK * c.w.fill + CHUNK <= |window|
    requires window[..CHUNK * c.w.fill] == c.held
    requires window[CHUNK * c.w.fill..CHUNK * c.w.fill + ChunkLen(c.size, seqNo)] == payload[..ChunkLen(c.size, seqNo)]
    ensures HeldAfter(c, seqNo, payload) == window[..CHUNK * c.w.fill + ChunkLen(c.size, seqNo)]
  {
  }

  lemma NoStartAKind(c: Ctx, s: Store, flags: byte, slot: byte, crc: u32)
    requires |s.slotA| == |s.slotB| == SLOT_SIZE && !c.haveA
    ensures StartKindOf(c, s, flags, slot, crc).NoStartA?
  {
  }

  lemma StartedAt(c: Ctx, flags: byte, slot: byte, crc: u32, n: u16, n': u16)
    requires Chunks(c.size) < 0x1_0000
    ensures var a, b := Started(c, flags, slot, crc, n), Started(c, flags, slot, crc, n');
      && b == a.(w := a.w.(next := n'))
      && b.state == P.RECEIVING && b.slot == slot && b.headerCrc == crc && b.size == c.size && b.flags == flags && b.running == c.running
      && b.w == Receiver(Chunks(c.size), n', 0, NO_NAK) && a.w == Receiver(Chunks(c.size), n, 0, NO_NAK)
  {
  }

  lemma ChunkCount(size: u32)
    requires GoodSize(size)
    ensures 0 < Chunks(size) < 0x1_0000 && size <= SLOT_SIZE
  {
  }

  lemma ProgramKeepsLog(m: seq<byte>, slot: byte, at: nat, data: seq<byte>)
    requires |m| == FLASH_SIZE && slot <= J.SLOT_B && at + |data| <= SLOT_SIZE
    ensures P.Full(Splice(m, SlotBase(slot) + at, data)) == P.Full(m)
  {
    hide View;
    SlotFrame(m, Splice(m, SlotBase(slot) + at, data), slot);
  }

  lemma EraseKeepsLog(m: seq<byte>, slot: byte)
    requires |m| == FLASH_SIZE && slot <= J.SLOT_B
    ensures P.Full(Erase(m, SlotSector(slot))) == P.Full(m)
  {
    hide View;
    SlotFrame(m, Erase(m, SlotSector(slot)), slot);
  }
}

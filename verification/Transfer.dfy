/** firmware/common/update.c as functions on values: what each frame does to the transfer
    context and to the store. The class in Updater.dfy is proved against them. */
module Transfer {
  import opened Bytes
  import opened Options
  import opened Stores
  import opened Image
  import J = Journal
  import P = Progress

  const CHUNK := 6
  const WINDOW := 32
  const NO_NAK: u16 := 0xFFFF

  // reply codes
  const OK: byte := 0
  const ERR_GAP: byte := 1
  const ERR_NOT_STARTED: byte := 2
  const ERR_BAD_SIZE: byte := 3
  const ERR_SLOT_BUSY: byte := 4
  const ERR_VERSION_LOW: byte := 5
  const ERR_FLASH: byte := 6
  const ERR_INCOMPLETE: byte := 7
  const ERR_WRONG_SLOT: byte := 10
  const ERR_SEQUENCE: byte := 16

  datatype Reply = NoReply | Ack(seqNo: u16, code: byte) | Nak(seqNo: u16, code: byte) | Verdict(code: byte, detail: u32)

  // ----- the go-back-N receiver -----

  /** `next` chunks are in flash, `fill` more are held in RAM. */
  datatype Receiver = Receiver(total: u16, next: u16, fill: u16, lastNak: u16)

  function Expected(w: Receiver): u16 {
    (w.next + w.fill) % 0x1_0000
  }

  predicate Flushes(w: Receiver, seqNo: u16) {
    w.fill + 1 == WINDOW || seqNo + 1 == w.total
  }

  function Receive(w: Receiver, seqNo: u16): (Receiver, Reply) {
    var expected := Expected(w);
    if seqNo != expected then
      if seqNo > expected && w.lastNak != expected then (w.(lastNak := expected), Nak(expected, ERR_GAP))
      else (w, NoReply)
    else if Flushes(w, seqNo) then
      var next := (w.next + w.fill + 1) % 0x1_0000;
      (Receiver(w.total, next, 0, NO_NAK), Ack(next, 0))
    else (w.(fill := (w.fill + 1) % 0x1_0000, lastNak := NO_NAK), NoReply)
  }

  // ----- the transfer context -----

  datatype Ctx = Ctx(state: byte, running: byte, slot: byte, flags: byte, size: u32, headerCrc: u32, version: u32, haveA: bool,
                     w: Receiver, held: seq<byte>)

  datatype Outcome = Outcome(ctx: Ctx, store: Store, reply: Reply)

  predicate GoodSize(size: u32) {
    HEADER_SIZE < size <= SLOT_SIZE && size % 4 == 0
  }

  function Chunks(size: u32): nat {
    (size + CHUNK - 1) / CHUNK
  }

  /** The subtraction is the source's, on 32 bits. */
  function ChunkLen(size: u32, seqNo: u16): nat {
    Min((size - seqNo * CHUNK) % 0x1_0000_0000, CHUNK)
  }

  function StartA(c: Ctx, size: u32, version: u32): Ctx {
    c.(size := size, version := version, haveA := true)
  }

  datatype StartKind = NoStartA | Rejected(code: byte) | Resume(chunks: u16) | Fresh

  function Forced(flags: byte): bool {
    flags % 2 == 1
  }

  function RunningVersion(c: Ctx, s: Store): u32
    requires |s.slotA| == |s.slotB| == SLOT_SIZE
  {
    Version(SlotOf(s, c.running))
  }

  predicate Resumes(c: Ctx, s: Store, slot: byte, headerCrc: u32) {
    && s.last.Some?
    && var p := s.last.value;
       p.state == P.RECEIVING && p.headerCrc == headerCrc && p.imageSize == c.size && p.slot == slot && p.chunks <= Chunks(c.size)
  }

  /** How `handle_start_b` decides. */
  function StartKindOf(c: Ctx, s: Store, flags: byte, slot: byte, headerCrc: u32): StartKind
    requires |s.slotA| == |s.slotB| == SLOT_SIZE
  {
    if !c.haveA then NoStartA
    else if slot != J.SLOT_A && slot != J.SLOT_B then Rejected(ERR_WRONG_SLOT)
    else if slot == c.running then Rejected(ERR_SLOT_BUSY)
    else if !GoodSize(c.size) then Rejected(ERR_BAD_SIZE)
    else if c.version < RunningVersion(c, s) && !Forced(flags) then Rejected(ERR_VERSION_LOW)
    else if Resumes(c, s, slot, headerCrc) then Resume(s.last.value.chunks)
    else Fresh
  }

  function Started(c: Ctx, flags: byte, slot: byte, headerCrc: u32, next: u16): Ctx
    requires Chunks(c.size) < 0x1_0000
  {
    c.(state := P.RECEIVING, slot := slot, flags := flags, headerCrc := headerCrc, haveA := false,
       w := Receiver(Chunks(c.size), next, 0, NO_NAK), held := [])
  }

  /** The record that `write_progress` makes. */
  function RecordOf(c: Ctx, state: byte): P.Progress {
    P.Progress(0, c.headerCrc, c.size, c.slot, state, c.w.next, c.flags)
  }

  function AfterLog(s: Store, p: P.Progress): Store {
    s.(last := Some(NumberedAfter(s.last, p)))
  }

  function StartB(c: Ctx, s: Store, flags: byte, slot: byte, headerCrc: u32): Outcome
    requires |s.slotA| == |s.slotB| == SLOT_SIZE
  {
    match StartKindOf(c, s, flags, slot, headerCrc)
    case NoStartA => Outcome(c, s, Nak(0, ERR_SEQUENCE))
    case Rejected(code) => Outcome(c.(haveA := false, flags := flags, state := P.IDLE), s, Nak(0, code))
    case Resume(n) => Outcome(Started(c, flags, slot, headerCrc, n), s, Ack(n, 1))
    case Fresh =>
      var c' := Started(c, flags, slot, headerCrc, 0);
      Outcome(c', AfterLog(WithSlot(s, slot, Blank(SLOT_SIZE)), RecordOf(c', P.RECEIVING)), Ack(0, 0))
  }

  // ----- data -----

  predicate Accepts(c: Ctx, seqNo: u16) {
    c.state == P.RECEIVING && seqNo == Expected(c.w)
  }

  function HeldAfter(c: Ctx, seqNo: u16, payload: seq<byte>): seq<byte>
    requires |payload| == CHUNK
  {
    c.held + payload[..ChunkLen(c.size, seqNo)]
  }

  /** The slot after the window has been programmed at the place of chunk `next`. */
  function Flushed(c: Ctx, s: Store, bytes: seq<byte>): Store
    requires c.w.next * CHUNK + |bytes| <= |SlotOf(s, c.slot)|
  {
    WithSlot(s, c.slot, Splice(SlotOf(s, c.slot), c.w.next * CHUNK, bytes))
  }

  /** A data frame, when flash takes what is programmed. */
  function Data(c: Ctx, s: Store, seqNo: u16, payload: seq<byte>): Outcome
    requires |payload| == CHUNK
    requires Accepts(c, seqNo) ==> c.w.next * CHUNK + |HeldAfter(c, seqNo, payload)| <= |SlotOf(s, c.slot)|
  {
    if c.state != P.RECEIVING then Outcome(c, s, Nak(0, ERR_NOT_STARTED)) else
    var (w', reply) := Receive(c.w, seqNo);
    if seqNo != Expected(c.w) then Outcome(c.(w := w'), s, reply)
    else
      var held := HeldAfter(c, seqNo, payload);
      if !Flushes(c.w, seqNo) then Outcome(c.(w := w', held := held), s, reply)
      else
        var c' := c.(w := w', held := []);
        Outcome(c', AfterLog(Flushed(c, s, held), RecordOf(c', P.RECEIVING)), reply)
  }

  // ----- finish, abort, timeout -----

  function MapResult(r: ImageResult): byte {
    match r
    case ImageOk => OK
    case BadMagic => 8
    case BadHeader => 9
    case BadSize => ERR_BAD_SIZE
    case WrongSlot => ERR_WRONG_SLOT
    case BadCrc => 11
    case BadSignature => 12
    case BadVectors => 13
  }

  /** The verdict on the received image, and the detail that goes with it. */
  function Judge(c: Ctx, s: Store, check: Checker): (byte, u32)
    requires |s.slotA| == |s.slotB| == SLOT_SIZE
  {
    var bytes := SlotOf(s, c.slot);
    var code := MapResult(check(bytes, c.slot));
    if code != OK then (code, 0)
    else if (BodySize(bytes) + HEADER_SIZE) % 0x1_0000_0000 != c.size then (ERR_BAD_SIZE, Version(bytes))
    else if Version(bytes) < RunningVersion(c, s) && !Forced(c.flags) then (ERR_VERSION_LOW, Version(bytes))
    else (OK, Version(bytes))
  }

  predicate Complete(w: Receiver) {
    w.next == w.total && w.fill == 0
  }

  function Installed(s: Store, slot: byte): J.BootState {
    s.journal.(pending := slot, attempts := 0, confirmed := 0)
  }

  function Finish(c: Ctx, s: Store, check: Checker): Outcome
    requires |s.slotA| == |s.slotB| == SLOT_SIZE
  {
    if c.state != P.RECEIVING then Outcome(c, s, Verdict(ERR_NOT_STARTED, 0))
    else if !Complete(c.w) then Outcome(c, s, Verdict(ERR_INCOMPLETE, c.w.next))
    else
      var (code, detail) := Judge(c, s, check);
      if code == OK then
        var s' := s.(journal := Register(s.journal, Installed(s, c.slot)));
        Outcome(c.(state := P.DONE), AfterLog(s', RecordOf(c, P.DONE)), Verdict(OK, Stamped(s.journal, Installed(s, c.slot)).number))
      else
        Outcome(c.(state := P.IDLE), AfterLog(s, RecordOf(c, P.ABORTED)), Verdict(code, detail))
  }

  function Abort(c: Ctx, s: Store): Outcome {
    var s' := if c.state == P.RECEIVING then AfterLog(s, RecordOf(c, P.ABORTED)) else s;
    Outcome(c.(state := P.IDLE, haveA := false), s', Ack(c.w.next, 0))
  }

  /** The inactivity timeout drops the RAM state only. */
  function Timeout(c: Ctx): Ctx {
    if c.state == P.RECEIVING then c.(state := P.IDLE, w := c.w.(fill := 0), held := []) else c
  }

  // ----- what a power cut inside a handler can leave -----

  ghost predicate StartBCut(c: Ctx, s: Store, s': Store, flags: byte, slot: byte, headerCrc: u32, full: bool)
    requires |s.slotA| == |s.slotB| == SLOT_SIZE
  {
    && StartKindOf(c, s, flags, slot, headerCrc).Fresh?
    && (|| (exists bytes :: |bytes| == SLOT_SIZE && s' == WithSlot(s, slot, bytes))  // inside the erase
        || LogCut(WithSlot(s, slot, Blank(SLOT_SIZE)), s', RecordOf(Started(c, flags, slot, headerCrc, 0), P.RECEIVING), full))
  }

  ghost predicate DataCut(c: Ctx, s: Store, s': Store, seqNo: u16, payload: seq<byte>, full: bool)
    requires |payload| == CHUNK
    requires Accepts(c, seqNo) ==> c.w.next * CHUNK + |HeldAfter(c, seqNo, payload)| <= |SlotOf(s, c.slot)|
  {
    && Accepts(c, seqNo) && Flushes(c.w, seqNo)
    && var held := HeldAfter(c, seqNo, payload);
       (|| (exists words :: 0 <= 4 * words <= |held| && s' == Flushed(c, s, held[..4 * words]))  // inside the window
        || LogCut(Flushed(c, s, held), s', RecordOf(Data(c, s, seqNo, payload).ctx, P.RECEIVING), full))
  }

  ghost predicate FinishCut(c: Ctx, s: Store, s': Store, check: Checker, full: bool)
    requires |s.slotA| == |s.slotB| == SLOT_SIZE
  {
    && c.state == P.RECEIVING && Complete(c.w)
    && if Judge(c, s, check).0 == OK then
         || JournalCut(s, s', Installed(s, c.slot))
         || LogCut(s.(journal := Register(s.journal, Installed(s, c.slot))), s', RecordOf(c, P.DONE), full)
       else LogCut(s, s', RecordOf(c, P.ABORTED), full)
  }

  ghost predicate AbortCut(c: Ctx, s: Store, s': Store, full: bool) {
    c.state == P.RECEIVING && LogCut(s, s', RecordOf(c, P.ABORTED), full)
  }
}

/** What the transfer protocol keeps: received chunks are a prefix of the image, and the last
    progress record never claims more than flash holds. */
module TransferProofs {
  import opened Bytes
  import opened Options
  import opened Stores
  import opened Image
  import opened Transfer
  import opened FlashMemory
  import J = Journal
  import P = Progress

  /** The image that a header CRC and a size stand for, on the side that sends it. */
  type Images = (u32, u32) -> seq<byte>

  ghost predicate RightSizes(images: Images) {
    forall h: u32, z: u32 :: |images(h, z)| == z
  }

  /** The first `n` bytes of the image are there, and every byte after them is either there
      too or still erased. */
  ghost predicate Matches(bytes: seq<byte>, image: seq<byte>, n: int) {
    && |image| <= |bytes|
    && forall i :: 0 <= i < |image| ==> bytes[i] == image[i] || (i >= n && bytes[i] == FF)
  }

  predicate Aligned(next: nat, total: nat) {
    next <= total && (next % WINDOW == 0 || next == total)
  }

  /** What a RECEIVING record promises about the slot it names. */
  ghost predicate Claims(p: P.Progress, bytes: seq<byte>, images: Images) {
    && GoodSize(p.imageSize)
    && Aligned(p.chunks, Chunks(p.imageSize))
    && Matches(bytes, images(p.headerCrc, p.imageSize), CHUNK * p.chunks)
  }

  ghost predicate ClaimHolds(s: Store, images: Images) {
    s.last.Some? && s.last.value.state == P.RECEIVING && s.last.value.slot <= J.SLOT_B ==>
      Claims(s.last.value, SlotOf(s, s.last.value.slot), images)
  }

  ghost predicate GoodWindow(w: Receiver, total: nat) {
    && w.total == total < 0x1_0000
    && Aligned(w.next, total)
    && w.fill < WINDOW
    && (w.fill > 0 ==> w.next + w.fill < total)
  }

  predicate RecordsSession(c: Ctx, last: Option<P.Progress>) {
    && last.Some?
    && var p := last.value;
       p.state == P.RECEIVING && p.headerCrc == c.headerCrc && p.imageSize == c.size && p.slot == c.slot && p.chunks == c.w.next
  }

  /** Chunks `from` to `to` of an image. */
  function Part(image: seq<byte>, from: nat, to: nat): seq<byte>
    requires from <= to
  {
    image[Min(CHUNK * from, |image|)..Min(CHUNK * to, |image|)]
  }

  /** While a transfer runs: the record in flash speaks for it, and RAM holds the chunks that
      follow the recorded ones. */
  ghost predicate InSession(c: Ctx, s: Store, images: Images) {
    c.state == P.RECEIVING ==>
      && c.slot <= J.SLOT_B && c.slot != c.running && GoodSize(c.size)
      && GoodWindow(c.w, Chunks(c.size))
      && RecordsSession(c, s.last)
      && |images(c.headerCrc, c.size)| == c.size
      && c.held == Part(images(c.headerCrc, c.size), c.w.next, c.w.next + c.w.fill)
  }

  ghost predicate Sound(c: Ctx, s: Store, images: Images) {
    |s.slotA| == |s.slotB| == SLOT_SIZE && ClaimHolds(s, images) && InSession(c, s, images)
  }

  /** The sender numbers its chunks below the total and fills them from the image. */
  ghost predicate Genuine(c: Ctx, seqNo: u16, payload: seq<byte>, images: Images) {
    c.state == P.RECEIVING ==>
      && seqNo < c.w.total && |payload| == CHUNK
      && var image := images(c.headerCrc, c.size);
         forall i :: 0 <= i < CHUNK && seqNo * CHUNK + i < |image| ==> payload[i] == image[seqNo * CHUNK + i]
  }

  // ----- arithmetic of chunks -----

  lemma ChunkArithmetic(size: u32, seqNo: u16)
    requires GoodSize(size) && seqNo < Chunks(size)
    ensures Chunks(size) < 0x1_0000
    ensures CHUNK * seqNo < size <= CHUNK * Chunks(size)
    ensures ChunkLen(size, seqNo) == Min(size - CHUNK * seqNo, CHUNK) && CHUNK * seqNo + ChunkLen(size, seqNo) <= size
    ensures seqNo + 1 < Chunks(size) ==> ChunkLen(size, seqNo) == CHUNK
    ensures seqNo + 1 == Chunks(size) ==> CHUNK * seqNo + ChunkLen(size, seqNo) == size
  {
  }

  // ----- data frames -----

  lemma PartGrows(image: seq<byte>, next: nat, k: nat, payload: seq<byte>, len: nat)
    requires next <= k && CHUNK * k <= |image| && len == Min(|image| - CHUNK * k, CHUNK) <= |payload|
    requires forall i :: 0 <= i < len ==> payload[i] == image[CHUNK * k + i]
    ensures Part(image, next, k) + payload[..len] == Part(image, next, k + 1)
  {
    assert payload[..len] == image[CHUNK * k..CHUNK * k + len];
  }

  /** An accepted chunk extends what RAM holds by exactly its part of the image. */
  lemma HeldGrows(c: Ctx, s: Store, seqNo: u16, payload: seq<byte>, images: Images)
    requires InSession(c, s, images) && Accepts(c, seqNo) && Genuine(c, seqNo, payload, images)
    ensures seqNo == c.w.next + c.w.fill
    ensures HeldAfter(c, seqNo, payload) == Part(images(c.headerCrc, c.size), c.w.next, seqNo + 1)
  {
    hide Part, ChunkLen, Chunks;
    assert seqNo == c.w.next + c.w.fill;
    ChunkArithmetic(c.size, seqNo);
    PartGrows(images(c.headerCrc, c.size), c.w.next, seqNo, payload, ChunkLen(c.size, seqNo));
  }

  lemma PartProgrammable(bytes: seq<byte>, image: seq<byte>, next: nat, end: nat)
    requires Matches(bytes, image, CHUNK * next) && next <= end && CHUNK * next <= |image|
    ensures CHUNK * next + |Part(image, next, end)| <= |image|
    ensures forall i :: 0 <= i < |Part(image, next, end)| ==> Programmable(bytes[CHUNK * next + i], Part(image, next, end)[i])
  {
    var part := Part(image, next, end);
    forall i | 0 <= i < |part|
      ensures Programmable(bytes[CHUNK * next + i], part[i])
    {
      ErasedIsProgrammable(part[i]);
    }
  }

  lemma FlushLength(size: u32, next: nat, end: nat)
    requires GoodSize(size) && next % WINDOW == 0 && next < end <= Chunks(size)
    requires end == next + WINDOW || (end == Chunks(size) && end < next + WINDOW)
    ensures CHUNK * next % 4 == 0 && CHUNK * next <= size
    ensures Min(CHUNK * end, size) - CHUNK * next == Min(CHUNK * WINDOW, size - CHUNK * next)
    ensures (Min(CHUNK * end, size) - CHUNK * next) % 4 == 0
  {
  }

  /** What is flushed lies inside the slot, starts at a word boundary, is a whole number of
      words long and only clears bits, so flash never refuses it. */
  lemma FlushIsNeverRefused(c: Ctx, s: Store, seqNo: u16, payload: seq<byte>, images: Images)
    requires Sound(c, s, images) && Accepts(c, seqNo) && Genuine(c, seqNo, payload, images)
    ensures var held, at := HeldAfter(c, seqNo, payload), CHUNK * c.w.next;
            && at + |held| <= c.size <= |SlotOf(s, c.slot)|
            && (forall i :: 0 <= i < |held| ==> Programmable(SlotOf(s, c.slot)[at + i], held[i]))
            && (Flushes(c.w, seqNo) ==> at % 4 == 0 && |held| % 4 == 0 && |held| == Min(192, c.size - at))
  {
    hide HeldAfter, Programmable, Matches, ChunkLen;
    HeldGrows(c, s, seqNo, payload, images);
    ChunkArithmetic(c.size, seqNo);
    PartProgrammable(SlotOf(s, c.slot), images(c.headerCrc, c.size), c.w.next, seqNo + 1);
    if Flushes(c.w, seqNo) {
      assert c.w.next != c.w.total;
      FlushLength(c.size, c.w.next, seqNo + 1);
    }
  }

  lemma MatchesSpliced(bytes: seq<byte>, image: seq<byte>, from: nat, to: nat, n: int)
    requires Matches(bytes, image, from) && from <= to <= |image| && (n <= to || to == |image|)
    ensures Matches(Splice(bytes, from, image[from..to]), image, n)
  {
  }

  /** A flushed window, whole or in part, leaves the old claim true; the whole window also
      makes the new one true. */
  lemma FlushKeepsMatch(bytes: seq<byte>, image: seq<byte>, next: nat, end: nat, words: nat)
    requires Matches(bytes, image, CHUNK * next) && next <= end && CHUNK * next <= |image|
    requires 4 * words <= |Part(image, next, end)|
    ensures CHUNK * next + |Part(image, next, end)| <= |image|
    ensures Matches(Splice(bytes, CHUNK * next, Part(image, next, end)[..4 * words]), image, CHUNK * next)
    ensures Matches(Splice(bytes, CHUNK * next, Part(image, next, end)), image, CHUNK * next)
    ensures Matches(Splice(bytes, CHUNK * next, Part(image, next, end)), image, CHUNK * end)
  {
    var held, at := Part(image, next, end), CHUNK * next;
    assert held[..4 * words] == image[at..at + 4 * words];
    MatchesSpliced(bytes, image, at, at + 4 * words, at);
    MatchesSpliced(bytes, image, at, at + |held|, at);
    MatchesSpliced(bytes, image, at, at + |held|, CHUNK * end);
  }

  /** What an accepted chunk does to the receiver. */
  lemma AcceptedWindow(w: Receiver, total: nat, seqNo: u16)
    requires GoodWindow(w, total) && seqNo == Expected(w) && seqNo < total
    ensures seqNo == w.next + w.fill
    ensures GoodWindow(Receive(w, seqNo).0, total)
    ensures Flushes(w, seqNo) ==> Receive(w, seqNo) == (Receiver(w.total, seqNo + 1, 0, NO_NAK), Ack(seqNo + 1, 0))
    ensures !Flushes(w, seqNo) ==> Receive(w, seqNo) == (w.(fill := w.fill + 1, lastNak := NO_NAK), NoReply)
  {
  }

  lemma AcceptKeepsSound(c: Ctx, s: Store, seqNo: u16, payload: seq<byte>, images: Images)
    requires Sound(c, s, images) && |payload| == CHUNK && Genuine(c, seqNo, payload, images)
    requires Accepts(c, seqNo) && CHUNK * c.w.next + |HeldAfter(c, seqNo, payload)| <= |SlotOf(s, c.slot)|
    ensures Sound(Data(c, s, seqNo, payload).ctx, Data(c, s, seqNo, payload).store, images)
  {
    hide Receive, Flushes, HeldAfter, Part, Matches;
    AcceptedWindow(c.w, Chunks(c.size), seqNo);
    HeldGrows(c, s, seqNo, payload, images);
    if Flushes(c.w, seqNo) {
      ChunkArithmetic(c.size, seqNo);
      PartEmpty(images(c.headerCrc, c.size), seqNo + 1);
      FlushKeepsMatch(SlotOf(s, c.slot), images(c.headerCrc, c.size), c.w.next, seqNo + 1, 0);
    }
  }

  lemma PartEmpty(image: seq<byte>, k: nat)
    ensures Part(image, k, k) == []
  {
  }

  lemma DataKeepsSound(c: Ctx, s: Store, seqNo: u16, payload: seq<byte>, images: Images)
    requires Sound(c, s, images) && |payload| == CHUNK && Genuine(c, seqNo, payload, images)
    ensures Accepts(c, seqNo) ==> CHUNK * c.w.next + |HeldAfter(c, seqNo, payload)| <= |SlotOf(s, c.slot)|
    ensures var o := Data(c, s, seqNo, payload);
            && Sound(o.ctx, o.store, images)
            && (c.running <= J.SLOT_B ==> SlotOf(o.store, c.running) == SlotOf(s, c.running))
            && o.store.journal == s.journal
  {
    hide Receive, Flushes, HeldAfter, Part, Matches;
    if Accepts(c, seqNo) {
      FlushIsNeverRefused(c, s, seqNo, payload, images);
      AcceptKeepsSound(c, s, seqNo, payload, images);
    } else {
      RefusedWindow(c.w, seqNo);
    }
  }

  lemma RefusedWindow(w: Receiver, seqNo: u16)
    ensures seqNo != Expected(w) ==> Receive(w, seqNo).0 == w.(lastNak := Receive(w, seqNo).0.lastNak)
  {
  }

  /** The cut has left a RECEIVING record in last place that it could not leave in a log with
      room: one from before, which only the erase of a full log can bring back. */
  ghost predicate OldRecordAfterData(c: Ctx, s: Store, s': Store, seqNo: u16, payload: seq<byte>)
    requires |payload| == CHUNK
    requires Accepts(c, seqNo) ==> CHUNK * c.w.next + |HeldAfter(c, seqNo, payload)| <= |SlotOf(s, c.slot)|
  {
    s'.last.Some? && s'.last.value.state == P.RECEIVING && !DataCut(c, s, s', seqNo, payload, false)
  }

  /** A cut inside the flush of a window: the record in flash is the old one, the new one or
      one that nobody resumes from, and whichever it is, it tells the truth; unless the log had
      to be erased and the cut has brought back an older one. */
  lemma DataCutKeepsClaim(c: Ctx, s: Store, s': Store, seqNo: u16, payload: seq<byte>, full: bool, images: Images)
    requires Sound(c, s, images) && |payload| == CHUNK && Genuine(c, seqNo, payload, images)
    requires Accepts(c, seqNo) ==> CHUNK * c.w.next + |HeldAfter(c, seqNo, payload)| <= |SlotOf(s, c.slot)|
    requires DataCut(c, s, s', seqNo, payload, full)
    ensures ClaimHolds(s', images) || OldRecordAfterData(c, s, s', seqNo, payload)
    ensures s'.journal == s.journal && (c.running <= J.SLOT_B ==> SlotOf(s', c.running) == SlotOf(s, c.running))
  {
    hide Receive, Flushes, HeldAfter, Chunks, ChunkLen, Sound, Genuine, Claims, Data;
    var held := HeldAfter(c, seqNo, payload);
    SoundSlots(c, s, images);
    if words :| 0 <= 4 * words <= |held| && s' == Flushed(c, s, held[..4 * words]) {
      CutInWindow(c, s, seqNo, payload, words, images);
    } else if LogCut(Flushed(c, s, held), s', RecordOf(Data(c, s, seqNo, payload).ctx, P.RECEIVING), false) {
      CutInRecord(c, s, s', seqNo, payload, images);
    }
  }

  lemma SoundSlots(c: Ctx, s: Store, images: Images)
    requires Sound(c, s, images) && c.state == P.RECEIVING
    ensures c.slot <= J.SLOT_B && c.slot != c.running
  {
  }

  lemma CutInWindow(c: Ctx, s: Store, seqNo: u16, payload: seq<byte>, words: nat, images: Images)
    requires Sound(c, s, images) && |payload| == CHUNK && Genuine(c, seqNo, payload, images) && Accepts(c, seqNo)
    requires CHUNK * c.w.next + |HeldAfter(c, seqNo, payload)| <= |SlotOf(s, c.slot)| && 4 * words <= |HeldAfter(c, seqNo, payload)|
    ensures ClaimHolds(Flushed(c, s, HeldAfter(c, seqNo, payload)[..4 * words]), images)
  {
    hide HeldAfter, Part, Matches, Chunks, ChunkLen;
    HeldGrows(c, s, seqNo, payload, images);
    ChunkArithmetic(c.size, seqNo);
    FlushKeepsMatch(SlotOf(s, c.slot), images(c.headerCrc, c.size), c.w.next, seqNo + 1, words);
  }

  lemma CutInRecord(c: Ctx, s: Store, s': Store, seqNo: u16, payload: seq<byte>, images: Images)
    requires Sound(c, s, images) && |payload| == CHUNK && Genuine(c, seqNo, payload, images) && Accepts(c, seqNo) && Flushes(c.w, seqNo)
    requires CHUNK * c.w.next + |HeldAfter(c, seqNo, payload)| <= |SlotOf(s, c.slot)|
    requires LogCut(Flushed(c, s, HeldAfter(c, seqNo, payload)), s', RecordOf(Data(c, s, seqNo, payload).ctx, P.RECEIVING), false)
    ensures ClaimHolds(s', images)
  {
    hide Receive, Flushes, HeldAfter, Part, Matches, Chunks, ChunkLen, LogCut;
    HeldGrows(c, s, seqNo, payload, images);
    ChunkArithmetic(c.size, seqNo);
    AcceptKeepsSound(c, s, seqNo, payload, images);
    FlushKeepsMatch(SlotOf(s, c.slot), images(c.headerCrc, c.size), c.w.next, seqNo + 1, 0);
    LogCutKeepsClaim(Flushed(c, s, HeldAfter(c, seqNo, payload)), s', RecordOf(Data(c, s, seqNo, payload).ctx, P.RECEIVING), images);
  }

  /** A cut while a true record is being logged over a true record. */
  lemma LogCutKeepsClaim(s: Store, s': Store, p: P.Progress, images: Images)
    requires ClaimHolds(s, images) && LogCut(s, s', p, false)
    requires p.state == P.RECEIVING && p.slot <= J.SLOT_B ==> Claims(p, SlotOf(s, p.slot), images)
    ensures ClaimHolds(s', images)
  {
    hide Matches;
  }

  // ----- START -----

  lemma BlankMatches(image: seq<byte>)
    requires |image| <= SLOT_SIZE
    ensures Matches(Blank(SLOT_SIZE), image, 0)
  {
  }

  /** Accepted, resumed or refused, a START leaves a session whose record tells the truth. */
  lemma StartKeepsSound(c: Ctx, s: Store, flags: byte, slot: byte, headerCrc: u32, images: Images)
    requires |s.slotA| == |s.slotB| == SLOT_SIZE && ClaimHolds(s, images) && RightSizes(images)
    requires !c.haveA ==> InSession(c, s, images)
    ensures var o := StartB(c, s, flags, slot, headerCrc);
            && Sound(o.ctx, o.store, images)
            && (c.running <= J.SLOT_B ==> SlotOf(o.store, c.running) == SlotOf(s, c.running))
            && o.store.journal == s.journal && o.ctx.running == c.running
  {
    hide Matches, RunningVersion;
    var image := images(headerCrc, c.size);
    match StartKindOf(c, s, flags, slot, headerCrc) {
      case NoStartA =>
      case Rejected(_) =>
      case Resume(n) =>
        ChunkArithmetic(c.size, 0);
        PartEmpty(image, n);
      case Fresh =>
        ChunkArithmetic(c.size, 0);
        PartEmpty(image, 0);
        BlankMatches(image);
    }
  }

  /** The last record speaks for an unfinished transfer into `slot`. */
  predicate Endangered(s: Store, slot: byte) {
    s.last.Some? && s.last.value.state == P.RECEIVING && s.last.value.slot == slot
  }

  /** A cut inside a START that erases: the claim can break only if the last record still speaks
      for a slot that has changed. */
  lemma StartCutKeepsClaim(c: Ctx, s: Store, s': Store, flags: byte, slot: byte, headerCrc: u32, images: Images)
    requires |s.slotA| == |s.slotB| == SLOT_SIZE && ClaimHolds(s, images) && RightSizes(images)
    requires StartBCut(c, s, s', flags, slot, headerCrc, false)
    requires !(Endangered(s, slot) && s'.last == s.last && SlotOf(s', slot) != SlotOf(s, slot))
    ensures ClaimHolds(s', images)
  {
    hide Matches, RunningVersion;
    var image := images(headerCrc, c.size);
    BlankMatches(image);
    ChunkArithmetic(c.size, 0);
    var blank := WithSlot(s, slot, Blank(SLOT_SIZE));
    var p := RecordOf(Started(c, flags, slot, headerCrc, 0), P.RECEIVING);
    if LogCut(blank, s', p, false) && s'.last != s.last {
      RecordOfBlank(s', p, NumberedAfter(s.last, p), image, images);
    }
  }

  /** The record of a START speaks for no byte yet. */
  lemma RecordOfBlank(s: Store, p: P.Progress, q: P.Progress, image: seq<byte>, images: Images)
    requires p.slot <= J.SLOT_B && p.state == P.RECEIVING && p.chunks == 0 && q == p.(number := q.number) && GoodSize(p.imageSize)
    requires SlotOf(s, p.slot) == Blank(SLOT_SIZE) && image == images(p.headerCrc, p.imageSize) && |image| <= SLOT_SIZE
    requires P.ShowsOrIsHarmless(s.last, q)
    ensures ClaimHolds(s, images)
  {
    hide Matches;
    BlankMatches(image);
  }

  /** The claim survives every cut inside a START that erases if and only if the last record
      does not speak for the slot that is erased. */
  lemma StartCutExact(c: Ctx, s: Store, flags: byte, slot: byte, headerCrc: u32, images: Images)
    requires |s.slotA| == |s.slotB| == SLOT_SIZE && ClaimHolds(s, images) && RightSizes(images)
    requires StartKindOf(c, s, flags, slot, headerCrc).Fresh?
    ensures (forall s' :: StartBCut(c, s, s', flags, slot, headerCrc, false) ==> ClaimHolds(s', images)) <==> !Endangered(s, slot)
  {
    if Endangered(s, slot) {
      var image := images(s.last.value.headerCrc, s.last.value.imageSize);
      var other: byte := if image[0] == 0 then 1 else 0;
      var bytes := seq(SLOT_SIZE, i => other);
      assert bytes[0] == other;
      var s' := WithSlot(s, slot, bytes);
      assert StartBCut(c, s, s', flags, slot, headerCrc, false);
      assert !ClaimHolds(s', images);
    } else {
      forall s' | StartBCut(c, s, s', flags, slot, headerCrc, false)
        ensures ClaimHolds(s', images)
      {
        StartCutKeepsClaim(c, s, s', flags, slot, headerCrc, images);
      }
    }
  }

  /** Even an erase that comes to its end leaves a false claim behind if power fails before
      the new record: exactly when the old record claims a byte that is not erased. */
  lemma EraseToRecordGap(s: Store, slot: byte, images: Images)
    requires |s.slotA| == |s.slotB| == SLOT_SIZE && ClaimHolds(s, images) && slot <= J.SLOT_B && Endangered(s, slot)
    ensures var p := s.last.value; var image := images(p.headerCrc, p.imageSize);
            ClaimHolds(WithSlot(s, slot, Blank(SLOT_SIZE)), images)
            <==> forall i :: 0 <= i < Min(CHUNK * p.chunks, |image|) ==> image[i] == FF
  {
    var p := s.last.value;
    var image := images(p.headerCrc, p.imageSize);
    var blank := WithSlot(s, slot, Blank(SLOT_SIZE));
    assert SlotOf(blank, slot) == Blank(SLOT_SIZE);
  }

  /** The erase of a full log is the other place where a cut can make flash lie. Whatever cut
      of writing a true record: the claim survives it if and only if the log was not full or
      each of its RECEIVING records, however old, is still true. */
  lemma FullLogCutExact(m: seq<byte>, p: P.Progress, images: Images)
    requires |m| == FLASH_SIZE && ClaimHolds(View(m), images)
    requires p.state == P.RECEIVING && p.slot <= J.SLOT_B ==> Claims(p, SlotOf(View(m), p.slot), images)
    ensures (forall m' :: |m'| == FLASH_SIZE && P.CutWhileLogging(m, m', p) ==> ClaimHolds(View(m'), images))
      <==> (P.Full(m) ==> forall k :: 0 <= k < P.RECORDS ==> ClaimHolds(View(m).(last := P.Entries(m)[k]), images))
  {
    hide ClaimHolds, TornErase, P.Entries, P.LastRecord, View, P.Full, P.CutWhileLogging, P.OneLeft;
    if P.Full(m) ==> forall k :: 0 <= k < P.RECORDS ==> ClaimHolds(View(m).(last := P.Entries(m)[k]), images) {
      forall m' | |m'| == FLASH_SIZE && P.CutWhileLogging(m, m', p)
        ensures ClaimHolds(View(m'), images)
      {
        CutShows(m, m', p, images);
      }
    } else {
      var k :| 0 <= k < P.RECORDS && !ClaimHolds(View(m).(last := P.Entries(m)[k]), images);
      P.EraseMayLeaveAny(m, k);
      OneLeftIsCut(m, k, p);
      TornLogView(m, P.OneLeft(m, k));
      assert !ClaimHolds(View(P.OneLeft(m, k)), images);
    }
  }

  lemma OneLeftIsCut(m: seq<byte>, k: nat, p: P.Progress)
    requires |m| == FLASH_SIZE && k < P.RECORDS && P.Full(m)
    requires TornErase(m, P.OneLeft(m, k), P.PROGRESS_SECTOR) && P.LastRecord(P.OneLeft(m, k)) == P.Entries(m)[k]
    ensures P.CutWhileLogging(m, P.OneLeft(m, k), p)
  {
    hide TornErase, P.Entries, P.LastRecord, P.OneLeft, P.Full;
    P.EraseStaysInLog(m, P.OneLeft(m, k));
  }

  lemma CutShows(m: seq<byte>, m': seq<byte>, p: P.Progress, images: Images)
    requires |m| == |m'| == FLASH_SIZE && ClaimHolds(View(m), images) && P.CutWhileLogging(m, m', p)
    requires p.state == P.RECEIVING && p.slot <= J.SLOT_B ==> Claims(p, SlotOf(View(m), p.slot), images)
    requires P.Full(m) ==> forall k :: 0 <= k < P.RECORDS ==> ClaimHolds(View(m).(last := P.Entries(m)[k]), images)
    ensures ClaimHolds(View(m'), images)
  {
    hide Claims, P.Entries, P.LastRecord, J.Value, P.Full;
    LogFrame(m, m');
    if P.Full(m) && P.LastRecord(m') in P.Entries(m) {
      var k :| 0 <= k < P.RECORDS && P.Entries(m)[k] == P.LastRecord(m');
      assert View(m') == View(m).(last := P.Entries(m)[k]);
    } else {
      FlagsDoNotMatter(p, P.Numbered(m, p), SlotOf(View(m), p.slot), images);
    }
  }

  lemma FlagsDoNotMatter(p: P.Progress, q: P.Progress, bytes: seq<byte>, images: Images)
    requires q == p.(number := q.number)
    ensures Claims(q, bytes, images) == Claims(p, bytes, images) == Claims(q.(flags := 0xFF), bytes, images)
  {
  }

  /** Both records are of one transfer, and the first came no later. */
  predicate OfOneTransfer(q: P.Progress, p: P.Progress) {
    q.headerCrc == p.headerCrc && q.imageSize == p.imageSize && q.slot == p.slot && q.chunks <= p.chunks && Aligned(q.chunks, Chunks(q.imageSize))
  }

  /** What can be read from the records: a log survives every cut if, slot by slot, its
      RECEIVING records are all of one transfer, whose newest record is still true. So it is
      while the log holds no RECEIVING record of a transfer to a slot that a START has erased
      since for another one. */
  lemma LogOfTransfers(m: seq<byte>, newest: map<byte, P.Progress>, images: Images)
    requires |m| == FLASH_SIZE
    requires forall slot :: slot in newest ==> newest[slot].slot == slot && Claims(newest[slot], SlotOf(View(m), slot), images)
    requires forall k :: 0 <= k < P.RECORDS && P.Entries(m)[k].Some? ==>
      var q := P.Entries(m)[k].value;
      q.state == P.RECEIVING && q.slot <= J.SLOT_B ==> q.slot in newest && OfOneTransfer(q, newest[q.slot])
    ensures forall k :: 0 <= k < P.RECORDS ==> ClaimHolds(View(m).(last := P.Entries(m)[k]), images)
  {
    hide P.Entries, P.LastRecord, J.Value, Chunks, Aligned;
    var s := View(m);
    forall k | 0 <= k < P.RECORDS
      ensures ClaimHolds(s.(last := P.Entries(m)[k]), images)
    {
      SameSlots(s, P.Entries(m)[k]);
    }
  }

  lemma SameSlots(s: Store, last: Option<P.Progress>)
    ensures forall slot: byte :: SlotOf(s.(last := last), slot) == SlotOf(s, slot)
  {
  }

  lemma TornLogView(m: seq<byte>, m': seq<byte>)
    requires |m| == |m'| == FLASH_SIZE && TornErase(m, m', P.PROGRESS_SECTOR)
    ensures View(m') == View(m).(last := P.LastRecord(m'))
    ensures View(m').last.None? || View(m').last in P.Entries(m)
  {
    hide TornErase, P.LastRecord, P.Entries, J.Value;
    P.EraseStaysInLog(m, m');
    LogFrame(m, m');
    P.LastAfterTornErase(m, m');
  }

  // ----- FINISH, ABORT, timeout -----

  lemma EndKeepsSound(c: Ctx, s: Store, check: Checker, images: Images)
    requires Sound(c, s, images)
    ensures Sound(Finish(c, s, check).ctx, Finish(c, s, check).store, images)
    ensures Sound(Abort(c, s).ctx, Abort(c, s).store, images)
    ensures Sound(Timeout(c), s, images)
  {
    hide Matches, Part;
  }

  lemma EndCutKeepsClaim(c: Ctx, s: Store, s': Store, check: Checker, images: Images)
    requires Sound(c, s, images)
    requires FinishCut(c, s, s', check, false) || AbortCut(c, s, s', false)
    ensures ClaimHolds(s', images)
  {
    hide Matches, Part;
  }

  /** When FINISH is not answered INCOMPLETE, the slot holds exactly the image. */
  lemma FinishSeesTheImage(c: Ctx, s: Store, images: Images)
    requires Sound(c, s, images) && c.state == P.RECEIVING && Complete(c.w)
    ensures SlotOf(s, c.slot)[..c.size] == images(c.headerCrc, c.size)
  {
    ChunkArithmetic(c.size, Chunks(c.size) - 1);
  }
}

/** A transfer by tools/ota_send.py to the device of update.c, from START to FINISH, while the
    device is not reset. Data frames may be lost, doubled, swapped and delayed; replies arrive
    in order and are not lost; waiting for one may time out. */
module Session {
  import opened Bytes
  import opened Options
  import opened Image
  import opened Stores
  import J = Journal
  import P = Progress
  import Crc32
  import opened Transfer
  import opened TransferProofs

  /** `max_retries` of the sender. */
  const MAX_RETRIES := 10

  // ----- the device and the replies on their way -----

  /** A reply that the sender at `base` can still meet. An ACK always tells something new. */
  predicate Plausible(w: Receiver, base: nat, r: Reply) {
    match r
    case Ack(n, _) => base < n <= w.next && Aligned(n, w.total)
    case Nak(n, code) => base <= n <= Expected(w) && n < w.total && code == ERR_GAP
    case _ => false
  }

  function Number(r: Reply): nat {
    if r.Ack? || r.Nak? then r.seqNo else 0
  }

  predicate Before(r: Reply, r': Reply) {
    if r'.Ack? then Number(r) < Number(r') else Number(r) <= Number(r')
  }

  predicate Ordered(replies: seq<Reply>) {
    forall i, j :: 0 <= i < j < |replies| ==> Before(replies[i], replies[j])
  }

  predicate Announced(w: Receiver, base: nat, replies: seq<Reply>) {
    w.next > base ==> exists i :: 0 <= i < |replies| && replies[i].Ack? && replies[i].seqNo == w.next
  }

  /** The sender is not ahead of the device; replies are in order of their numbers; and what the
      device has flushed beyond the sender's base is announced by an ACK on its way. */
  ghost predicate InStep(w: Receiver, base: nat, replies: seq<Reply>) {
    && GoodWindow(w, w.total) && w.total < NO_NAK && base <= Expected(w)
    && AllPlausible(w, base, replies)
    && Ordered(replies)
    && Announced(w, base, replies)
  }

  function Emitted(r: Reply): seq<Reply> {
    if r.NoReply? then [] else [r]
  }

  /** Replies that can still come: those on their way, an ACK and a NAK for every chunk that is
      still expected, and a NAK for the present one unless it has been sent. */
  function Potential(w: Receiver, replies: seq<Reply>): int {
    |replies| + 2 * (w.total - Expected(w)) + (if w.lastNak != Expected(w) then 1 else 0)
  }

  lemma WhatReceiveDoes(w: Receiver, seqNo: u16)
    requires GoodWindow(w, w.total) && w.total < NO_NAK && seqNo < w.total
    ensures Expected(w) == w.next + w.fill <= w.total
    ensures var (w', r) := Receive(w, seqNo);
      && GoodWindow(w', w.total)
      && (seqNo < Expected(w) ==> w' == w && r == NoReply)
      && (seqNo > Expected(w) ==> w' == w.(lastNak := Expected(w)) && r == if w.lastNak == Expected(w) then NoReply else Nak(Expected(w), ERR_GAP))
      && w'.total == w.total && Expected(w') >= Expected(w)
      && (seqNo == Expected(w) ==>
           && Expected(w') == Expected(w) + 1 && w'.lastNak == NO_NAK
           && if w'.next == w.next then r == NoReply else r == Ack(w'.next, 0) && w'.next == Expected(w'))
  {
    if seqNo == Expected(w) {
      AcceptedWindow(w, w.total, seqNo);
    }
  }

  ghost predicate AllPlausible(w: Receiver, base: nat, replies: seq<Reply>) {
    forall i :: 0 <= i < |replies| ==> Plausible(w, base, replies[i])
  }

  lemma RepliesKeep(w: Receiver, base: nat, replies: seq<Reply>, seqNo: u16)
    requires GoodWindow(w, w.total) && w.total < NO_NAK && seqNo < w.total && base <= Expected(w)
    requires AllPlausible(w, base, replies) && Ordered(replies)
    ensures var (w', r) := Receive(w, seqNo); AllPlausible(w', base, replies + Emitted(r)) && Ordered(replies + Emitted(r))
  {
    hide Receive, GoodWindow, Expected, Aligned;
    WhatReceiveDoes(w, seqNo);
    var (w', r) := Receive(w, seqNo);
    ExpectedIsSum(w);
    ExpectedIsSum(w');
    FlushedIsAligned(w');
    var all := replies + Emitted(r);
    forall i | 0 <= i < |all|
      ensures Plausible(w', base, all[i])
    {
      if i < |replies| {
        assert Plausible(w, base, replies[i]);
      }
    }
    forall i, j | 0 <= i < j < |all|
      ensures Before(all[i], all[j])
    {
      if j == |replies| {
        assert Plausible(w, base, replies[i]);
      } else {
        assert Before(replies[i], replies[j]);
      }
    }
  }

  lemma AnnouncedKeeps(w: Receiver, base: nat, replies: seq<Reply>, seqNo: u16)
    requires GoodWindow(w, w.total) && w.total < NO_NAK && seqNo < w.total && Announced(w, base, replies)
    ensures var (w', r) := Receive(w, seqNo); Announced(w', base, replies + Emitted(r))
  {
    hide Receive, GoodWindow, Expected;
    WhatReceiveDoes(w, seqNo);
    var (w', r) := Receive(w, seqNo);
    var all := replies + Emitted(r);
    if w'.next > base && w'.next == w.next {
      var i :| 0 <= i < |replies| && replies[i].Ack? && replies[i].seqNo == w.next;
      assert all[i] == replies[i];
    } else if w'.next > base {
      assert all[|replies|] == r;
    }
  }

  lemma PotentialKeeps(w: Receiver, replies: seq<Reply>, seqNo: u16)
    requires GoodWindow(w, w.total) && w.total < NO_NAK && seqNo < w.total
    ensures Potential(Receive(w, seqNo).0, replies + Emitted(Receive(w, seqNo).1)) <= Potential(w, replies)
  {
    hide Receive, GoodWindow;
    WhatReceiveDoes(w, seqNo);
    ExpectedIsSum(Receive(w, seqNo).0);
  }

  /** Whatever frame arrives: the sender stays in step, and no more replies can come than
      could before. */
  lemma ReceiveKeepsStep(w: Receiver, base: nat, replies: seq<Reply>, seqNo: u16)
    requires InStep(w, base, replies) && seqNo < w.total
    ensures var (w', r) := Receive(w, seqNo);
      && InStep(w', base, replies + Emitted(r))
      && Potential(w', replies + Emitted(r)) <= Potential(w, replies)
      && w'.total == w.total
  {
    hide Receive, GoodWindow, Plausible, Ordered, Announced, Potential, Expected;
    WhatReceiveDoes(w, seqNo);
    RepliesKeep(w, base, replies, seqNo);
    AnnouncedKeeps(w, base, replies, seqNo);
    PotentialKeeps(w, replies, seqNo);
  }

  lemma ExpectedIsSum(w: Receiver)
    requires GoodWindow(w, w.total)
    ensures Expected(w) == w.next + w.fill <= w.total
    ensures Expected(w) == w.total ==> Complete(w)
  {
  }

  lemma FlushedIsAligned(w: Receiver)
    requires GoodWindow(w, w.total)
    ensures Aligned(w.next, w.total)
  {
  }

  // ----- windows end where the device acknowledges -----

  /** The end that `send_window` computes. */
  function WindowEnd(base: nat, total: nat): nat {
    Min((base / WINDOW + 1) * WINDOW, total)
  }

  lemma NothingBetween(base: nat, total: nat, n: nat)
    requires base < total && base < n && Aligned(n, total)
    ensures base < WindowEnd(base, total) <= n && Aligned(WindowEnd(base, total), total)
  {
    var k := base / WINDOW + 1;
    assert k * WINDOW % WINDOW == 0;
    assert n == n / WINDOW * WINDOW + n % WINDOW;
    if n % WINDOW == 0 && n / WINDOW <= base / WINDOW {
      assert false;
    }
  }

  /** The device after the chunks `from` to `to` - 1 have arrived in order. */
  function Feed(w: Receiver, from: nat, to: nat): Receiver
    requires from <= to < 0x1_0000
  {
    if from == to then w else Receive(Feed(w, from, to - 1), to - 1).0
  }

  lemma {:induction false} FeedCatchesUp(w: Receiver, from: nat, to: nat)
    requires GoodWindow(w, w.total) && w.total < NO_NAK && from <= to <= w.total && from <= Expected(w)
    ensures var w' := Feed(w, from, to); GoodWindow(w', w'.total) && w'.total == w.total && to <= Expected(w')
  {
    hide GoodWindow;
    if from < to {
      FeedCatchesUp(w, from, to - 1);
      WhatReceiveDoes(Feed(w, from, to - 1), to - 1);
    }
  }

  /** Once the chunks of a window have all arrived in order, from wherever the device stood, the
      device has flushed up to the end of the window, and so it has acknowledged it. */
  lemma WindowIsAcknowledged(w: Receiver, base: nat)
    requires GoodWindow(w, w.total) && w.total < NO_NAK && base < w.total && base <= Expected(w)
    ensures base < WindowEnd(base, w.total) <= w.total
    ensures Feed(w, base, WindowEnd(base, w.total)).next >= WindowEnd(base, w.total)
  {
    var end := WindowEnd(base, w.total);
    NothingBetween(base, w.total, w.total);
    FeedCatchesUp(w, base, end);
    var w' := Feed(w, base, end);
    BoundaryReached(w', end);
  }

  lemma BoundaryReached(w: Receiver, end: nat)
    requires GoodWindow(w, w.total) && Aligned(end, w.total) && end <= Expected(w)
    ensures w.next >= end
  {
    assert w.next == w.next / WINDOW * WINDOW + w.next % WINDOW && end == end / WINDOW * WINDOW + end % WINDOW;
  }

  // ----- what the sender does with a reply -----

  /** Every reply moves the sender: a NAK rewinds it, but never behind where it was, and an ACK
      always covers the window it waits for. */
  lemma {:induction false} TakenReply(w: Receiver, base: nat, replies: seq<Reply>)
    requires InStep(w, base, replies) && base < w.total && replies != []
    ensures replies[0].Ack? || (replies[0].Nak? && replies[0].code == ERR_GAP)
    ensures replies[0].Ack? ==> replies[0].seqNo >= WindowEnd(base, w.total)
    ensures base <= replies[0].seqNo && InStep(w, replies[0].seqNo, replies[1..])
    ensures Potential(w, replies[1..]) == Potential(w, replies) - 1
  {
    hide Aligned;
    var r, rest := replies[0], replies[1..];
    assert Plausible(w, base, r);
    if r.Ack? {
      NothingBetween(base, w.total, r.seqNo);
    }
    forall i | 0 <= i < |rest|
      ensures Plausible(w, r.seqNo, rest[i])
    {
      assert rest[i] == replies[i + 1] && Plausible(w, base, replies[i + 1]);
      assert Before(r, replies[i + 1]);
    }
    forall i, j | 0 <= i < j < |rest|
      ensures Before(rest[i], rest[j])
    {
      assert Before(replies[i + 1], replies[j + 1]);
    }
    if w.next > r.seqNo {
      var i :| 0 <= i < |replies| && replies[i].Ack? && replies[i].seqNo == w.next;
      assert rest[i - 1] == replies[i];
    }
  }

  /** A sender that times out without a reply on its way has not lost an ACK: either the window
      has not fully arrived, or what it waits for is on its way. */
  lemma AnswerIsComing(w: Receiver, base: nat, replies: seq<Reply>)
    requires InStep(w, base, replies) && base < w.total && w.next >= WindowEnd(base, w.total)
    ensures exists i :: 0 <= i < |replies| && replies[i].Ack? && replies[i].seqNo >= WindowEnd(base, w.total)
  {
    NothingBetween(base, w.total, w.total);
  }

  lemma NothingAtTheTotal(w: Receiver, base: nat, r: Reply)
    requires GoodWindow(w, w.total) && base >= w.total
    ensures !Plausible(w, base, r)
  {
  }

  /** A sender that has reached the end meets a complete device and no stale reply. */
  lemma AtTheTotal(w: Receiver, base: nat, replies: seq<Reply>)
    requires InStep(w, base, replies) && base >= w.total
    ensures Complete(w) && base == w.total && replies == []
  {
    ExpectedIsSum(w);
    if replies != [] {
      NothingAtTheTotal(w, base, replies[0]);
      assert false;
    }
  }

  lemma LeftIsNatural(w: Receiver, base: nat, replies: seq<Reply>)
    requires InStep(w, base, replies)
    ensures Potential(w, replies) >= 0 && base <= w.total
  {
    ExpectedIsSum(w);
  }

  /** What the numbering below the total is for: the device does not check it, and a frame
      numbered with the total itself is the one that undoes a complete transfer. */
  lemma OnlyTheTotalUndoes(w: Receiver, seqNo: u16)
    requires GoodWindow(w, w.total) && 0 < w.total < NO_NAK && Complete(w)
    ensures Complete(Receive(w, seqNo).0) <==> seqNo != w.total
  {
  }

  // ----- the bus and the device -----

  datatype Frame = Frame(seqNo: u16, payload: seq<byte>)

  /** `data_frame`; the six bytes of a frame that is shorter than that are filled up. */
  function DataFrame(image: seq<byte>, k: u16): (f: Frame)
    requires CHUNK * k <= |image|
    ensures f.seqNo == k && |f.payload| == CHUNK
  {
    var part := image[CHUNK * k..Min(CHUNK * k + CHUNK, |image|)];
    Frame(k, part + Blank(CHUNK - |part|))
  }

  /** `data_frame` with the fault of `corrupt_chunk`: one bit of that chunk is turned over. The
      chunk must not be empty. */
  function SenderFrame(image: seq<byte>, k: u16, corrupt: Option<nat>): (f: Frame)
    requires CHUNK * k < |image|
  {
    var part := image[CHUNK * k..Min(CHUNK * k + CHUNK, |image|)];
    var faulty := if corrupt == Some(k) then [Turned(part[0])] + part[1..] else part;
    Frame(k, faulty + Blank(CHUNK - |faulty|))
  }

  /** The byte with its lowest bit turned over. */
  function Turned(b: byte): byte {
    if b % 2 == 0 then b + 1 else b - 1
  }

  /** The image that reaches the device when a chunk is corrupted on every sending of it. */
  function Corrupted(image: seq<byte>, corrupt: Option<nat>): (sent: seq<byte>)
    ensures |sent| == |image|
  {
    if corrupt.Some? && CHUNK * corrupt.value < |image| then image[CHUNK * corrupt.value := Turned(image[CHUNK * corrupt.value])] else image
  }

  /** With the fault, the sender sends the frames of the corrupted image, faultlessly. */
  lemma FaultIsInTheImage(image: seq<byte>, k: u16, corrupt: Option<nat>)
    requires CHUNK * k < |image|
    ensures SenderFrame(image, k, corrupt) == DataFrame(Corrupted(image, corrupt), k)
  {
    var sent := Corrupted(image, corrupt);
    var part, part' := image[CHUNK * k..Min(CHUNK * k + CHUNK, |image|)], sent[CHUNK * k..Min(CHUNK * k + CHUNK, |image|)];
    if corrupt == Some(k) {
      assert part' == [Turned(part[0])] + part[1..];
    } else {
      assert part' == part;
    }
  }

  predicate FrameOf(image: seq<byte>, f: Frame) {
    CHUNK * f.seqNo <= |image| && f == DataFrame(image, f.seqNo)
  }

  /** Frames of the image with numbers from `from` to `to` - 1, in any order and number. */
  predicate Batch(image: seq<byte>, from: nat, to: nat, frames: seq<Frame>) {
    forall i :: 0 <= i < |frames| ==> from <= frames[i].seqNo < to && FrameOf(image, frames[i])
  }

  lemma BatchNone(image: seq<byte>, total: nat)
    ensures Batch(image, 0, total, [])
  {
  }

  lemma BatchSnoc(image: seq<byte>, from: nat, to: nat, frames: seq<Frame>, f: Frame)
    requires Batch(image, from, to, frames) && from <= f.seqNo < to && FrameOf(image, f)
    ensures Batch(image, from, to, frames + [f])
  {
    hide FrameOf;
  }

  lemma BatchesJoin(image: seq<byte>, from: nat, to: nat, total: nat, a: seq<Frame>, b: seq<Frame>)
    requires Batch(image, 0, total, a) && Batch(image, from, to, b) && to <= total
    ensures Batch(image, 0, total, a + b)
  {
    hide FrameOf;
  }

  lemma BatchTail(image: seq<byte>, total: nat, a: seq<Frame>)
    requires Batch(image, 0, total, a) && a != []
    ensures FrameOf(image, a[0]) && a[0].seqNo < total && Batch(image, 0, total, a[1..])
  {
    hide FrameOf;
  }

  /** What the sender puts on the bus is a genuine chunk of its image. */
  lemma FrameIsGenuine(c: Ctx, image: seq<byte>, k: u16, images: Images)
    requires image == images(c.headerCrc, c.size) && CHUNK * k <= |image| && k < c.w.total
    ensures var f := DataFrame(image, k); Genuine(c, f.seqNo, f.payload, images)
  {
  }

  /** Inside a session, a data frame does to receiver and reply what `Receive` says. */
  lemma DataIsReceive(c: Ctx, s: Store, seqNo: u16, payload: seq<byte>)
    requires |payload| == CHUNK && c.state == P.RECEIVING
    requires Accepts(c, seqNo) ==> c.w.next * CHUNK + |HeldAfter(c, seqNo, payload)| <= |SlotOf(s, c.slot)|
    ensures var o := Data(c, s, seqNo, payload);
      && (o.ctx.w, o.reply) == Receive(c.w, seqNo)
      && o.ctx == c.(w := o.ctx.w, held := o.ctx.held)
  {
    hide Receive, Flushes, HeldAfter, Splice;
    ReceiveByCase(c.w, seqNo);
  }

  lemma ReceiveByCase(w: Receiver, seqNo: u16)
    ensures seqNo != Expected(w) ==> Receive(w, seqNo).0 == w.(lastNak := Receive(w, seqNo).0.lastNak)
  {
  }

  /** The bus and the device behind it. The device is the update code on a store; what the
      sender sends of its image is what `images` gives for its header CRC and size. */
  class Link {
    const original: seq<byte>
    const corrupt: Option<nat>
    ghost const image: seq<byte> := Corrupted(original, corrupt)  // what is sent
    ghost const images: Images
    const check: Checker
    var c: Ctx
    var s: Store
    var frames: seq<Frame>   // sent, not yet handled by the device
    var replies: seq<Reply>  // sent by the device, not yet received

    constructor (c: Ctx, s: Store, original: seq<byte>, corrupt: Option<nat>, ghost images: Images, check: Checker)
      ensures this.c == c && this.s == s && this.original == original && this.corrupt == corrupt && this.images == images && this.check == check
      ensures frames == [] && replies == []
    {
      this.c, this.s, this.original, this.corrupt, this.images, this.check := c, s, original, corrupt, images, check;
      frames, replies := [], [];
    }

    /** In a session for the image, with the sender at chunk `base`. */
    ghost predicate Valid(base: nat)
      reads this
    {
      && c.state == P.RECEIVING && Sound(c, s, images) && images(c.headerCrc, c.size) == image
      && InStep(c.w, base, replies)
      && Batch(image, 0, c.w.total, frames)
    }

    /** What no data frame changes. */
    ghost function Fixed(): (Ctx, J.BootState)
      reads this
    {
      (c.(w := Receiver(c.w.total, 0, 0, 0), held := []), s.journal)
    }

    /** What can still come back. */
    ghost function Left(): int
      reads this
    {
      Potential(c.w, replies)
    }

    /** The device takes a data frame off the bus. */
    method Deliver(f: Frame, ghost base: nat)
      requires Valid(base) && FrameOf(image, f) && f.seqNo < c.w.total
      modifies this`c, this`s, this`replies
      ensures Valid(base) && Left() <= old(Left()) && Fixed() == old(Fixed())
      ensures old(Complete(c.w)) ==> c == old(c) && s == old(s) && replies == old(replies)
    {
      hide InStep, Potential, Receive, Sound, Genuine, Data, HeldAfter, GoodWindow;
      ImageIsSized(c, s, images);
      FrameIsGenuine(c, image, f.seqNo, images);
      DataKeepsSound(c, s, f.seqNo, f.payload, images);
      DataIsReceive(c, s, f.seqNo, f.payload);
      ReceiveKeepsStep(c.w, base, replies, f.seqNo);
      StepHasWindow(c.w, base, replies);
      WhatReceiveDoes(c.w, f.seqNo);
      if Complete(c.w) {
        CompleteTakesNothing(c, s, f.seqNo, f.payload);
      }
      var o := Data(c, s, f.seqNo, f.payload);
      c, s, replies := o.ctx, o.store, replies + Emitted(o.reply);
    }

    /** The device handles some of the frames, in their order on the bus; any may be lost. */
    method Handle(ghost base: nat, all: bool)
      requires Valid(base)
      modifies this`c, this`s, this`frames, this`replies
      ensures Valid(base) && Left() <= old(Left()) && Fixed() == old(Fixed())
      ensures all ==> frames == []
      ensures old(Complete(c.w)) ==> c == old(c) && s == old(s) && replies == old(replies)
    {
      hide InStep, Potential, Sound, Batch, FrameOf;
      var more: bool := *;
      while (all || more) && frames != []
        invariant Valid(base) && Left() <= old(Left()) && Fixed() == old(Fixed())
        invariant old(Complete(c.w)) ==> c == old(c) && s == old(s) && replies == old(replies)
        decreases |frames|
      {
        var f, lost: bool := frames[0], *;
        BatchTail(image, c.w.total, frames);
        frames := frames[1..];
        if !lost {
          Deliver(f, base);
        }
        more := *;
      }
    }

    /** `recv_reply` during the session: the next reply, unless the deadline passes first. */
    method Next(ghost base: nat) returns (r: Option<Reply>)
      requires Valid(base) && base < c.w.total
      modifies this`c, this`s, this`frames, this`replies
      ensures Left() <= old(Left()) && (r.Some? ==> Left() < old(Left())) && Fixed() == old(Fixed())
      ensures match r
        case None => Valid(base)
        case Some(Nak(n, code)) => code == ERR_GAP && base <= n && Valid(n)
        case Some(Ack(n, _)) => n >= WindowEnd(base, c.w.total) && base <= n && Valid(n)
        case _ => false
    {
      hide InStep, Potential, Sound, Batch;
      Handle(base, false);
      var late: bool := *;
      if late || replies == [] {
        return None;
      }
      TakenReply(c.w, base, replies);
      r := Some(replies[0]);
      replies := replies[1..];
    }
  }

  lemma ImageIsSized(c: Ctx, s: Store, images: Images)
    requires Sound(c, s, images) && c.state == P.RECEIVING
    ensures |images(c.headerCrc, c.size)| == c.size && GoodSize(c.size) && c.w.total == Chunks(c.size) && GoodWindow(c.w, c.w.total) && c.slot <= J.SLOT_B
  {
  }

  lemma StepHasWindow(w: Receiver, base: nat, replies: seq<Reply>)
    requires InStep(w, base, replies)
    ensures GoodWindow(w, w.total) && w.total < NO_NAK
  {
  }

  lemma CompleteTakesNothing(c: Ctx, s: Store, seqNo: u16, payload: seq<byte>)
    requires c.state == P.RECEIVING && GoodWindow(c.w, c.w.total) && Complete(c.w) && seqNo < c.w.total && |payload| == CHUNK
    ensures Data(c, s, seqNo, payload) == Outcome(c, s, NoReply)
  {
  }

  function Numbers(from: nat, to: nat): seq<nat>
    requires from <= to
  {
    seq(to - from, i => from + i)
  }

  lemma NumbersSnoc(from: nat, to: nat)
    requires from <= to
    ensures Numbers(from, to + 1) == Numbers(from, to) + [to]
  {
  }

  function Sequence(frames: seq<Frame>): seq<nat> {
    seq(|frames|, i requires 0 <= i < |frames| => frames[i].seqNo)
  }

  lemma SequenceSnoc(frames: seq<Frame>, f: Frame)
    ensures Sequence(frames + [f]) == Sequence(frames) + [f.seqNo]
  {
  }

  /** What `send_window` may put on the bus: frames of the window, all of them in order if
      nothing is to go wrong. */
  ghost predicate Sent(image: seq<byte>, from: nat, at: nat, to: nat, sent: seq<Frame>, clean: bool)
    requires from <= at
  {
    Batch(image, from, to, sent) && (clean ==> Sequence(sent) == Numbers(from, at))
  }

  lemma SentNone(image: seq<byte>, from: nat, to: nat, clean: bool)
    ensures Sent(image, from, from, to, [], clean)
  {
  }

  lemma SentMore(image: seq<byte>, from: nat, k: u16, to: nat, sent: seq<Frame>, clean: bool, f: Frame)
    requires from <= k < to && Sent(image, from, k, to, sent, clean) && FrameOf(image, f) && from <= f.seqNo < to
    ensures f.seqNo == k || !clean ==> Sent(image, from, k + 1, to, sent + [f], clean)
    ensures !clean ==> Sent(image, from, k + 1, to, sent, clean) && Sent(image, from, k, to, sent + [f], clean)
  {
    hide FrameOf;
    BatchSnoc(image, from, to, sent, f);
    SequenceSnoc(sent, f);
    NumbersSnoc(from, k);
  }

  /** `send_window`, with the faults that the sender can be told to add; it may be cancelled
      before any frame. */
  method SendWindow(link: Link, base: nat, drop: bool, double: bool, swap: bool) returns (end: nat, cancelled: bool, ghost sent: seq<Frame>)
    requires link.Valid(base) && base < link.c.w.total
    modifies link`frames
    ensures link.Valid(base)
    ensures end == WindowEnd(base, link.c.w.total) && base < end <= link.c.w.total
    ensures link.frames == old(link.frames) + sent && Batch(link.image, base, end, sent)
    ensures !drop && !double && !swap && !cancelled ==> Sequence(sent) == Numbers(base, end)
  {
    hide InStep, Sound, Batch, FrameOf, Sent;
    var total := link.c.w.total;
    ChunksStartInside(link.c, link.s, link.images);
    NothingBetween(base, total, total);
    end, cancelled, sent := Min((base / WINDOW + 1) * WINDOW, total), false, [];
    ghost var before, clean := link.frames, !drop && !double && !swap;
    var pending: Option<Frame> := None;
    SentNone(link.image, base, end, clean);
    var k := base;
    while k < end && !cancelled
      invariant base <= k <= end && link.frames == before + sent
      invariant Sent(link.image, base, k, end, sent, clean)
      invariant pending.Some? ==> swap && FrameOf(link.image, pending.value) && base <= pending.value.seqNo < end
      decreases end - k, !cancelled
    {
      cancelled := *;
      if !cancelled {
        var frame := SenderFrame(link.original, k, link.corrupt);
        FaultIsInTheImage(link.original, k, link.corrupt);
        FrameOfSelf(link.image, k);
        ghost var sent' := sent;
        pending, sent' := SendChunk(link, frame, pending, drop, double, swap, base, k, end, sent);
        sent := sent';
        k := k + 1;
      }
    }
    if pending.Some? && !cancelled {
      if clean {
        assert false;
      }
      SentLast(link.image, base, k, end, sent, clean, pending.value);
      link.frames := link.frames + [pending.value];
      sent := sent + [pending.value];
    }
    SentMeans(link.image, base, k, end, sent, clean);
    assert link.frames == before + sent;
    BatchesJoin(link.image, base, end, total, before, sent);
  }

  lemma FrameOfSelf(image: seq<byte>, k: u16)
    requires CHUNK * k <= |image|
    ensures FrameOf(image, DataFrame(image, k))
  {
  }

  lemma SentMeans(image: seq<byte>, from: nat, at: nat, to: nat, sent: seq<Frame>, clean: bool)
    requires from <= at && Sent(image, from, at, to, sent, clean)
    ensures Batch(image, from, to, sent) && (clean ==> Sequence(sent) == Numbers(from, at))
  {
  }

  lemma SentLast(image: seq<byte>, from: nat, at: nat, to: nat, sent: seq<Frame>, clean: bool, f: Frame)
    requires from <= at && Sent(image, from, at, to, sent, clean) && !clean && FrameOf(image, f) && from <= f.seqNo < to
    ensures Sent(image, from, at, to, sent + [f], clean)
  {
    hide FrameOf;
    BatchSnoc(image, from, to, sent, f);
  }

  /** One turn of the loop: the frame is dropped, sent behind its successor, sent, or sent
      twice. */
  method SendChunk(link: Link, frame: Frame, pending: Option<Frame>, drop: bool, double: bool, swap: bool,
                   ghost base: nat, ghost k: u16, ghost end: nat, ghost sent: seq<Frame>)
    returns (pending': Option<Frame>, ghost sent': seq<Frame>)
    requires base <= k < end && frame.seqNo == k && FrameOf(link.image, frame)
    requires Sent(link.image, base, k, end, sent, !drop && !double && !swap)
    requires pending.Some? ==> swap && FrameOf(link.image, pending.value) && base <= pending.value.seqNo < end
    modifies link`frames
    ensures |sent'| >= |sent| && sent'[..|sent|] == sent && link.frames == old(link.frames) + sent'[|sent|..]
    ensures Sent(link.image, base, k + 1, end, sent', !drop && !double && !swap)
    ensures pending'.Some? ==> swap && FrameOf(link.image, pending'.value) && base <= pending'.value.seqNo < end
  {
    hide FrameOf, Sent;
    ghost var clean := !drop && !double && !swap;
    pending', sent' := pending, sent;
    SentMore(link.image, base, k, end, sent, clean, frame);
    var chance: bool := *;
    if drop && chance {
      return;
    }
    if pending.Some? {
      // the previous frame goes out after this one
      SentLast(link.image, base, k + 1, end, sent + [frame], clean, pending.value);
      link.frames := link.frames + [frame] + [pending.value];
      sent' := sent + [frame] + [pending.value];
      pending' := None;
      return;
    }
    chance := *;
    if swap && chance {
      pending' := Some(frame);
      return;
    }
    link.frames := link.frames + [frame];
    sent' := sent + [frame];
    chance := *;
    if double && chance {
      SentLast(link.image, base, k + 1, end, sent', clean, frame);
      link.frames := link.frames + [frame];
      sent' := sent' + [frame];
    }
  }

  lemma ChunksStartInside(c: Ctx, s: Store, images: Images)
    requires Sound(c, s, images) && c.state == P.RECEIVING
    ensures forall k: nat :: k < c.w.total ==> CHUNK * k < |images(c.headerCrc, c.size)|
  {
    forall k: nat | k < c.w.total
      ensures CHUNK * k < |images(c.headerCrc, c.size)|
    {
      ChunkArithmetic(c.size, k);
    }
  }

  // ----- the loop of `transfer` -----

  datatype Ending = AllSent | Stopped | Cancelled | GaveUp

  /** The loop of `transfer`, from the ACK of START on. It ends, after a number of rounds that
      the replies still to come and the budget of timeouts bound. Unless it is stopped or
      cancelled, or gives up after too many timeouts without progress, the device is then
      complete and no reply is left on the way. */
  method TransferLoop(link: Link, start: nat, stopAfter: Option<nat>, drop: bool, double: bool, swap: bool)
    returns (ending: Ending, stalled: nat, ghost rounds: nat, ghost at: nat)
    requires link.Valid(start)
    modifies link`c, link`s, link`frames, link`replies
    ensures link.Fixed() == old(link.Fixed()) && link.Valid(at)
    ensures ending == AllSent ==> at == link.c.w.total && Complete(link.c.w) && link.replies == []
    ensures ending == Stopped ==> stopAfter.Some?
    ensures ending == GaveUp ==> stalled == 11
    ensures rounds <= (old(link.Left()) + 1) * 11
  {
    hide InStep, Potential, WindowEnd, Sound, Batch;
    var base: nat, sent: nat := start, 0;
    rounds, stalled := 0, 0;
    LeftIsNatural(link.c.w, base, link.replies);
    while base < link.c.w.total
      invariant link.Valid(base) && stalled <= MAX_RETRIES && base <= link.c.w.total && link.Fixed() == old(link.Fixed())
      invariant rounds + link.Left() * (MAX_RETRIES + 1) + (MAX_RETRIES - stalled) <= old(link.Left()) * (MAX_RETRIES + 1) + MAX_RETRIES
      invariant 0 <= link.Left()
      decreases link.Left(), MAX_RETRIES - stalled
    {
      if stopAfter.Some? && sent >= stopAfter.value {
        return Stopped, stalled, rounds, base;
      }
      ghost var left := link.Left();
      rounds := rounds + 1;
      var end, cancelled, batch := SendWindow(link, base, drop, double, swap);
      if cancelled {
        return Cancelled, stalled, rounds, base;
      }
      sent := sent + (end - base);
      var waiting := true;
      ghost var stalledBefore := stalled;
      while waiting
        invariant link.Valid(base) && base <= link.c.w.total && stalled <= MAX_RETRIES && 0 <= link.Left() <= left && link.Fixed() == old(link.Fixed())
        invariant waiting ==> base < link.c.w.total && end == WindowEnd(base, link.c.w.total) && stalled == stalledBefore
        invariant !waiting ==> link.Left() < left || stalled == stalledBefore + 1
        decreases link.Left(), waiting
      {
        cancelled := *;
        if cancelled {
          return Cancelled, stalled, rounds, base;
        }
        var r := link.Next(base);
        match r {
          case None =>
            stalled := stalled + 1;
            LeftIsNatural(link.c.w, base, link.replies);
            if stalled > MAX_RETRIES {
              return GaveUp, stalled, rounds, base;
            }
            waiting := false;
          case Some(Nak(n, code)) =>
            if n > base {
              stalled := 0;
            }
            base := n;
            waiting := false;
          case Some(Ack(n, code)) =>
            if n >= end {
              base := n;
              stalled := 0;
              waiting := false;
            }
        }
        LeftIsNatural(link.c.w, base, link.replies);
      }
    }
    AtTheTotal(link.c.w, base, link.replies);
    ending, at := AllSent, base;
  }

  // ----- a whole transfer -----

  datatype Result = Rejected(code: byte) | Ended(how: Ending) | NoVerdict | Judged(code: byte, detail: u32)

  function HeaderCrc(image: seq<byte>): u32
    requires |image| >= SIGNED_PREFIX
  {
    Le32(Crc32.CrcBytes(image[..Min(HEADER_SIZE, |image|)]))
  }

  function HeaderVersion(image: seq<byte>): u32
    requires |image| >= SIGNED_PREFIX
  {
    0x1_0000 * image[12] as int + 0x100 * image[13] as int + image[14] as int
  }

  lemma StartGivesSession(c: Ctx, s: Store, flags: byte, slot: byte, headerCrc: u32, images: Images, image: seq<byte>)
    requires |s.slotA| == |s.slotB| == SLOT_SIZE && c.haveA && images(headerCrc, c.size) == image
    requires Sound(StartB(c, s, flags, slot, headerCrc).ctx, StartB(c, s, flags, slot, headerCrc).store, images)
    ensures var o := StartB(c, s, flags, slot, headerCrc);
      if o.reply.Nak? then o.ctx.state == P.IDLE && o.store == s
      else
        && o.reply.Ack? && o.ctx.state == P.RECEIVING && o.ctx.slot == slot && o.ctx.size == c.size && o.ctx.headerCrc == headerCrc
        && o.ctx.w.next == o.reply.seqNo && InStep(o.ctx.w, o.reply.seqNo, []) && o.store.journal == s.journal
        && Potential(o.ctx.w, []) == 2 * (o.ctx.w.total - o.reply.seqNo) + 1
  {
    hide RunningVersion;
    if c.haveA && !StartB(c, s, flags, slot, headerCrc).reply.Nak? {
      ChunkArithmetic(c.size, 0);
    }
  }

  lemma VerdictOnTheImage(c: Ctx, s: Store, check: Checker, images: Images)
    requires Sound(c, s, images) && c.state == P.RECEIVING && Complete(c.w)
    ensures var o := Finish(c, s, check);
      && SlotOf(o.store, c.slot)[..c.size] == images(c.headerCrc, c.size)
      && o.reply.Verdict? && o.reply.code != ERR_INCOMPLETE && o.reply.code == Judge(c, s, check).0
      && o.store.journal == (if o.reply.code == OK then Register(s.journal, Installed(s, c.slot)) else s.journal)
      && |o.store.slotA| == |o.store.slotB| == SLOT_SIZE && SlotOf(o.store, c.slot) == SlotOf(s, c.slot) && o.ctx == c.(state := o.ctx.state)
      && Judge(c, o.store, check) == Judge(c, s, check)
  {
    FinishSeesTheImage(c, s, images);
  }

  /** FINISH is answered INCOMPLETE exactly when the device is not complete. */
  lemma FinishIsIncompleteExactly(c: Ctx, s: Store, check: Checker)
    requires |s.slotA| == |s.slotB| == SLOT_SIZE && c.state == P.RECEIVING
    ensures var reply := Finish(c, s, check).reply; reply.Verdict? && (reply.code == ERR_INCOMPLETE <==> !Complete(c.w))
  {
  }

  /** `transfer`. Whatever the bus does to the data frames: a verdict is never INCOMPLETE, it is
      the device's judgement of a slot that holds exactly what the sender sent. With OK that slot
      is pending, unless the journal's numbers are used up: then the journal stays as it is. */
  method TransferImage(link: Link, slot: byte, force: bool, stopAfter: Option<nat>, drop: bool, double: bool, swap: bool)
    returns (result: Result, ghost rounds: nat)
    requires link.frames == [] && link.replies == [] && SIGNED_PREFIX <= |link.original| < 0x1_0000_0000
    requires |link.s.slotA| == |link.s.slotB| == SLOT_SIZE
    requires RightSizes(link.images) && ClaimHolds(link.s, link.images)
    requires link.images(HeaderCrc(link.original), |link.original|) == link.image
    modifies link
    ensures |link.s.slotA| == |link.s.slotB| == SLOT_SIZE
    ensures result.Rejected? ==> link.s == old(link.s)
    ensures result.Judged? ==>
      && slot <= J.SLOT_B && |link.image| <= SLOT_SIZE
      && SlotOf(link.s, slot)[..|link.image|] == link.image
      && result.code != ERR_INCOMPLETE && result.code == Judge(link.c, link.s, link.check).0 && link.c.slot == slot
      && link.s.journal == if result.code == OK then Register(old(link.s.journal), old(link.s.journal).(pending := slot, attempts := 0, confirmed := 0))
                           else old(link.s.journal)
    ensures result.Judged? && result.code == OK && old(link.s.journal).number < 0xFFFF_FFFF ==>
      link.s.journal.pending == slot && link.s.journal.attempts == 0
    ensures rounds <= 11 * (2 * ((|link.image| + 5) / 6) + 2)
  {
    hide InStep, Potential, Sound, Batch, StartB, Finish, Judge, ClaimHolds, HeaderCrc, Crc32.CrcBytes;
    rounds := 0;
    var flags: byte, crc := if force then 1 else 0, HeaderCrc(link.original);
    var c := StartA(link.c, |link.original|, HeaderVersion(link.original));
    StartKeepsSound(c, link.s, flags, slot, crc, link.images);
    StartGivesSession(c, link.s, flags, slot, crc, link.images, link.image);
    var o := StartB(c, link.s, flags, slot, crc);
    link.c, link.s := o.ctx, o.store;
    if o.reply.Nak? {
      return Result.Rejected(o.reply.code), 0;
    }
    SoundBounds(link.c, link.s, link.images);
    BatchNone(link.image, link.c.w.total);
    var ending, stalled;
    ghost var at;
    ending, stalled, rounds, at := TransferLoop(link, o.reply.seqNo, stopAfter, drop, double, swap);
    RoundsBound(link.image, link.c.w.total, o.reply.seqNo, rounds);
    SoundBounds(link.c, link.s, link.images);
    if ending != AllSent {
      return Ended(ending), rounds;
    }
    link.Handle(link.c.w.total, true);
    SoundBounds(link.c, link.s, link.images);
    ImageIsSized(link.c, link.s, link.images);
    VerdictOnTheImage(link.c, link.s, link.check, link.images);
    var v := Finish(link.c, link.s, link.check);
    JudgeIgnoresState(link.c, v.ctx, v.store, link.check);
    link.c, link.s := v.ctx, v.store;
    var late: bool := *;
    if late {
      return NoVerdict, rounds;
    }
    result := Judged(v.reply.code, v.reply.detail);
  }

  lemma JudgeIgnoresState(c: Ctx, c': Ctx, s: Store, check: Checker)
    requires |s.slotA| == |s.slotB| == SLOT_SIZE && c' == c.(state := c'.state)
    ensures Judge(c', s, check) == Judge(c, s, check)
  {
  }

  lemma SoundBounds(c: Ctx, s: Store, images: Images)
    requires Sound(c, s, images) && c.state == P.RECEIVING
    ensures c.w.total == Chunks(c.size) && GoodSize(c.size) && |s.slotA| == |s.slotB| == SLOT_SIZE
  {
  }

  lemma RoundsBound(image: seq<byte>, total: nat, start: nat, rounds: nat)
    requires total == (|image| + CHUNK - 1) / CHUNK
    requires rounds <= (2 * (total - start) + 1 + 1) * (MAX_RETRIES + 1)
    ensures rounds <= 11 * (2 * ((|image| + 5) / 6) + 2)
  {
  }

  // ----- a corrupted chunk -----

  /** The original is in order: the header gives its size and the CRC of its body. */
  predicate WellFormed(image: seq<byte>) {
    && HEADER_SIZE < |image| <= SLOT_SIZE
    && |image| == HEADER_SIZE + Le32(image[8..12])
    && image[20..24] == Crc32.CrcBytes(image[HEADER_SIZE..])
  }

  /** A corrupted chunk of the body is caught, wherever it is: FINISH finds the CRC wrong if there
      was nothing wrong with the header, and in no case is the image judged good. */
  lemma CorruptChunkIsCaught(c: Ctx, s: Store, image: seq<byte>, k: nat, verify: Verifier)
    requires |s.slotA| == |s.slotB| == SLOT_SIZE && WellFormed(image) && HEADER_SIZE <= CHUNK * k < |image|
    requires SlotOf(s, c.slot)[..|image|] == Corrupted(image, Some(k))
    ensures Judge(c, s, Validation(verify)).0 != OK
    ensures forall was: seq<byte> :: |was| == SLOT_SIZE && was[..|image|] == image && Validate(was, c.slot, verify) == ImageOk ==>
      Judge(c, s, Validation(verify)).0 == MapResult(BadCrc)
  {
    hide Crc32.CrcBytes, Validate;
    var bytes, sent := SlotOf(s, c.slot), Corrupted(image, Some(k));
    BodyCrcChanges(image, k);
    SameHeader(bytes[..|image|], image);
    SameHeader(bytes, bytes[..|image|]);
    assert bytes[HEADER_SIZE..|image|] == sent[HEADER_SIZE..];
    WrongBody(bytes, |image| - HEADER_SIZE, c.slot, verify);
    forall was: seq<byte> | |was| == SLOT_SIZE && was[..|image|] == image && Validate(was, c.slot, verify) == ImageOk
      ensures Judge(c, s, Validation(verify)).0 == MapResult(BadCrc)
    {
      SameHeader(was, image);
      OnlyTheCrcIsWrong(was, bytes, |image| - HEADER_SIZE, c.slot, verify);
    }
  }

  lemma WrongBody(bytes: seq<byte>, size: nat, slot: byte, verify: Verifier)
    requires |bytes| == SLOT_SIZE && size == BodySize(bytes) <= BODY_MAX && Crc32.CrcBytes(bytes[HEADER_SIZE..HEADER_SIZE + size]) != bytes[20..24]
    ensures Validate(bytes, slot, verify) != ImageOk
  {
    hide Crc32.CrcBytes, Sha512Standard.Digest;
  }

  lemma OnlyTheCrcIsWrong(was: seq<byte>, bytes: seq<byte>, size: nat, slot: byte, verify: Verifier)
    requires |was| == |bytes| == SLOT_SIZE && size == BodySize(bytes) <= BODY_MAX && Crc32.CrcBytes(bytes[HEADER_SIZE..HEADER_SIZE + size]) != bytes[20..24]
    requires Validate(was, slot, verify) == ImageOk && SameHeaderFields(was, bytes)
    ensures Validate(bytes, slot, verify) == BadCrc
  {
    hide Crc32.CrcBytes, Sha512Standard.Digest;
  }

  /** The header fields that are checked before the CRC, and the CRC. */
  predicate SameHeaderFields(a: seq<byte>, b: seq<byte>)
    requires HEADER_SIZE <= |a| && HEADER_SIZE <= |b|
  {
    && a[..4] == b[..4] && a[4..6] == b[4..6] && a[6..8] == b[6..8] && a[8..12] == b[8..12]
    && a[16] == b[16] && a[20..24] == b[20..24] && a[24..28] == b[24..28]
  }

  lemma SameHeader(a: seq<byte>, b: seq<byte>)
    requires HEADER_SIZE <= |a| && HEADER_SIZE <= |b| && a[..HEADER_SIZE] == b[..HEADER_SIZE]
    ensures SameHeaderFields(a, b)
  {
    var x, y := a[..HEADER_SIZE], b[..HEADER_SIZE];
    assert a[..4] == x[..4] && a[4..6] == x[4..6] && a[6..8] == x[6..8] && a[8..12] == x[8..12];
    assert b[..4] == y[..4] && b[4..6] == y[4..6] && b[6..8] == y[6..8] && b[8..12] == y[8..12];
    assert a[16] == x[16] && b[16] == y[16];
    assert a[20..24] == x[20..24] && a[24..28] == x[24..28] && b[20..24] == y[20..24] && b[24..28] == y[24..28];
  }

  lemma BodyCrcChanges(image: seq<byte>, k: nat)
    requires HEADER_SIZE <= CHUNK * k < |image|
    ensures var sent := Corrupted(image, Some(k));
      sent[..HEADER_SIZE] == image[..HEADER_SIZE] && Crc32.CrcBytes(sent[HEADER_SIZE..]) != Crc32.CrcBytes(image[HEADER_SIZE..])
  {
    hide Crc32.CrcBytes, Crc32.Crc;
    var sent, at := Corrupted(image, Some(k)), CHUNK * k - HEADER_SIZE;
    var body, body' := image[HEADER_SIZE..], sent[HEADER_SIZE..];
    assert body'[at] != body[at];
    Crc32.BurstDetected(body, body', at);
    if Crc32.CrcBytes(body') == Crc32.CrcBytes(body) {
      Crc32.CrcBytesTell(body', body);
    }
  }
}

/** Runs that the code can go through and that break what a reader of the documents expects:
    each starts from a device as it leaves the factory. */
module Witnesses {
  import opened Bytes
  import opened Options
  import opened Stores
  import opened Image
  import opened Transfer
  import opened TransferProofs
  import opened Boot
  import opened Systems
  import opened Trials
  import opened Devices
  import FlashMemory
  import Session
  import J = Journal
  import P = Progress

  /** The node that a run has reached. */
  function At(nodes: seq<Node>): Node
    requires nodes != []
  {
    nodes[|nodes| - 1]
  }

  /** A run with genuine frames, no cut in one of the gaps, and STARTs that obey the rule. */
  ghost predicate GoodRun(nodes: seq<Node>, history: seq<Happening>, check: Checker, images: Images) {
    && Run(nodes, history, check) && AllSpareActive(nodes, history)
    && forall i :: 0 <= i < |history| ==> GenuineEvent(nodes[i], history[i].event, images) && OutsideTheGaps(nodes[i], history[i].event, nodes[i + 1], check)
  }

  /** One more event at the end of any run. */
  lemma Extend(nodes: seq<Node>, history: seq<Happening>, check: Checker, e: Event, n: Node)
    requires nodes != [] && Run(nodes, history, check) && Step(At(nodes), e, n, check, false)
    ensures Run(nodes + [n], history + [Happening(e, false)], check)
  {
    hide Step;
    var nodes', history' := nodes + [n], history + [Happening(e, false)];
    forall k | 0 <= k < |history'|
      ensures Step(nodes'[k], history'[k].event, nodes'[k + 1], check, history'[k].full)
    {
      if k < |history| {
        assert Step(nodes[k], history[k].event, nodes[k + 1], check, history[k].full);
      }
    }
  }

  lemma Stays(n: Node, check: Checker, images: Images)
    ensures GoodRun([n], [], check, images)
  {
  }

  /** One more event that is not cut at the front of a run. */
  lemma Prepend(n: Node, e: Event, nodes: seq<Node>, history: seq<Happening>, check: Checker, images: Images)
    requires nodes != [] && GoodRun(nodes, history, check, images) && Step(n, e, nodes[0], check, false)
    requires GenuineEvent(n, e, images) && SparesActive(n, e) && (n.mode.Running? && nodes[0].mode.Off? ==> e == Reset)
    ensures GoodRun([n] + nodes, [Happening(e, false)] + history, check, images)
  {
    hide Step, GenuineEvent;
    var nodes', history' := [n] + nodes, [Happening(e, false)] + history;
    forall k | 0 <= k < |history'|
      ensures Step(nodes'[k], history'[k].event, nodes'[k + 1], check, history'[k].full)
      ensures GenuineEvent(nodes'[k], history'[k].event, images) && OutsideTheGaps(nodes'[k], history'[k].event, nodes'[k + 1], check)
      ensures SparesActive(nodes'[k], history'[k].event)
    {
      if k > 0 {
        assert Step(nodes[k - 1], history[k - 1].event, nodes[k - 1 + 1], check, history[k - 1].full);
      }
    }
  }

  /** One run after the other. */
  lemma {:induction false} Join(a: seq<Node>, ha: seq<Happening>, b: seq<Node>, hb: seq<Happening>, check: Checker, images: Images)
    requires GoodRun(a, ha, check, images) && b != [] && GoodRun(b, hb, check, images) && At(a) == b[0]
    ensures GoodRun(a + b[1..], ha + hb, check, images) && At(a + b[1..]) == At(b)
  {
    hide Step, GenuineEvent, OutsideTheGaps;
    var nodes, history := a + b[1..], ha + hb;
    forall k | 0 <= k < |history|
      ensures Step(nodes[k], history[k].event, nodes[k + 1], check, history[k].full)
      ensures GenuineEvent(nodes[k], history[k].event, images) && OutsideTheGaps(nodes[k], history[k].event, nodes[k + 1], check) && SparesActive(nodes[k], history[k].event)
    {
      if k < |ha| {
        assert Step(a[k], ha[k].event, a[k + 1], check, ha[k].full);
      } else {
        var j := k - |ha|;
        assert Step(b[j], hb[j].event, b[j + 1], check, hb[j].full);
      }
    }
  }

  /** One more event that is not cut at the end of a run. */
  lemma Append(nodes: seq<Node>, history: seq<Happening>, check: Checker, images: Images, e: Event, n: Node)
    requires GoodRun(nodes, history, check, images) && Step(At(nodes), e, n, check, false)
    requires GenuineEvent(At(nodes), e, images) && SparesActive(At(nodes), e) && (At(nodes).mode.Running? && n.mode.Off? ==> e == Reset)
    ensures GoodRun(nodes + [n], history + [Happening(e, false)], check, images)
  {
    hide Step, GenuineEvent;
    Stays(n, check, images);
    Prepend(At(nodes), e, [n], [], check, images);
    Join(nodes, history, [At(nodes)] + [n], [Happening(e, false)] + [], check, images);
    assert nodes + ([At(nodes)] + [n])[1..] == nodes + [n] && history + ([Happening(e, false)] + []) == history + [Happening(e, false)];
  }

  // ----- single steps -----

  lemma ActiveBoots(s: Store, check: Checker)
    requires Real(s) && s.journal.pending == J.SLOT_NONE && Valid(s, s.journal.active, check)
    ensures Step(Node(s, Off), PowerUp, Node(s, Running(Booted(s.journal.active))), check, false)
  {
    PowerUpIsStep(s, s, check, false);
  }

  function Counted(s: Store): Store
    requires s.journal.attempts < 0xFF && s.journal.number < 0xFFFF_FFFF
  {
    s.(journal := J.Next(s.journal, s.journal.(attempts := s.journal.attempts + 1, confirmed := 0)))
  }

  lemma PendingBoots(s: Store, check: Checker)
    requires Real(s) && s.journal.number < 0xFFFF_FFFF && s.journal.pending != J.SLOT_NONE && s.journal.attempts < MAX_ATTEMPTS
    requires Valid(s, s.journal.pending, check)
    ensures Step(Node(s, Off), PowerUp, Node(Counted(s), Running(Booted(s.journal.pending))), check, false)
  {
    PowerUpIsStep(s, Counted(s), check, false);
  }

  lemma NothingBoots(s: Store, check: Checker)
    requires Real(s) && s.journal.pending != J.SLOT_NONE && (s.journal.attempts >= MAX_ATTEMPTS || !Valid(s, s.journal.pending, check))
    requires !Valid(s, s.journal.active, check)
    ensures exists s' :: Step(Node(s, Off), PowerUp, Node(s', Safe), check, false)
  {
    var s' := s.(journal := Register(s.journal, Decide(s, check).write.value));
    PowerUpIsStep(s, s', check, false);
  }

  lemma Resets(s: Store, c: Ctx, check: Checker)
    requires Real(s)
    ensures Step(Node(s, Running(c)), Reset, Node(s, Off), check, false)
  {
  }

  /** A START into another slot than the running one erases it and opens a session. */
  lemma Begins(s: Store, c: Ctx, version: u32, flags: byte, slot: byte, headerCrc: u32, images: Images, check: Checker)
    requires Real(s) && RightSizes(images) && ClaimHolds(s, images)
    requires slot <= J.SLOT_B && slot != c.running
    requires version >= Version(SlotOf(s, c.running)) || Forced(flags)
    requires s.last.None? || s.last.value.state != P.RECEIVING || s.last.value.headerCrc != headerCrc
    ensures var o := StartB(StartA(c, SLOT_SIZE, version), s, flags, slot, headerCrc);
      && StartKindOf(StartA(c, SLOT_SIZE, version), s, flags, slot, headerCrc).Fresh?
      && Step(Node(s, Running(c)), Start(SLOT_SIZE, version, flags, slot, headerCrc), Node(o.store, Running(o.ctx)), check, false)
      && o.ctx.state == P.RECEIVING && o.ctx.slot == slot && o.ctx.size == SLOT_SIZE && o.ctx.headerCrc == headerCrc && o.ctx.running == c.running
      && o.ctx.flags == flags && Sound(o.ctx, o.store, images)
      && o.store.journal == s.journal && SlotOf(o.store, slot) == Blank(SLOT_SIZE)
      && (c.running <= J.SLOT_B ==> SlotOf(o.store, c.running) == SlotOf(s, c.running))
      && Real(o.store)
  {
    hide Matches, Version, Blank;
    var a := StartA(c, SLOT_SIZE, version);
    var o := StartB(a, s, flags, slot, headerCrc);
    StartKeepsSound(a, s, flags, slot, headerCrc, images);
    assert GoodSize(SLOT_SIZE);
    StartIsStep(c, s, SLOT_SIZE, version, flags, slot, headerCrc, o.ctx, o.store, true, check, false);
  }

  // ----- a whole image over the bus -----

  /** From any point of a transfer on, the rest of the chunks arrive in order. */
  lemma {:induction false} ChunksArrive(n: Node, check: Checker, images: Images) returns (nodes: seq<Node>, history: seq<Happening>)
    requires Real(n.store) && n.mode.Running?
    requires n.mode.ctx.state == P.RECEIVING && n.mode.ctx.running <= J.SLOT_B && Sound(n.mode.ctx, n.store, images)
    ensures nodes != [] && nodes[0] == n && GoodRun(nodes, history, check, images)
    ensures var n' := At(nodes);
      && n'.mode.Running? && n'.mode.ctx == n.mode.ctx.(w := n'.mode.ctx.w, held := n'.mode.ctx.held) && Complete(n'.mode.ctx.w)
      && Sound(n'.mode.ctx, n'.store, images) && Real(n'.store)
      && n'.store.journal == n.store.journal && SlotOf(n'.store, n.mode.ctx.running) == SlotOf(n.store, n.mode.ctx.running)
    decreases n.mode.ctx.w.total - Expected(n.mode.ctx.w)
  {
    hide Sound, Step, Receive, Data, GoodWindow, HoldsInSlot, Real, Session.DataFrame, Chunks, GoodRun, GenuineEvent;
    var c, s := n.mode.ctx, n.store;
    Session.ImageIsSized(c, s, images);
    Session.ExpectedIsSum(c.w);
    if Expected(c.w) == c.w.total {
      Stays(n, check, images);
      nodes, history := [n], [];
    } else {
      var k, f, n' := ChunkArrives(n, check, images);
      nodes, history := ChunksArrive(n', check, images);
      Prepend(n, DataFrame(k, f), nodes, history, check, images);
      nodes, history := [n] + nodes, [Happening(DataFrame(k, f), false)] + history;
    }
  }

  lemma ChunkArrives(n: Node, check: Checker, images: Images) returns (k: u16, payload: seq<byte>, n': Node)
    requires Real(n.store) && n.mode.Running?
    requires n.mode.ctx.state == P.RECEIVING && n.mode.ctx.running <= J.SLOT_B && Sound(n.mode.ctx, n.store, images)
    requires Expected(n.mode.ctx.w) < n.mode.ctx.w.total
    ensures Step(n, DataFrame(k, payload), n', check, false) && GenuineEvent(n, DataFrame(k, payload), images)
    ensures n'.mode.Running? && n'.mode.ctx == n.mode.ctx.(w := n'.mode.ctx.w, held := n'.mode.ctx.held)
    ensures Sound(n'.mode.ctx, n'.store, images) && Real(n'.store) && n'.store.journal == n.store.journal
    ensures SlotOf(n'.store, n.mode.ctx.running) == SlotOf(n.store, n.mode.ctx.running)
    ensures n'.mode.ctx.w.total == n.mode.ctx.w.total && Expected(n'.mode.ctx.w) == Expected(n.mode.ctx.w) + 1
  {
    hide Sound, Step, Receive, Data, GoodWindow, HoldsInSlot, Real, Session.DataFrame, Chunks, Genuine;
    var c, s := n.mode.ctx, n.store;
    Session.ImageIsSized(c, s, images);
    k := Expected(c.w);
    var image := images(c.headerCrc, c.size);
    ChunkArithmetic(c.size, k);
    TotalIsSmall(c.size);
    payload := Session.DataFrame(image, k).payload;
    Session.FrameIsGenuine(c, image, k, images);
    GenuineIsTaken(c, s, k, payload, images);
    DataKeepsSound(c, s, k, payload, images);
    HoldsMeans(c, s, k, payload);
    Session.DataIsReceive(c, s, k, payload);
    Session.WhatReceiveDoes(c.w, k);
    var o := Data(c, s, k, payload);
    n' := Node(o.store, Running(o.ctx));
    RealKept(s, o.store, o.ctx, images);
    DataIsStep(c, s, k, payload, o.ctx, o.store, true, check, false);
  }

  lemma HoldsMeans(c: Ctx, s: Store, seqNo: u16, payload: seq<byte>)
    requires |payload| == CHUNK && HoldsInSlot(c, s, seqNo, payload)
    ensures Accepts(c, seqNo) ==> c.w.next * CHUNK + |HeldAfter(c, seqNo, payload)| <= |SlotOf(s, c.slot)|
  {
  }

  lemma TotalIsSmall(size: u32)
    requires GoodSize(size)
    ensures Chunks(size) < NO_NAK
  {
  }

  lemma RealKept(s: Store, s': Store, c: Ctx, images: Images)
    requires Real(s) && Sound(c, s', images) && s'.journal == s.journal
    ensures Real(s') && |s'.slotA| == |s'.slotB| == SLOT_SIZE
  {
  }

  /** A whole image of slot size is sent to an idle device. */
  lemma ImageArrives(s: Store, c: Ctx, version: u32, flags: byte, slot: byte, headerCrc: u32, check: Checker, images: Images)
    returns (nodes: seq<Node>, history: seq<Happening>)
    requires Real(s) && RightSizes(images) && ClaimHolds(s, images)
    requires slot <= J.SLOT_B && slot != c.running && c.running <= J.SLOT_B
    requires version >= Version(SlotOf(s, c.running)) || Forced(flags)
    requires s.last.None? || s.last.value.state != P.RECEIVING || s.last.value.headerCrc != headerCrc
    requires slot != s.journal.active
    ensures nodes != [] && nodes[0] == Node(s, Running(c)) && GoodRun(nodes, history, check, images)
    ensures var n := At(nodes);
      && n.mode.Running? && n.mode.ctx.state == P.RECEIVING && n.mode.ctx.running == c.running && n.mode.ctx.slot == slot
      && n.mode.ctx.size == SLOT_SIZE && n.mode.ctx.flags == flags && n.mode.ctx.headerCrc == headerCrc && Complete(n.mode.ctx.w)
      && Sound(n.mode.ctx, n.store, images) && Real(n.store) && n.store.journal == s.journal
      && SlotOf(n.store, c.running) == SlotOf(s, c.running) && SlotOf(n.store, slot) == images(headerCrc, SLOT_SIZE)
  {
    hide Sound, Step, StartB, StartKindOf, GoodRun, Real, Version, Complete;
    RealSizes(s);
    Begins(s, c, version, flags, slot, headerCrc, images, check);
    var e, o := Start(SLOT_SIZE, version, flags, slot, headerCrc), StartB(StartA(c, SLOT_SIZE, version), s, flags, slot, headerCrc);
    nodes, history := ChunksArrive(Node(o.store, Running(o.ctx)), check, images);
    FinishSeesTheImage(At(nodes).mode.ctx, At(nodes).store, images);
    WholeSlot(At(nodes).store, slot);
    RealSizes(At(nodes).store);
    Prepend(Node(s, Running(c)), e, nodes, history, check, images);
    nodes, history := [Node(s, Running(c))] + nodes, [Happening(e, false)] + history;
  }

  lemma RealSizes(s: Store)
    requires Real(s)
    ensures |s.slotA| == |s.slotB| == SLOT_SIZE
  {
  }

  lemma WholeSlot(s: Store, slot: byte)
    requires Real(s)
    ensures SlotOf(s, slot)[..SLOT_SIZE] == SlotOf(s, slot)
  {
  }

  /** FINISH accepts an image that fills its slot. */
  lemma FinishAccepts(n: Node, check: Checker, images: Images) returns (n': Node)
    requires n.mode.Running? && Real(n.store) && n.store.journal.number < 0xFFFF_FFFF && Sound(n.mode.ctx, n.store, images)
    requires n.mode.ctx.state == P.RECEIVING && Complete(n.mode.ctx.w) && n.mode.ctx.size == SLOT_SIZE && n.mode.ctx.running <= J.SLOT_B
    requires check(SlotOf(n.store, n.mode.ctx.slot), n.mode.ctx.slot) == ImageOk && BodySize(SlotOf(n.store, n.mode.ctx.slot)) == BODY_MAX
    requires Version(SlotOf(n.store, n.mode.ctx.slot)) >= Version(SlotOf(n.store, n.mode.ctx.running))
    ensures Step(n, FinishFrame, n', check, false) && n'.mode.Running? && n'.mode.ctx.running == n.mode.ctx.running
    ensures n'.store.journal == J.Next(n.store.journal, n.store.journal.(pending := n.mode.ctx.slot, attempts := 0, confirmed := 0))
    ensures n'.store.slotA == n.store.slotA && n'.store.slotB == n.store.slotB && n'.store.last.Some? && n'.store.last.value.state == P.DONE
    ensures Real(n'.store) && ClaimHolds(n'.store, images)
  {
    hide BodySize, Version, Chunks, Matches, Part;
    var c, s := n.mode.ctx, n.store;
    var o := Finish(c, s, check);
    n' := Node(o.store, Running(o.ctx));
    FinishIsStep(c, s, o.ctx, o.store, true, check, false);
  }

  // ----- a device with an installed update -----

  /** Slot A holds an image of version 0.0.`patch`, everything else is erased. */
  function Factory(patch: byte): Store {
    Store(J.DefaultState, SampleImage(J.SLOT_A, patch), Blank(SLOT_SIZE), None)
  }

  /** The sender's images: number 1 has the version of the device's, number 2 is 0.0.0. */
  function SampleImages(patch: byte): Images {
    (headerCrc, size) => SampleOf(patch, headerCrc, size)
  }

  function SampleOf(patch: byte, headerCrc: u32, size: u32): (s: seq<byte>)
    ensures |s| == size
  {
    if size == SLOT_SIZE && headerCrc == 1 then SampleImage(J.SLOT_B, patch)
    else if size == SLOT_SIZE && headerCrc == 2 then SampleImage(J.SLOT_B, 0)
    else Blank(size)
  }

  function Accepting(): Checker {
    Validation((signature, message) => true)
  }

  lemma Samples(slot: byte, patch: byte)
    requires slot <= J.SLOT_B
    ensures Accepting()(SampleImage(slot, patch), slot) == ImageOk && RefusesErased(Accepting())
    ensures Version(SampleImage(slot, patch)) == patch && BodySize(SampleImage(slot, patch)) == BODY_MAX && SampleImage(slot, patch)[0] != FF
  {
    hide Validate, SampleImage;
    SampleIsValid(slot, patch, (signature, message) => true);
    ValidationRefusesErased((signature, message) => true);
  }

  lemma SampleSizes(patch: byte)
    ensures RightSizes(SampleImages(patch))
  {
    hide SampleOf;
    var images := SampleImages(patch);
    forall h: u32, z: u32
      ensures |images(h, z)| == z
    {
    }
  }

  /** From the factory to an update that FINISH has accepted. */
  lemma UpdateInstalled(patch: byte) returns (nodes: seq<Node>, history: seq<Happening>)
    ensures nodes != [] && nodes[0] == Node(Factory(patch), Off) && GoodRun(nodes, history, Accepting(), SampleImages(patch))
    ensures var n := At(nodes);
      && n.mode.Running? && n.mode.ctx.running == J.SLOT_A && Real(n.store)
      && n.store.journal == J.BootState(1, J.SLOT_A, J.SLOT_B, 0, 0)
      && n.store.slotA == SampleImage(J.SLOT_A, patch) && n.store.slotB == SampleImage(J.SLOT_B, patch)
      && n.store.last.Some? && n.store.last.value.state == P.DONE && ClaimHolds(n.store, SampleImages(patch))
  {
    hide SampleImage, GoodRun, Step, Sound, Version, BodySize, Accepting, Complete;
    var check, images := Accepting(), SampleImages(patch);
    Samples(J.SLOT_A, patch);
    Samples(J.SLOT_B, patch);
    SampleSizes(patch);
    var s := Factory(patch);
    ActiveBoots(s, check);
    nodes, history := ImageArrives(s, Booted(J.SLOT_A), patch, 0, J.SLOT_B, 1, check, images);
    var n := FinishAccepts(At(nodes), check, images);
    Append(nodes, history, check, images, FinishFrame, n);
    nodes, history := nodes + [n], history + [Happening(FinishFrame, false)];
    Prepend(Node(s, Off), PowerUp, nodes, history, check, images);
    nodes, history := [Node(s, Off)] + nodes, [Happening(PowerUp, false)] + history;
  }

  // ----- safe mode -----

  /** A trial boot that ends in a reset. */
  lemma TrialAndReset(nodes: seq<Node>, history: seq<Happening>, check: Checker, images: Images)
    returns (nodes': seq<Node>, history': seq<Happening>)
    requires nodes != [] && GoodRun(nodes, history, check, images) && At(nodes).mode.Off? && Real(At(nodes).store)
    requires At(nodes).store.journal.pending == J.SLOT_B && At(nodes).store.journal.attempts < MAX_ATTEMPTS
    requires At(nodes).store.journal.number < 0xFF && Valid(At(nodes).store, J.SLOT_B, check)
    ensures nodes' != [] && nodes'[0] == nodes[0] && GoodRun(nodes', history', check, images)
    ensures At(nodes') == Node(Counted(At(nodes).store), Off) && Real(At(nodes').store)
  {
    hide GoodRun, Step;
    var s := At(nodes).store;
    var n := Node(Counted(s), Running(Booted(J.SLOT_B)));
    PendingBoots(s, check);
    Append(nodes, history, check, images, PowerUp, n);
    Resets(Counted(s), Booted(J.SLOT_B), check);
    nodes', history' := nodes + [n], history + [Happening(PowerUp, false)];
    Append(nodes', history', check, images, Reset, Node(Counted(s), Off));
    nodes', history' := nodes' + [Node(Counted(s), Off)], history' + [Happening(Reset, false)];
  }

  /** From the factory to safe mode: an update is installed, its trials are not confirmed, and
      during the last of them a START into the active slot erases the only other image. */
  lemma SafeModeIsReachable() returns (nodes: seq<Node>, history: seq<Happening>)
    ensures nodes != [] && nodes[0] == Node(Factory(0), Off) && Inv(nodes[0], Accepting())
    ensures Run(nodes, history, Accepting()) && At(nodes).mode.Safe?
  {
    hide SampleImage, GoodRun, Step, Sound, Version, BodySize, Accepting, Matches;
    var check, images := Accepting(), SampleImages(0);
    Samples(J.SLOT_A, 0);
    Samples(J.SLOT_B, 0);
    SampleSizes(0);
    nodes, history := UpdateInstalled(0);
    var s := At(nodes).store;
    Resets(s, At(nodes).mode.ctx, check);
    Append(nodes, history, check, images, Reset, Node(s, Off));
    nodes, history := nodes + [Node(s, Off)], history + [Happening(Reset, false)];
    nodes, history := TrialAndReset(nodes, history, check, images);
    nodes, history := TrialAndReset(nodes, history, check, images);
    s := At(nodes).store;
    PendingBoots(s, check);
    var n := Node(Counted(s), Running(Booted(J.SLOT_B)));
    Append(nodes, history, check, images, PowerUp, n);
    nodes, history := nodes + [n], history + [Happening(PowerUp, false)];
    s := n.store;
    Begins(s, Booted(J.SLOT_B), 0, 1, J.SLOT_A, 2, images, check);
    var o := StartB(StartA(Booted(J.SLOT_B), SLOT_SIZE, 0), s, 1, J.SLOT_A, 2);
    var e := Start(SLOT_SIZE, 0, 1, J.SLOT_A, 2);
    GoodRunIsRun(nodes, history, check, images);
    Extend(nodes, history, check, e, Node(o.store, Running(o.ctx)));
    nodes, history := nodes + [Node(o.store, Running(o.ctx))], history + [Happening(e, false)];
    Resets(o.store, o.ctx, check);
    Extend(nodes, history, check, Reset, Node(o.store, Off));
    nodes, history := nodes + [Node(o.store, Off)], history + [Happening(Reset, false)];
    NothingBoots(o.store, check);
    var s' :| Step(Node(o.store, Off), PowerUp, Node(s', Safe), check, false);
    Extend(nodes, history, check, PowerUp, Node(s', Safe));
    nodes, history := nodes + [Node(s', Safe)], history + [Happening(PowerUp, false)];
  }

  // ----- the rule about STARTs is exact -----

  /** One more event at the front of any run. */
  lemma Precede(n: Node, e: Event, nodes: seq<Node>, history: seq<Happening>, check: Checker)
    requires nodes != [] && Run(nodes, history, check) && Step(n, e, nodes[0], check, false)
    ensures Run([n] + nodes, [Happening(e, false)] + history, check)
  {
    hide Step;
    var nodes', history' := [n] + nodes, [Happening(e, false)] + history;
    forall k | 0 <= k < |history'|
      ensures Step(nodes'[k], history'[k].event, nodes'[k + 1], check, history'[k].full)
    {
      if k > 0 {
        assert Step(nodes[k - 1], history[k - 1].event, nodes[k - 1 + 1], check, history[k - 1].full);
      }
    }
  }

  predicate OnlyPower(history: seq<Happening>) {
    forall k :: 0 <= k < |history| ==> history[k].event.PowerUp? || history[k].event.Reset?
  }

  /** With the active image gone and the pending one never confirmed, its trials run out and the
      device ends in safe mode, with nothing happening but resets. */
  lemma {:induction false} TrialsRunOut(s: Store, check: Checker) returns (nodes: seq<Node>, history: seq<Happening>)
    requires Real(s) && s.journal.pending != J.SLOT_NONE && !Valid(s, s.journal.active, check)
    requires s.journal.attempts < MAX_ATTEMPTS ==> s.journal.number + MAX_ATTEMPTS - s.journal.attempts <= 0xFFFF_FFFF
    ensures nodes != [] && nodes[0] == Node(s, Off) && Run(nodes, history, check) && OnlyPower(history) && At(nodes).mode.Safe?
    decreases MAX_ATTEMPTS - s.journal.attempts
  {
    hide Step;
    if s.journal.attempts >= MAX_ATTEMPTS || !Valid(s, s.journal.pending, check) {
      NothingBoots(s, check);
      var s' :| Step(Node(s, Off), PowerUp, Node(s', Safe), check, false);
      nodes, history := [Node(s', Safe)], [];
    } else {
      PendingBoots(s, check);
      Resets(Counted(s), Booted(s.journal.pending), check);
      nodes, history := TrialsRunOut(Counted(s), check);
      Precede(Node(Counted(s), Running(Booted(s.journal.pending))), Reset, nodes, history, check);
      nodes, history := [Node(Counted(s), Running(Booted(s.journal.pending)))] + nodes, [Happening(Reset, false)] + history;
    }
    Precede(Node(s, Off), PowerUp, nodes, history, check);
    nodes, history := [Node(s, Off)] + nodes, [Happening(PowerUp, false)] + history;
  }

  /** After a START that erased the active slot during a trial, whatever trials are left. */
  lemma EraseEndsInSafeMode(n: Node, e: Event, check: Checker) returns (nodes: seq<Node>, history: seq<Happening>)
    requires RefusesErased(check) && Erases(n, e, n.store.journal.active) && n.store.journal.pending != J.SLOT_NONE
    requires n.store.journal.number <= 0xFFFF_FFFF - MAX_ATTEMPTS
    ensures |history| > 0 && nodes != [] && nodes[0] == n && history[0].event == e && Run(nodes, history, check)
    ensures OnlyPower(history[1..]) && At(nodes).mode.Safe?
  {
    hide Step, StartKindOf, Started, RecordOf;
    var c := StartA(n.mode.ctx, e.size, e.version);
    var o := StartB(c, n.store, e.flags, e.slot, e.headerCrc);
    StartIsStep(n.mode.ctx, n.store, e.size, e.version, e.flags, e.slot, e.headerCrc, o.ctx, o.store, true, check, false);
    assert SlotOf(o.store, e.slot) == Blank(SLOT_SIZE);
    Resets(o.store, o.ctx, check);
    nodes, history := TrialsRunOut(o.store, check);
    Precede(Node(o.store, Running(o.ctx)), Reset, nodes, history, check);
    nodes, history := [Node(o.store, Running(o.ctx))] + nodes, [Happening(Reset, false)] + history;
    Precede(n, e, nodes, history, check);
    nodes, history := [n] + nodes, [Happening(e, false)] + history;
  }

  /** A run that begins with this event and whose further STARTs obey the rule. */
  ghost predicate RunAfter(n: Node, e: Event, nodes: seq<Node>, history: seq<Happening>, check: Checker) {
    && Run(nodes, history, check) && |history| > 0 && nodes[0] == n && history[0].event == e
    && forall k :: 0 < k < |history| ==> SparesActive(nodes[k], history[k].event)
  }

  ghost predicate RulesOutSafeMode(n: Node, e: Event, check: Checker) {
    forall nodes: seq<Node>, history: seq<Happening> :: RunAfter(n, e, nodes, history, check) ==> !At(nodes).mode.Safe?
  }

  /** A START that neither erases nor resumes into the active slot keeps what every step keeps. */
  lemma HarmlessStartKeeps(n: Node, e: Event, n': Node, check: Checker, full: bool)
    requires Inv(n, check) && e.Start? && Step(n, e, n', check, full)
    requires !Erases(n, e, n.store.journal.active) && !ResumesInto(n, e, n.store.journal.active)
    ensures Inv(n', check)
  {
    if SparesActive(n, e) {
      StepKeeps(n, e, n', check, full);
    } else {
      hide RunningVersion, Chunks, GoodSize;
    }
  }

  /** A START that goes on with a transfer to the slot. */
  predicate ResumesInto(n: Node, e: Event, slot: byte) {
    && Real(n.store) && e.Start? && n.mode.Running? && e.slot == slot
    && StartKindOf(StartA(n.mode.ctx, e.size, e.version), n.store, e.flags, slot, e.headerCrc).Resume?
  }

  lemma HarmlessStartIsSafe(n: Node, e: Event, check: Checker)
    requires Inv(n, check) && e.Start? && !Erases(n, e, n.store.journal.active) && !ResumesInto(n, e, n.store.journal.active)
    ensures RulesOutSafeMode(n, e, check)
  {
    hide Inv, Step, SparesActive, Erases, ResumesInto;
    forall nodes: seq<Node>, history: seq<Happening> | RunAfter(n, e, nodes, history, check)
      ensures !At(nodes).mode.Safe?
    {
      HarmlessStartKeeps(n, e, nodes[0 + 1], check, history[0].full);
      var rest, events := nodes[1..], history[1..];
      forall k | 0 <= k < |events|
        ensures Step(rest[k], events[k].event, rest[k + 1], check, events[k].full) && SparesActive(rest[k], events[k].event)
      {
        assert Step(nodes[k + 1], history[k + 1].event, nodes[k + 1 + 1], check, history[k + 1].full);
      }
      NeverSafeMode(rest, events, check, |rest| - 1);
      InvIsNotSafe(At(nodes), check);
    }
  }

  lemma InvIsNotSafe(n: Node, check: Checker)
    requires Inv(n, check)
    ensures !n.mode.Safe?
  {
  }

  /** The rule about STARTs is exact: a START that does not resume into the active slot keeps
      safe mode out of reach of every run that obeys the rule from then on, if and only if it
      does not erase the active slot. It can erase it during a trial only, and it makes no
      difference how many trials are left. */
  lemma StartRuleIsExact(n: Node, e: Event, check: Checker)
    requires Inv(n, check) && RefusesErased(check) && e.Start? && !ResumesInto(n, e, n.store.journal.active)
    requires n.store.journal.number <= 0xFFFF_FFFF - MAX_ATTEMPTS
    ensures RulesOutSafeMode(n, e, check) <==> !Erases(n, e, n.store.journal.active)
  {
    hide Step, SparesActive, StartKindOf;
    if Erases(n, e, n.store.journal.active) {
      ErasesInTrial(n, e, check);
      var nodes, history := EraseEndsInSafeMode(n, e, check);
      forall k | 0 < k < |history|
        ensures SparesActive(nodes[k], history[k].event)
      {
        PowerSpares(nodes[k], history[1..][k - 1].event);
      }
      assert RunAfter(n, e, nodes, history, check);
    } else {
      HarmlessStartIsSafe(n, e, check);
    }
  }

  lemma PowerSpares(n: Node, e: Event)
    requires e.PowerUp? || e.Reset?
    ensures SparesActive(n, e)
  {
  }

  lemma ErasesInTrial(n: Node, e: Event, check: Checker)
    requires Inv(n, check) && Erases(n, e, n.store.journal.active)
    ensures n.mode.ctx.running == n.store.journal.pending != J.SLOT_NONE
  {
    hide RunningVersion;
  }

  lemma GoodRunIsRun(nodes: seq<Node>, history: seq<Happening>, check: Checker, images: Images)
    requires GoodRun(nodes, history, check, images)
    ensures Run(nodes, history, check) && AllSpareActive(nodes, history)
  {
  }

  // ----- a record that lies -----

  /** From the factory to a false record: an image is received in full, and power fails while
      the START of another one has erased the slot but not yet written its record. Every step
      but that cut is a step of a run in which the claim holds. */
  lemma FalseRecordIsReachable() returns (nodes: seq<Node>, history: seq<Happening>)
    ensures nodes != [] && nodes[0] == Node(Factory(0), Off) && Claiming(nodes[0], SampleImages(0)) && RightSizes(SampleImages(0))
    ensures Run(nodes, history, Accepting()) && |history| > 0 && !history[|history| - 1].full
    ensures forall i :: 0 <= i < |history| ==> GenuineEvent(nodes[i], history[i].event, SampleImages(0))
    ensures forall i :: 0 <= i < |history| - 1 ==> OutsideTheGaps(nodes[i], history[i].event, nodes[i + 1], Accepting())
    ensures At(nodes).store.last.Some? && At(nodes).store.last.value.chunks > 0 && !ClaimHolds(At(nodes).store, SampleImages(0))
  {
    hide SampleImage, GoodRun, Step, Sound, Version, BodySize, Accepting, Complete, ClaimHolds;
    var check, images := Accepting(), SampleImages(0);
    Samples(J.SLOT_A, 0);
    Samples(J.SLOT_B, 0);
    SampleSizes(0);
    var s := Factory(0);
    NothingClaimed(s, images);
    ActiveBoots(s, check);
    nodes, history := ImageArrives(s, Booted(J.SLOT_A), 0, 0, J.SLOT_B, 1, check, images);
    Prepend(Node(s, Off), PowerUp, nodes, history, check, images);
    nodes, history := [Node(s, Off)] + nodes, [Happening(PowerUp, false)] + history;
    var n := At(nodes);
    var s' := WithSlot(n.store, J.SLOT_B, Blank(SLOT_SIZE));
    ErasingIsCut(n.store, n.mode.ctx, check, images);
    var e := Start(SLOT_SIZE, 0, 0, J.SLOT_B, 2);
    CutEnds(nodes, history, check, images, e, s');
    nodes, history := nodes + [Node(s', Off)], history + [Happening(e, false)];
  }

  lemma NothingClaimed(s: Store, images: Images)
    requires s.last.None?
    ensures ClaimHolds(s, images)
  {
  }

  lemma ErasingIsCut(s: Store, c: Ctx, check: Checker, images: Images)
    requires Real(s) && Sound(c, s, images) && c.state == P.RECEIVING && Complete(c.w) && c.slot == J.SLOT_B && c.running == J.SLOT_A
    requires c.headerCrc == 1 && c.size == SLOT_SIZE && Version(s.slotA) == 0 && images(1, SLOT_SIZE)[0] != FF
    ensures var s' := WithSlot(s, J.SLOT_B, Blank(SLOT_SIZE));
      && Step(Node(s, Running(c)), Start(SLOT_SIZE, 0, 0, J.SLOT_B, 2), Node(s', Off), check, false)
      && s'.last.Some? && s'.last.value.chunks > 0 && !ClaimHolds(s', images)
  {
    hide Version, Blank;
    assert |images(1, SLOT_SIZE)| == SLOT_SIZE;
    var s' := WithSlot(s, J.SLOT_B, Blank(SLOT_SIZE));
    assert Blank(SLOT_SIZE)[0] == FF;
    StartIsStep(c, s, SLOT_SIZE, 0, 0, J.SLOT_B, 2, c, s', false, check, false);
  }

  /** The run of a cut that may lie in a gap. */
  lemma CutEnds(nodes: seq<Node>, history: seq<Happening>, check: Checker, images: Images, e: Event, s': Store)
    requires nodes != [] && GoodRun(nodes, history, check, images) && Step(At(nodes), e, Node(s', Off), check, false) && !e.DataFrame?
    ensures var nodes', history' := nodes + [Node(s', Off)], history + [Happening(e, false)];
      && Run(nodes', history', check)
      && (forall i :: 0 <= i < |history'| ==> GenuineEvent(nodes'[i], history'[i].event, images))
      && forall i :: 0 <= i < |history'| - 1 ==> OutsideTheGaps(nodes'[i], history'[i].event, nodes'[i + 1], check)
  {
    hide Step, GenuineEvent, OutsideTheGaps;
    var nodes', history' := nodes + [Node(s', Off)], history + [Happening(e, false)];
    forall k | 0 <= k < |history'|
      ensures Step(nodes'[k], history'[k].event, nodes'[k + 1], check, history'[k].full)
      ensures GenuineEvent(nodes'[k], history'[k].event, images) && (k < |history| ==> OutsideTheGaps(nodes'[k], history'[k].event, nodes'[k + 1], check))
    {
      if k < |history| {
        assert Step(nodes[k], history[k].event, nodes[k + 1], check, history[k].full);
      } else {
        NotAFrame(nodes'[k], e, images);
      }
    }
  }

  lemma NotAFrame(n: Node, e: Event, images: Images)
    requires !e.DataFrame?
    ensures GenuineEvent(n, e, images)
  {
  }

  // ----- a trial boot that FINISH has not judged -----

  /** From the factory to the trial boot of an image that FINISH would have refused: START does
      not take back that the slot is pending, so a second image received there boots without a
      FINISH, although its version is lower than the active one's and nothing was forced. */
  lemma UnjudgedImageBoots() returns (nodes: seq<Node>, history: seq<Happening>, before: nat)
    ensures nodes != [] && nodes[0] == Node(Factory(1), Off) && Run(nodes, history, Accepting()) && before + 2 == |history|
    ensures AllSpareActive(nodes, history)
    ensures TrialBoot(nodes[before + 1], nodes[before + 2])
    ensures var n := nodes[before];
      && n.mode.Running? && n.mode.ctx.state == P.RECEIVING && Complete(n.mode.ctx.w) && |n.store.slotA| == |n.store.slotB| == SLOT_SIZE
      && SlotOf(nodes[before + 2].store, J.SLOT_B) == SlotOf(n.store, n.mode.ctx.slot)
      && Judge(n.mode.ctx, n.store, Accepting()).0 == ERR_VERSION_LOW
  {
    hide SampleImage, GoodRun, Step, Sound, Version, BodySize, Accepting, Complete, Matches;
    var check, images := Accepting(), SampleImages(1);
    Samples(J.SLOT_A, 1);
    Samples(J.SLOT_B, 1);
    Samples(J.SLOT_B, 0);
    SampleSizes(1);
    nodes, history := UpdateInstalled(1);
    var n := At(nodes);
    var more, then_ := ImageArrives(n.store, n.mode.ctx, 1, 0, J.SLOT_B, 2, check, images);
    Join(nodes, history, more, then_, check, images);
    nodes, history := nodes + more[1..], history + then_;
    var s, c := At(nodes).store, At(nodes).mode.ctx;
    before := |history|;
    Resets(s, c, check);
    Append(nodes, history, check, images, Reset, Node(s, Off));
    nodes, history := nodes + [Node(s, Off)], history + [Happening(Reset, false)];
    PendingBoots(s, check);
    var booted := Node(Counted(s), Running(Booted(J.SLOT_B)));
    Append(nodes, history, check, images, PowerUp, booted);
    nodes, history := nodes + [booted], history + [Happening(PowerUp, false)];
    GoodRunIsRun(nodes, history, check, images);
    VersionTooLow(s, c, check);
  }

  lemma VersionTooLow(s: Store, c: Ctx, check: Checker)
    requires Real(s) && c.slot == J.SLOT_B && c.running == J.SLOT_A && c.size == SLOT_SIZE && c.flags == 0
    requires check(s.slotB, J.SLOT_B) == ImageOk && BodySize(s.slotB) == BODY_MAX && Version(s.slotB) < Version(s.slotA)
    ensures Judge(c, s, check).0 == ERR_VERSION_LOW
  {
    hide Version, BodySize;
  }

  // ----- a full log that lies -----

  /** Record by record: a window of image 1 is received, image 1 is aborted, and from then on
      image 2 is started and aborted again and again. */
  function LogRecord(i: nat): P.Progress
    requires i < P.RECORDS
  {
    if i == 0 then P.Progress(1, 1, SLOT_SIZE, J.SLOT_B, P.RECEIVING, 0, 0)
    else if i <= 2 then P.Progress(i + 1, 1, SLOT_SIZE, J.SLOT_B, if i == 1 then P.RECEIVING else P.ABORTED, WINDOW, 0)
    else P.Progress(i + 1, 2, SLOT_SIZE, J.SLOT_B, if i % 2 == 1 then P.RECEIVING else P.ABORTED, 0, 0)
  }

  ghost predicate LogUpTo(m: seq<byte>, n: nat)
    requires n <= P.RECORDS
  {
    && |m| == FlashMemory.FLASH_SIZE && P.OnlyLogChanged(Blank(FlashMemory.FLASH_SIZE), m)
    && (forall i :: 0 <= i < n ==> P.RecordAt(m, i) == P.Encode(LogRecord(i)))
    && forall i :: n <= i < P.RECORDS ==> AllFF(P.RecordAt(m, i))
  }

  lemma {:induction false} LogFills(n: nat) returns (m: seq<byte>)
    requires n <= P.RECORDS
    ensures LogUpTo(m, n)
  {
    hide P.Encode, P.RecordAt, LogRecord;
    if n == 0 {
      m := Blank(FlashMemory.FLASH_SIZE);
      ErasedRecords();
    } else {
      var was := LogFills(n - 1);
      var rec := P.Encode(LogRecord(n - 1));
      m := Splice(was, P.RecordBase(n - 1), rec[..4 * 8]);
      P.RecordsAfterAppend(was, n - 1, rec, 8);
      assert Partial(rec, 8) == rec;
      InLogOnly(was, m, n - 1, rec);
    }
  }

  lemma InLogOnly(was: seq<byte>, m: seq<byte>, k: nat, rec: seq<byte>)
    requires |was| == FlashMemory.FLASH_SIZE && k < P.RECORDS && |rec| == P.RECORD && m == Splice(was, P.RecordBase(k), rec[..4 * 8])
    requires P.OnlyLogChanged(Blank(FlashMemory.FLASH_SIZE), was)
    ensures |m| == FlashMemory.FLASH_SIZE && P.OnlyLogChanged(Blank(FlashMemory.FLASH_SIZE), m)
  {
  }

  /** A full log as the writes of one device leave it, every place used and every number one
      more than the one before. Its last record speaks of image 2, of which nothing has been
      received, and is true; interrupted, the erase of the log can leave the one that speaks of
      a window of image 1, which the slot has lost. */
  lemma FullLogCanLie() returns (m: seq<byte>, m': seq<byte>)
    ensures |m| == |m'| == FlashMemory.FLASH_SIZE && P.Full(m) && ClaimHolds(View(m), SampleImages(0))
    ensures forall i :: 0 <= i < P.RECORDS ==> P.Entries(m)[i] == Some(LogRecord(i)) && LogRecord(i).number == i + 1
    ensures FlashMemory.TornErase(m, m', P.PROGRESS_SECTOR) && !ClaimHolds(View(m'), SampleImages(0))
  {
    hide SampleImage, P.Encode, P.Decode, FlashMemory.TornErase, P.OneLeft, ClaimHolds, View, P.RecordAt, LogRecord, P.Entries;
    m := LogFills(P.RECORDS);
    forall i | 0 <= i < P.RECORDS
      ensures P.Entries(m)[i] == Some(LogRecord(i)) && !AllFF(P.RecordAt(m, i)) && LogRecord(i).number == i + 1
    {
      RecordReads(m, i);
    }
    BlankSlot(m);
    ShowsLast(m, LogRecord(P.RECORDS - 1));
    LastIsTrue(View(m));
    P.EraseMayLeaveAny(m, 1);
    m' := P.OneLeft(m, 1);
    TornLogView(m, m');
    OldRecordLies(View(m'));
  }

  lemma RecordReads(m: seq<byte>, i: nat)
    requires |m| == FlashMemory.FLASH_SIZE && i < P.RECORDS && P.RecordAt(m, i) == P.Encode(LogRecord(i))
    ensures P.Entries(m)[i] == Some(LogRecord(i)) && !AllFF(P.RecordAt(m, i)) && LogRecord(i).number == i + 1
  {
    hide P.Encode, P.Decode, P.RecordAt;
    P.SlotShows(LogRecord(i));
    P.TornIsHarmless(LogRecord(i), 8);
    assert Partial(P.Encode(LogRecord(i)), 8) == P.Encode(LogRecord(i));
  }

  lemma LastIsTrue(s: Store)
    requires s.last == Some(LogRecord(P.RECORDS - 1)) && s.slotB == Blank(SLOT_SIZE)
    ensures ClaimHolds(s, SampleImages(0))
  {
    hide SampleImages;
    SampleSizes(0);
  }

  lemma ShowsLast(m: seq<byte>, p: P.Progress)
    requires |m| == FlashMemory.FLASH_SIZE && P.Entries(m)[P.RECORDS - 1] == Some(p)
    ensures View(m).last == Some(p)
  {
    hide J.Value, P.Entries;
  }

  lemma ErasedRecords()
    ensures forall k :: 0 <= k < P.RECORDS ==> AllFF(P.RecordAt(Blank(FlashMemory.FLASH_SIZE), k))
  {
  }

  lemma BlankSlot(m: seq<byte>)
    requires |m| == FlashMemory.FLASH_SIZE && P.OnlyLogChanged(Blank(FlashMemory.FLASH_SIZE), m)
    ensures View(m).slotB == Blank(SLOT_SIZE)
  {
    hide J.Value, P.LastRecord;
    assert SlotBytes(m, J.SLOT_B) == Blank(SLOT_SIZE);
  }

  lemma OldRecordLies(s: Store)
    requires s.last == Some(LogRecord(1)) && s.slotB == Blank(SLOT_SIZE)
    ensures !ClaimHolds(s, SampleImages(0))
  {
    hide SampleImage, Blank;
    Samples(J.SLOT_B, 0);
    var image := SampleImages(0)(1, SLOT_SIZE);
    assert image == SampleImage(J.SLOT_B, 0);
    assert s.slotB[0] == FF;
  }
}

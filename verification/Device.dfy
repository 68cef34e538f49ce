/** The device made of the parts: bootloader, ota.c and update.c over one flash. Every event
    that reaches it is a step of the system in System.dfy, so what is proved there of all
    runs holds of the code. */
module Devices {
  import opened Bytes
  import opened Options
  import opened FlashMemory
  import opened Stores
  import opened Image
  import opened Transfer
  import opened Boot
  import opened Updaters
  import opened Systems
  import J = Journal
  import P = Progress
  import BootLog

  class Device {
    const verify: Verifier
    var flash: Flash
    var updater: Updater?
    var ota: Ota?
    var safe: bool

    ghost predicate Valid()
      reads this, flash, updater, if updater == null then {} else {updater.window}, ota
    {
      && |flash.mem| == FLASH_SIZE
      && (updater != null ==>
           && flash.on && updater.flash == flash && updater.verify == verify && updater.Valid() && !safe
           && ota != null && ota.runningSlot == updater.runningSlot && ota.hasHeader == (ota.runningSlot <= J.SLOT_B))
    }

    ghost function Abs(): Node
      requires Valid()
      reads this, flash, updater, if updater == null then {} else {updater.window}, ota
    {
      Node(View(flash.mem), if updater != null then Running(updater.Abs()) else if safe then Safe else Off)
    }

    ghost predicate Full()
      requires Valid()
      reads this, flash, updater, if updater == null then {} else {updater.window}, ota
    {
      P.Full(flash.mem)
    }

    ghost predicate Ready(e: Event)
      reads this, flash, updater, if updater == null then {} else {updater.window}, ota
    {
      Valid() && Allowed(Abs(), e)
    }

    /** The objects the device consists of. */
    ghost function Parts(): set<object?>
      reads this, updater
    {
      {flash, updater, ota} + if updater == null then {} else {updater.window}
    }

    constructor (mem: seq<byte>, verify: Verifier)
      requires |mem| == FLASH_SIZE
      ensures fresh(Parts() - {null})
      ensures Valid() && Abs() == Node(View(mem), Off) && flash.mem == mem && this.verify == verify
    {
      this.verify := verify;
      flash := new Flash(mem, 0, []);
      updater, ota, safe := null, null, false;
    }

    /** Whether the event is one that may happen now. */
    method Admits(e: Event) returns (allowed: bool)
      requires Valid()
      ensures allowed == Allowed(Abs(), e)
    {
      hide View, Updater.Valid;
      match e
      case PowerUp => allowed := updater == null && !safe;
      case Reset => allowed := updater != null || safe;
      case DataFrame(k, payload) =>
        allowed := updater != null && |payload| == CHUNK && (updater.state == P.RECEIVING ==> k < updater.totalChunks);
      case _ => allowed := updater != null;
    }

    method Respond(stimulus: Stimulus)
      requires Ready(stimulus.event)
      modifies this, Parts() - {null}
      ensures Valid() && Step(old(Abs()), stimulus.event, Abs(), Validation(verify), old(Full()))
      ensures DeviceElsewhereSame(old(flash.mem), flash.mem)
      ensures forall o :: o in Parts() ==> o == null || o in old(Parts()) || fresh(o)
    {
      hide Step, View, Allowed, Updater.Valid, P.Full, ElsewhereSame, BootElsewhereSame, DeviceElsewhereSame;
      ElsewhereSelf(flash.mem);
      match stimulus.event
      case PowerUp => PowerOn(stimulus.supply, stimulus.residue, stimulus.cause);
      case Reset => ResetNow();
      case Confirm => AdmittedRuns(Abs(), Confirm); ConfirmNow();
      case Start(size, version, flags, slot, headerCrc) =>
        AdmittedRuns(Abs(), stimulus.event);
        OnStart(size, version, flags, slot, headerCrc);
      case DataFrame(seqNo, payload) => AdmittedRuns(Abs(), stimulus.event); OnData(seqNo, payload);
      case FinishFrame => AdmittedRuns(Abs(), FinishFrame); OnFinish();
      case AbortFrame => AdmittedRuns(Abs(), AbortFrame); OnAbort();
      case Tick => AdmittedRuns(Abs(), Tick); OnTick();
    }

    method PowerOn(supply: nat, residue: seq<byte>, cause: byte)
      requires Ready(PowerUp)
      modifies this
      ensures Valid() && Step(old(Abs()), PowerUp, Abs(), Validation(verify), old(Full()))
      ensures DeviceElsewhereSame(old(flash.mem), flash.mem)
      ensures fresh(Parts() - {null})
    {
      hide View, P.Full, Decide, Validate, BootLog.Appended, EntryOf, BootDone, BootCut, Step, Updater.Valid, J.Value, ElsewhereSame, BootElsewhereSame, DeviceElsewhereSame;
      ElsewhereSelf(flash.mem);
      ghost var m := flash.mem;
      InView(m);
      flash := new Flash(flash.mem, supply, residue);
      var chosen, reason := Boot.BootMain(flash, verify, cause);
      updater, ota, safe := null, null, false;
      PowerUpIsStep(View(m), View(flash.mem), Validation(verify), P.Full(m));
      if flash.on {
        if chosen == J.SLOT_NONE {
          safe := true;
        } else {
          ota := new Ota(flash, chosen);
          updater := new Updater(flash, verify, chosen);
        }
      }
      ElsewhereWider(old(flash.mem), flash.mem);
    }

    /** After an event that may have ended in a power cut. */
    method Settle()
      requires |flash.mem| == FLASH_SIZE && !safe
      requires updater != null ==>
        && updater.flash == flash && updater.verify == verify && (flash.on ==> updater.Valid())
        && ota != null && ota.runningSlot == updater.runningSlot && ota.hasHeader == (ota.runningSlot <= J.SLOT_B)
      modifies this`updater, this`ota
      ensures Valid() && updater == (if flash.on then old(updater) else null) && ota == if flash.on then old(ota) else null
    {
      if !flash.on {
        updater, ota := null, null;
      }
    }

    method ResetNow()
      requires Ready(Reset)
      modifies this
      ensures Valid() && Step(old(Abs()), Reset, Abs(), Validation(verify), old(Full()))
      ensures DeviceElsewhereSame(old(flash.mem), flash.mem)
      ensures flash == old(flash) && updater in {null, old(updater)} && ota in {null, old(ota)}
    {
      hide View, P.Full, ElsewhereSame, BootElsewhereSame, DeviceElsewhereSame;
      ElsewhereSelf(flash.mem);
      InView(flash.mem);
      updater, ota, safe := null, null, false;
    }

    method ConfirmNow()
      requires Ready(Confirm)
      modifies this, flash, ota
      ensures Valid() && Step(old(Abs()), Confirm, Abs(), Validation(verify), old(Full()))
      ensures DeviceElsewhereSame(old(flash.mem), flash.mem)
      ensures flash == old(flash) && updater in {null, old(updater)} && ota in {null, old(ota)}
    {
      hide View, P.Full, Step, Finish, FinishCut, Abort, AbortCut, StartB, StartBCut, NeedsConfirm, JournalDone, JournalCut, Confirmed, ElsewhereSame, BootElsewhereSame, DeviceElsewhereSame;
      ElsewhereSelf(flash.mem);
      ghost var c, s, full := updater.Abs(), View(flash.mem), Full();
      InView(flash.mem);
      var ok := ota.Confirm(flash);
      InView(flash.mem);
      ConfirmIsStep(c, s, View(flash.mem), flash.on, Validation(verify), full);
      Settle();
      ElsewhereWider(old(flash.mem), flash.mem);
    }

    method OnStart(size: u32, version: u32, flags: byte, slot: byte, headerCrc: u32)
      requires Ready(Start(size, version, flags, slot, headerCrc))
      modifies this, flash, updater
      ensures Valid() && Step(old(Abs()), Start(size, version, flags, slot, headerCrc), Abs(), Validation(verify), old(Full()))
      ensures DeviceElsewhereSame(old(flash.mem), flash.mem)
      ensures flash == old(flash) && updater in {null, old(updater)} && ota in {null, old(ota)}
    {
      hide View, P.Full, Step, Finish, FinishCut, Abort, AbortCut, StartB, StartBCut, NeedsConfirm, JournalDone, JournalCut, Confirmed, ElsewhereSame, BootElsewhereSame, DeviceElsewhereSame;
      ElsewhereSelf(flash.mem);
      ghost var c, s, full := updater.Abs(), View(flash.mem), Full();
      InView(flash.mem);
      updater.HandleStartA(size, version);
      var reply := updater.HandleStartB(flags, slot, headerCrc);
      InView(flash.mem);
      StartIsStep(c, s, size, version, flags, slot, headerCrc, updater.Abs(), View(flash.mem), flash.on, Validation(verify), full);
      Settle();
      ElsewhereWider(old(flash.mem), flash.mem);
    }

    method OnData(seqNo: u16, payload: seq<byte>)
      requires Ready(DataFrame(seqNo, payload))
      modifies this, flash, updater, updater.window
      ensures Valid() && Step(old(Abs()), DataFrame(seqNo, payload), Abs(), Validation(verify), old(Full()))
      ensures DeviceElsewhereSame(old(flash.mem), flash.mem)
      ensures flash == old(flash) && updater in {null, old(updater)} && ota in {null, old(ota)}
    {
      hide View, P.Full, Chunks, Takes, Data, DataCut, Step, ChunkLen, ElsewhereSame, BootElsewhereSame, DeviceElsewhereSame;
      ElsewhereSelf(flash.mem);
      ghost var c, s := updater.Abs(), View(flash.mem);
      InView(flash.mem);
      var reply := updater.HandleData(seqNo, payload);
      InView(flash.mem);
      DataIsStep(c, s, seqNo, payload, updater.Abs(), View(flash.mem), flash.on, Validation(verify), old(Full()));
      Settle();
      ElsewhereWider(old(flash.mem), flash.mem);
    }

    method OnFinish()
      requires Ready(FinishFrame)
      modifies this, flash, updater
      ensures Valid() && Step(old(Abs()), FinishFrame, Abs(), Validation(verify), old(Full()))
      ensures DeviceElsewhereSame(old(flash.mem), flash.mem)
      ensures flash == old(flash) && updater in {null, old(updater)} && ota in {null, old(ota)}
    {
      hide View, P.Full, Step, Finish, FinishCut, Abort, AbortCut, StartB, StartBCut, NeedsConfirm, JournalDone, JournalCut, Confirmed, ElsewhereSame, BootElsewhereSame, DeviceElsewhereSame;
      ElsewhereSelf(flash.mem);
      ghost var c, s, full := updater.Abs(), View(flash.mem), Full();
      InView(flash.mem);
      var reply := updater.HandleFinish();
      InView(flash.mem);
      FinishIsStep(c, s, updater.Abs(), View(flash.mem), flash.on, Validation(verify), full);
      Settle();
      ElsewhereWider(old(flash.mem), flash.mem);
    }

    method OnAbort()
      requires Ready(AbortFrame)
      modifies this, flash, updater
      ensures Valid() && Step(old(Abs()), AbortFrame, Abs(), Validation(verify), old(Full()))
      ensures DeviceElsewhereSame(old(flash.mem), flash.mem)
      ensures flash == old(flash) && updater in {null, old(updater)} && ota in {null, old(ota)}
    {
      hide View, P.Full, Step, Finish, FinishCut, Abort, AbortCut, StartB, StartBCut, NeedsConfirm, JournalDone, JournalCut, Confirmed, ElsewhereSame, BootElsewhereSame, DeviceElsewhereSame;
      ElsewhereSelf(flash.mem);
      ghost var c, s, full := updater.Abs(), View(flash.mem), Full();
      InView(flash.mem);
      var reply := updater.HandleAbort();
      InView(flash.mem);
      AbortIsStep(c, s, updater.Abs(), View(flash.mem), flash.on, Validation(verify), full);
      Settle();
      ElsewhereWider(old(flash.mem), flash.mem);
    }

    method OnTick()
      requires Ready(Tick)
      modifies updater
      ensures Valid() && Step(old(Abs()), Tick, Abs(), Validation(verify), old(Full()))
      ensures DeviceElsewhereSame(old(flash.mem), flash.mem)
      ensures flash == old(flash) && updater in {null, old(updater)} && ota in {null, old(ota)}
    {
      hide View, P.Full, Chunks, ElsewhereSame, BootElsewhereSame, DeviceElsewhereSame;
      ElsewhereSelf(flash.mem);
      InView(flash.mem);
      updater.UpdateTick();
    }
  }

  /** An event with what belongs to it on this side: how long the supply will last, what an
      interrupted erase will leave, and the reset cause that RAM tells the bootloader. */
  datatype Stimulus = Stimulus(event: Event, supply: nat, residue: seq<byte>, cause: byte)

  /** A device living through any events; what cannot happen is skipped. It goes through a run
      of the system, so what is proved of all runs holds here; from a valid active slot, and if
      every START obeys the rule, no node of the run is in safe mode. */
  method Live(mem: seq<byte>, verify: Verifier, stimuli: seq<Stimulus>)
    returns (final: seq<byte>, ghost nodes: seq<Node>, ghost history: seq<Happening>)
    requires |mem| == FLASH_SIZE
    ensures Run(nodes, history, Validation(verify)) && nodes[0] == Node(View(mem), Off)
    ensures |final| == FLASH_SIZE && nodes[|history|].store == View(final) && DeviceElsewhereSame(mem, final)
    ensures Inv(nodes[0], Validation(verify)) && AllSpareActive(nodes, history) ==> forall k :: 0 <= k < |nodes| ==> Inv(nodes[k], Validation(verify))
  {
    hide View, Inv, Step, Allowed, P.Full, DeviceElsewhereSame, AllSpareActive;
    var device := new Device(mem, verify);
    ElsewhereSelf(mem);
    nodes, history := [device.Abs()], [];
    for i := 0 to |stimuli|
      invariant device.Valid() && device.verify == verify && fresh(device.Parts() - {null})
      invariant Run(nodes, history, Validation(verify)) && nodes[0] == Node(View(mem), Off) && nodes[|history|] == device.Abs()
      invariant DeviceElsewhereSame(mem, device.flash.mem)
    {
      var e := stimuli[i].event;
      var allowed := device.Admits(e);
      if allowed {
        ghost var n, full, before := device.Abs(), device.Full(), device.flash.mem;
        device.Respond(stimuli[i]);
        ElsewhereChains(mem, before, device.flash.mem);
        nodes, history := nodes + [device.Abs()], history + [Happening(e, full)];
        assert forall k :: 0 <= k < |history| - 1 ==> Step(nodes[k], history[k].event, nodes[k + 1], Validation(verify), history[k].full);
      }
    }
    final := device.flash.mem;
    if Inv(nodes[0], Validation(verify)) && AllSpareActive(nodes, history) {
      forall k | 0 <= k < |nodes|
        ensures Inv(nodes[k], Validation(verify))
      {
        NeverSafeMode(nodes, history, Validation(verify), k);
      }
    }
  }

  /** Where `Live` can start: the journal is erased and slot A holds a valid image. */
  lemma FactoryDevice(m: seq<byte>, verify: Verifier)
    requires |m| == FLASH_SIZE && AllFF(m[J.BankBase(0)..J.BankBase(2)])
    requires Validate(SlotBytes(m, J.SLOT_A), J.SLOT_A, verify) == ImageOk
    ensures View(m).journal == J.BootState(0, 0, 0xFF, 0, 0) && Inv(Node(View(m), Off), Validation(verify))
  {
    hide Validate, P.LastRecord, J.Entries, J.Best;
    ErasedBank(m, 0);
    ErasedBank(m, 1);
    J.BestIsHighest(J.Entries(m, 0));
    J.BestIsHighest(J.Entries(m, 1));
  }

  lemma ErasedBank(m: seq<byte>, bank: nat)
    requires |m| == FLASH_SIZE && bank < 2 && AllFF(m[J.BankBase(0)..J.BankBase(2)])
    ensures forall d :: d in J.Entries(m, bank) ==> d == None
  {
    hide J.Decode, J.Entries, AllFF;
    var banks := m[J.BankBase(0)..J.BankBase(2)];
    forall i | 0 <= i < J.RECORDS
      ensures AllFF(J.RecordAt(m, bank, i))
    {
      var at := J.RecordBase(bank, i) - J.BankBase(0);
      assert J.RecordAt(m, bank, i) == banks[at..at + J.RECORD];
      ErasedPart(banks, at, at + J.RECORD);
    }
    J.ErasedTail(m, bank, 0);
  }

  lemma ErasedPart(s: seq<byte>, lo: nat, hi: nat)
    requires lo <= hi <= |s| && AllFF(s)
    ensures AllFF(s[lo..hi])
  {
  }

  lemma AdmittedRuns(n: Node, e: Event)
    requires Allowed(n, e) && !e.PowerUp? && !e.Reset?
    ensures n.mode.Running?
  {
  }

  lemma PowerUpIsStep(s: Store, s': Store, check: Checker, full: bool)
    requires Real(s) && |s'.slotA| == |s'.slotB| == SLOT_SIZE
    ensures BootDone(s, s', check) ==>
      var d := Decide(s, check);
      && Step(Node(s, Off), PowerUp, Node(s', if d.chosen == J.SLOT_NONE then Safe else Running(Booted(d.chosen))), check, full)
      && (d.chosen == J.SLOT_NONE || d.chosen <= J.SLOT_B)
    ensures BootCut(s, s', check) ==> Step(Node(s, Off), PowerUp, Node(s', Off), check, full)
  {
  }

  lemma ConfirmIsStep(c: Ctx, s: Store, s': Store, on: bool, check: Checker, full: bool)
    requires Real(s) && |s'.slotA| == |s'.slotB| == SLOT_SIZE && J.InRange(s'.journal)
    requires on ==> if NeedsConfirm(s.journal, c.running) then JournalDone(s, s', Confirmed(s.journal, c.running)) else s' == s
    requires !on ==> NeedsConfirm(s.journal, c.running) && JournalCut(s, s', Confirmed(s.journal, c.running))
    ensures Step(Node(s, Running(c)), Confirm, Node(s', if on then Running(c) else Off), check, full)
  {
  }

  lemma StartIsStep(c: Ctx, s: Store, size: u32, version: u32, flags: byte, slot: byte, headerCrc: u32, c': Ctx, s': Store, on: bool, check: Checker, full: bool)
    requires Real(s) && |s'.slotA| == |s'.slotB| == SLOT_SIZE
    requires on ==> var o := StartB(StartA(c, size, version), s, flags, slot, headerCrc); o.ctx == c' && o.store == s'
    requires !on ==> StartBCut(StartA(c, size, version), s, s', flags, slot, headerCrc, full)
    ensures Step(Node(s, Running(c)), Start(size, version, flags, slot, headerCrc), Node(s', if on then Running(c') else Off), check, full)
  {
    hide StartKindOf, Chunks;
  }

  lemma FinishIsStep(c: Ctx, s: Store, c': Ctx, s': Store, on: bool, check: Checker, full: bool)
    requires Real(s) && |s'.slotA| == |s'.slotB| == SLOT_SIZE && J.InRange(s'.journal)
    requires on ==> Finish(c, s, check).ctx == c' && Finish(c, s, check).store == s'
    requires !on ==> FinishCut(c, s, s', check, full)
    ensures Step(Node(s, Running(c)), FinishFrame, Node(s', if on then Running(c') else Off), check, full)
  {
    hide Judge;
  }

  lemma AbortIsStep(c: Ctx, s: Store, c': Ctx, s': Store, on: bool, check: Checker, full: bool)
    requires Real(s) && |s'.slotA| == |s'.slotB| == SLOT_SIZE
    requires on ==> Abort(c, s).ctx == c' && Abort(c, s).store == s'
    requires !on ==> AbortCut(c, s, s', full)
    ensures Step(Node(s, Running(c)), AbortFrame, Node(s', if on then Running(c') else Off), check, full)
  {
  }

  lemma DataIsStep(c: Ctx, s: Store, seqNo: u16, payload: seq<byte>, c': Ctx, s': Store, on: bool, check: Checker, full: bool)
    requires Real(s) && |s'.slotA| == |s'.slotB| == SLOT_SIZE && |payload| == CHUNK && (c.state == P.RECEIVING ==> seqNo < c.w.total)
    requires HoldsInSlot(c, s, seqNo, payload)
    requires on ==> if Takes(c, s, seqNo, payload) then Data(c, s, seqNo, payload).ctx == c' && Data(c, s, seqNo, payload).store == s'
                    else c'.state == P.IDLE && c'.running == c.running && s' == WithSlot(s, c.slot, SlotOf(s', c.slot))
    requires !on ==> DataCut(c, s, s', seqNo, payload, full)
    ensures Step(Node(s, Running(c)), DataFrame(seqNo, payload), Node(s', if on then Running(c') else Off), check, full)
  {
    hide Data, DataCut, Takes, Decide, HoldsInSlot, WithSlot, SlotOf;
    if on && !Takes(c, s, seqNo, payload) {
      OneSlotOnly(s, s', c.slot);
    } else {
      DataKeepsJournal(c, s, seqNo, payload, s', full);
    }
  }

  lemma InView(m: seq<byte>)
    requires |m| == FLASH_SIZE
    ensures View(m).journal == J.Value(m) && J.InRange(J.Value(m))
  {
    ValueInRange(m);
  }
}

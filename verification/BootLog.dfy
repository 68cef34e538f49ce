/** firmware/common/bootlog.c: the append-only log of boots. */
module BootLog {
  import opened Bytes
  import opened Options
  import opened FlashMemory
  import Crc32

  const SECTOR: nat := 7
  const BASE: nat := 0x6_0000
  const SIZE: nat := 32
  const ENTRIES: nat := 4096

  datatype Entry = Entry(number: u32, journalNumber: u32, slot: byte, reason: byte, attempts: byte, cause: byte,
                         resultA: byte, resultB: byte, version: u32)

  function Place(i: nat): nat {
    BASE + SIZE * i
  }

  function BytesAt(m: seq<byte>, i: nat): (r: seq<byte>)
    requires |m| == FLASH_SIZE && i < ENTRIES
    ensures |r| == SIZE
  {
    Window(m, Place(i), SIZE)
  }

  function Body(e: Entry): (r: seq<byte>)
    ensures |r| == 28
  {
    ToLe32(e.number) + ToLe32(e.journalNumber) + [e.slot, e.reason, e.attempts, e.cause] + [e.resultA, e.resultB, FF, FF]
    + ToLe32(e.version) + [FF, FF, FF, FF, FF, FF, FF, FF]
  }

  function Encode(e: Entry): (r: seq<byte>)
    ensures |r| == SIZE
  {
    Body(e) + Crc32.CrcBytes(Body(e))
  }

  function Fields(r: seq<byte>): Entry
    requires |r| == SIZE
  {
    Entry(Le32(r[..4]), Le32(r[4..8]), r[8], r[9], r[10], r[11], r[12], r[13], Le32(r[16..20]))
  }

  function Decode(r: seq<byte>): Option<Entry>
    requires |r| == SIZE
  {
    if AllFF(r) || !Intact(r) then None else Some(Fields(r))
  }

  /** What the log reads as, place by place. */
  function Log(m: seq<byte>): (log: seq<Option<Entry>>)
    requires |m| == FLASH_SIZE
    ensures |log| == ENTRIES
    ensures forall i :: 0 <= i < ENTRIES ==> log[i] == Decode(BytesAt(m, i))
  {
    seq(ENTRIES, i requires 0 <= i < ENTRIES => Decode(BytesAt(m, i)))
  }

  /** The first `used` places hold something up to the last of them, the others are erased. */
  ghost predicate Uses(m: seq<byte>, used: nat)
    requires |m| == FLASH_SIZE
  {
    && used <= ENTRIES
    && (used > 0 ==> !AllFF(BytesAt(m, used - 1)))
    && forall i :: used <= i < ENTRIES ==> AllFF(BytesAt(m, i))
  }

  /** What an entry reads as once it is written: itself, unless its bytes read as erased. */
  function Shown(e: Entry): Option<Entry> {
    if AllFF(Encode(e)) then None else Some(e)
  }

  /** An entry with any of the bootloader's reasons shows. */
  lemma EntryShows(e: Entry)
    requires e.reason != FF
    ensures Shown(e) == Some(e)
  {
    hide Crc32.CrcBytes, Body;
    BodyLayout(e);
    assert Encode(e)[9] == Body(e)[9];
  }

  lemma EncodeDecodes(e: Entry)
    ensures Decode(Encode(e)) == Shown(e)
  {
    hide Crc32.CrcBytes, Body;
    BodyLayout(e);
    var r, b := Encode(e), Body(e);
    assert r[..28] == b && r[28..] == Crc32.CrcBytes(b);
    assert r[..4] == b[..4] && r[4..8] == b[4..8] && r[16..20] == b[16..20];
    assert forall i :: 8 <= i < 14 ==> r[i] == b[i];
  }

  lemma BodyLayout(e: Entry)
    ensures var b := Body(e);
      && b[..4] == ToLe32(e.number) && b[4..8] == ToLe32(e.journalNumber) && b[16..20] == ToLe32(e.version)
      && b[8] == e.slot && b[9] == e.reason && b[10] == e.attempts && b[11] == e.cause && b[12] == e.resultA && b[13] == e.resultB
  {
  }

  lemma PlacesAfterAppend(m: seq<byte>, k: nat, rec: seq<byte>, words: nat)
    requires |m| == FLASH_SIZE && k < ENTRIES && words <= 8 && |rec| == SIZE && AllFF(BytesAt(m, k))
    ensures var m' := Splice(m, Place(k), rec[..4 * words]);
            && BytesAt(m', k) == Partial(rec, words)
            && (forall i :: 0 <= i < ENTRIES && i != k ==> BytesAt(m', i) == BytesAt(m, i))
            && OnlyLogChanged(m, m')
  {
    var m' := Splice(m, Place(k), rec[..4 * words]);
    var was := BytesAt(m, k);
    forall j | 0 <= j < SIZE
      ensures BytesAt(m', k)[j] == Partial(rec, words)[j]
    {
      assert was[j] == FF;
    }
  }

  ghost predicate OnlyLogChanged(m: seq<byte>, m': seq<byte>) {
    SameOutside(m, m', BASE, BASE + SIZE * ENTRIES)
  }

  /** An erase cut short shows no entry that was not there. */
  lemma TornLog(m: seq<byte>, m': seq<byte>)
    requires |m| == |m'| == FLASH_SIZE && TornErase(m, m', SECTOR)
    ensures OnlyLogChanged(m, m')
    ensures forall i :: 0 <= i < ENTRIES ==> Log(m')[i].None? || Log(m')[i] == Log(m)[i]
  {
    hide Crc32.CrcBytes, Fields, AllFF;
    forall i | 0 <= i < ENTRIES
      ensures Log(m')[i].None? || Log(m')[i] == Log(m)[i]
    {
      assert (Place(i) - BASE) % 32 == 0;
      assert NotForged(BytesAt(m, i), BytesAt(m', i));
    }
  }

  lemma ErasedLog(m: seq<byte>)
    requires |m| == FLASH_SIZE
    ensures var m' := Erase(m, SECTOR); OnlyLogChanged(m, m') && forall i :: 0 <= i < ENTRIES ==> AllFF(BytesAt(m', i))
  {
  }

  function NextNumber(m: seq<byte>): u32
    requires |m| == FLASH_SIZE
  {
    var last := Last(Log(m));
    ((if last.Some? then last.value.number else 0) + 1) % 0x1_0000_0000
  }

  /** Entries are numbered one more than the last one that reads, from 1. */
  lemma NumbersGoUp(m: seq<byte>, i: nat)
    requires |m| == FLASH_SIZE && i <= ENTRIES && (i > 0 ==> Log(m)[i - 1].Some?) && forall k :: i <= k < ENTRIES ==> Log(m)[k].None?
    ensures NextNumber(m) == if i == 0 then 1 else (Log(m)[i - 1].value.number + 1) % 0x1_0000_0000
  {
    hide Decode;
    LastOfTail(Log(m), i);
  }

  /** Entry `e` has been appended, numbered after the last one that reads; every entry before
      it is still there, unless the log was full and starts over. */
  ghost predicate Appended(m: seq<byte>, m': seq<byte>, e: Entry)
    requires |m| == |m'| == FLASH_SIZE
  {
    exists used: nat ::
      && Uses(m, used)
      && var k := if used < ENTRIES then used else 0;
         && Log(m')[k] == Shown(e.(number := NextNumber(m)))
         && forall i :: 0 <= i < ENTRIES && i != k ==> Log(m')[i] == if used < ENTRIES then Log(m)[i] else None
  }

  /** A cut leaves every entry of a log that is not full; a full one may lose entries but
      shows none that was not there. Only the place being written may show anything new. */
  ghost predicate CutWhileAppending(m: seq<byte>, m': seq<byte>)
    requires |m| == |m'| == FLASH_SIZE
  {
    exists used: nat ::
      && Uses(m, used)
      && forall i :: 0 <= i < ENTRIES && i != (if used < ENTRIES then used else 0) ==>
           if used < ENTRIES then Log(m')[i] == Log(m)[i] else Log(m')[i].None? || Log(m')[i] == Log(m)[i]
  }

  ghost predicate SameLog(m: seq<byte>, m': seq<byte>)
    requires |m| == |m'| == FLASH_SIZE
  {
    forall i :: 0 <= i < ENTRIES ==> BytesAt(m', i) == BytesAt(m, i)
  }

  lemma AppendedFrom(m0: seq<byte>, m: seq<byte>, m': seq<byte>, e: Entry)
    requires |m0| == |m| == |m'| == FLASH_SIZE && SameLog(m0, m) && Appended(m, m', e)
    ensures Appended(m0, m', e)
  {
    hide Decode, BytesAt, AllFF, Shown;
    assert Log(m0) == Log(m);
    var used: nat :| Uses(m, used) && var k := if used < ENTRIES then used else 0;
         && Log(m')[k] == Shown(e.(number := NextNumber(m)))
         && forall i :: 0 <= i < ENTRIES && i != k ==> Log(m')[i] == if used < ENTRIES then Log(m)[i] else None;
    assert Uses(m0, used);
  }

  // ----- the functions of the source -----

  /** `bootlog_count` */
  method Count(flash: Flash) returns (used: nat)
    requires |flash.mem| == FLASH_SIZE
    ensures Uses(flash.mem, used)
  {
    used := ENTRIES;
    while used > 0
      invariant used <= ENTRIES && forall i :: used <= i < ENTRIES ==> AllFF(BytesAt(flash.mem, i))
    {
      var erased := flash.IsErased(Place(used - 1), SIZE);
      if !erased {
        return;
      }
      used := used - 1;
    }
  }

  /** `bootlog_get` */
  method Get(flash: Flash, index: nat) returns (e: Option<Entry>)
    requires |flash.mem| == FLASH_SIZE
    ensures e == if index < ENTRIES then Log(flash.mem)[index] else None
  {
    hide Crc32.CrcBytes, Fields;
    if index >= ENTRIES {
      return None;
    }
    var erased := flash.IsErased(Place(index), SIZE);
    var r := BytesAt(flash.mem, index);
    if erased || Crc32.CrcBytes(r[..28]) != r[28..] {
      return None;
    }
    e := Some(Fields(r));
  }

  lemma ErasedTail(m: seq<byte>, used: nat)
    requires |m| == FLASH_SIZE && Uses(m, used)
    ensures forall i :: used <= i < ENTRIES ==> Log(m)[i].None?
  {
    hide Crc32.CrcBytes;
  }

  /** The loop of `bootlog_append` that walks back to the last readable entry. */
  method LastNumber(flash: Flash, used: nat) returns (number: u32)
    requires |flash.mem| == FLASH_SIZE && Uses(flash.mem, used)
    ensures (number as int + 1) % 0x1_0000_0000 == NextNumber(flash.mem)
  {
    hide Decode;
    ghost var log := Log(flash.mem);
    ErasedTail(flash.mem, used);
    LastOfTail(log, used);
    var i := used;
    while i > 0
      invariant 0 <= i <= used && Last(log) == Last(log[..i])
    {
      var e := Get(flash, i - 1);
      assert log[..i][..i - 1] == log[..i - 1];
      if e.Some? {
        return e.value.number;
      }
      i := i - 1;
    }
    number := 0;
  }

  /** The first free place, after erasing a full log. */
  method MakeRoom(flash: Flash, used: nat) returns (ok: bool, k: nat)
    requires flash.Ready() && Uses(flash.mem, used)
    modifies flash
    ensures |flash.mem| == FLASH_SIZE && ok == flash.on && OnlyLogChanged(old(flash.mem), flash.mem)
    ensures k == if used < ENTRIES then used else 0
    ensures ok ==> AllFF(BytesAt(flash.mem, k))
    ensures used < ENTRIES ==> ok && flash.mem == old(flash.mem)
    ensures used == ENTRIES && ok ==> forall i :: 0 <= i < ENTRIES ==> Log(flash.mem)[i].None?
    ensures used == ENTRIES ==> forall i :: 0 <= i < ENTRIES ==> Log(flash.mem)[i].None? || Log(flash.mem)[i] == Log(old(flash.mem))[i]
  {
    hide Decode, TornErase, Erase, AllFF;
    ok, k := true, used;
    if used >= ENTRIES {
      k := 0;
      ok := flash.EraseSector(SECTOR);
      if ok {
        ErasedLog(old(flash.mem));
        ErasedReadsNone(flash.mem);
      } else {
        TornLog(old(flash.mem), flash.mem);
      }
    }
  }

  lemma ErasedReadsNone(m: seq<byte>)
    requires |m| == FLASH_SIZE && forall i :: 0 <= i < ENTRIES ==> AllFF(BytesAt(m, i))
    ensures forall i :: 0 <= i < ENTRIES ==> Log(m)[i].None?
  {
  }

  /** `bootlog_append` */
  method Append(flash: Flash, e: Entry) returns (ok: bool)
    requires flash.Ready()
    modifies flash
    ensures |flash.mem| == FLASH_SIZE && ok == flash.on && OnlyLogChanged(old(flash.mem), flash.mem)
    ensures ok ==> Appended(old(flash.mem), flash.mem, e)
    ensures !ok ==> CutWhileAppending(old(flash.mem), flash.mem)
  {
    hide Decode, Encode, CanTake, AllFF, OnlyLogChanged, BytesAt, Place, Shown;
    var used := Count(flash);
    var number := LastNumber(flash, used);
    ghost var next := NextNumber(flash.mem);
    var room, k := MakeRoom(flash, used);
    if !room {
      return false;
    }
    ghost var m := flash.mem;
    var entry := e.(number := (number as int + 1) % 0x1_0000_0000);
    var rec := Encode(entry);
    ok := Put(flash, k, rec);
    if ok {
      EncodeDecodes(entry);
    }
    LogsChain(old(flash.mem), m, flash.mem);
  }

  lemma LogsChain(a: seq<byte>, b: seq<byte>, c: seq<byte>)
    ensures OnlyLogChanged(a, b) && OnlyLogChanged(b, c) ==> OnlyLogChanged(a, c)
  {
  }

  /** Programs a record at a free place. */
  method Put(flash: Flash, k: nat, rec: seq<byte>) returns (ok: bool)
    requires flash.Ready() && k < ENTRIES && |rec| == SIZE && AllFF(BytesAt(flash.mem, k))
    modifies flash
    ensures |flash.mem| == FLASH_SIZE && ok == flash.on && OnlyLogChanged(old(flash.mem), flash.mem)
    ensures forall i :: 0 <= i < ENTRIES && i != k ==> Log(flash.mem)[i] == Log(old(flash.mem))[i]
    ensures ok ==> Log(flash.mem)[k] == Decode(rec)
  {
    hide Decode, CanTake;
    ghost var m := flash.mem;
    ErasedTakes(m, Place(k), rec);
    ghost var words;
    ok, words := flash.Program(Place(k), rec);
    PlacesAfterAppend(m, k, rec, words);
    if ok {
      assert Partial(rec, words) == rec;
    }
  }
}

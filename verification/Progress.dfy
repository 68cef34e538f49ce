/** firmware/common/progress.c: the append-only log that tells how far a transfer got. */
module Progress {
  import opened Bytes
  import opened Options
  import opened FlashMemory
  import Crc32

  const PROGRESS_SECTOR: nat := 8
  const PROGRESS_BASE: nat := 0x8_0000
  const RECORD: nat := 32
  const RECORDS: nat := 4096

  const IDLE: byte := 0
  const RECEIVING: byte := 1
  const DONE: byte := 2
  const ABORTED: byte := 0xFE

  datatype Progress = Progress(number: u32, headerCrc: u32, imageSize: u32, slot: byte, state: byte, chunks: u16, flags: byte)

  function RecordBase(i: nat): nat {
    PROGRESS_BASE + RECORD * i
  }

  function RecordAt(m: seq<byte>, i: nat): (r: seq<byte>)
    requires |m| == FLASH_SIZE && i < RECORDS
    ensures |r| == RECORD
  {
    Window(m, RecordBase(i), RECORD)
  }

  function Body(p: Progress): (r: seq<byte>)
    ensures |r| == 28
  {
    ToLe32(p.number) + ToLe32(p.headerCrc) + ToLe32(p.imageSize)
    + ([p.slot, p.state] + ToLe16(p.chunks)) + [p.flags, FF, FF, FF] + [FF, FF, FF, FF] + [FF, FF, FF, FF]
  }

  function Encode(p: Progress): (r: seq<byte>)
    ensures |r| == RECORD
  {
    Body(p) + Crc32.CrcBytes(Body(p))
  }

  function Fields(r: seq<byte>): Progress
    requires |r| == RECORD
  {
    Progress(Le32(r[..4]), Le32(r[4..8]), Le32(r[8..12]), r[12], r[13], Le16(r[14..16]), r[16])
  }

  /** There is no range check here, unlike in the journal. */
  function Decode(r: seq<byte>): Option<Progress>
    requires |r| == RECORD
  {
    if AllFF(r) || !Intact(r) then None else Some(Fields(r))
  }

  function Entries(m: seq<byte>): (e: seq<Option<Progress>>)
    requires |m| == FLASH_SIZE
    ensures |e| == RECORDS
    ensures forall i :: 0 <= i < RECORDS ==> e[i] == Decode(RecordAt(m, i))
  {
    seq(RECORDS, i requires 0 <= i < RECORDS => Decode(RecordAt(m, i)))
  }

  function Used(m: seq<byte>, n: nat): (u: nat)
    requires |m| == FLASH_SIZE && n <= RECORDS
    ensures u <= n
    ensures u > 0 ==> !AllFF(RecordAt(m, u - 1))
    ensures forall i :: u <= i < n ==> AllFF(RecordAt(m, i))
  {
    if n == 0 || !AllFF(RecordAt(m, n - 1)) then n else Used(m, n - 1)
  }

  /** The last record that decodes. */
  function LastRecord(m: seq<byte>): Option<Progress>
    requires |m| == FLASH_SIZE
  {
    Last(Entries(m))
  }

  predicate Full(m: seq<byte>)
    requires |m| == FLASH_SIZE
  {
    !AllFF(RecordAt(m, RECORDS - 1))
  }

  // ----- what a record looks like while it is being written -----

  function Torn(p: Progress, words: nat): (r: seq<byte>)
    requires words <= 8
    ensures |r| == RECORD
  {
    Partial(Encode(p), words)
  }

  lemma BodyLayout(p: Progress)
    ensures var b := Body(p);
      && b[..4] == ToLe32(p.number) && b[4..8] == ToLe32(p.headerCrc) && b[8..12] == ToLe32(p.imageSize)
      && b[12] == p.slot && b[13] == p.state && b[14..16] == ToLe16(p.chunks) && b[16] == p.flags
      && forall i :: 17 <= i < 28 ==> b[i] == FF
  {
  }

  lemma EncodeLayout(p: Progress)
    ensures var r := Encode(p); r[..28] == Body(p) && r[28..] == Crc32.CrcBytes(Body(p)) && Fields(r) == p
  {
    hide Crc32.CrcBytes, Body;
    BodyLayout(p);
    var r, b := Encode(p), Body(p);
    assert r[..4] == b[..4] && r[4..8] == b[4..8] && r[8..12] == b[8..12] && r[14..16] == b[14..16];
  }

  lemma TornFields(p: Progress, words: nat)
    requires words <= 8
    ensures words <= 3 ==> Fields(Torn(p, words)).state == 0xFF
    ensures words == 4 ==> Fields(Torn(p, words)) == p.(flags := 0xFF)
    ensures words > 4 ==> Fields(Torn(p, words)) == p
  {
    hide Crc32.CrcBytes, Encode, Body;
    EncodeLayout(p);
    var r, t := Encode(p), Torn(p, words);
    if words >= 4 {
      assert t[..4] == r[..4] && t[4..8] == r[4..8] && t[8..12] == r[8..12] && t[14..16] == r[14..16];
    }
  }

  /** What a record cut after some of its words can be taken for: nothing, a record in no
      state at all, or the record itself with the flags still unwritten. This holds even
      if the CRC of the part that was written happens to match. */
  lemma TornIsHarmless(p: Progress, words: nat)
    requires words <= 8
    ensures var d := Decode(Torn(p, words));
      d == None || d.value.state == 0xFF || d == Some(p) || d == Some(p.(flags := 0xFF))
    ensures words == 0 ==> Decode(Torn(p, words)).None?
    ensures words == 8 ==> Decode(Torn(p, words)) == if AllFF(Encode(p)) then None else Some(p)
  {
    hide Crc32.CrcBytes, Encode, Body, Fields;
    TornFields(p, words);
    EncodeLayout(p);
    if words == 8 {
      var r := Torn(p, words);
      assert r == Encode(p);
    }
  }

  /** A record that names a slot never reads as erased. */
  lemma SlotShows(p: Progress)
    requires p.slot != FF
    ensures !AllFF(Encode(p))
  {
    hide Crc32.CrcBytes, Body;
    BodyLayout(p);
    assert Encode(p)[12] == Body(p)[12];
  }

  // ----- what each flash operation does to the log -----

  lemma EntriesFrame(m: seq<byte>, m': seq<byte>)
    requires |m| == |m'| == FLASH_SIZE
    requires forall i :: PROGRESS_BASE <= i < PROGRESS_BASE + RECORD * RECORDS ==> m[i] == m'[i]
    ensures Entries(m') == Entries(m) && Full(m') == Full(m)
  {
    hide Crc32.CrcBytes, Decode;
    forall i | 0 <= i < RECORDS
      ensures RecordAt(m', i) == RecordAt(m, i)
    {
    }
  }

  lemma RecordsAfterAppend(m: seq<byte>, k: nat, rec: seq<byte>, words: nat)
    requires |m| == FLASH_SIZE && k < RECORDS && words <= 8 && |rec| == RECORD
    requires AllFF(RecordAt(m, k))
    ensures var m' := Splice(m, RecordBase(k), rec[..4 * words]);
            && RecordAt(m', k) == Partial(rec, words)
            && forall i :: 0 <= i < RECORDS && i != k ==> RecordAt(m', i) == RecordAt(m, i)
  {
    hide Crc32.CrcBytes, Decode;
    var m' := Splice(m, RecordBase(k), rec[..4 * words]);
    var was := RecordAt(m, k);
    forall j | 0 <= j < RECORD
      ensures RecordAt(m', k)[j] == Partial(rec, words)[j]
    {
      assert was[j] == FF;
    }
  }

  lemma ErasedTail(m: seq<byte>, used: nat)
    requires |m| == FLASH_SIZE
    requires forall i :: used <= i < RECORDS ==> AllFF(RecordAt(m, i))
    ensures forall i :: used <= i < RECORDS ==> Entries(m)[i].None?
  {
    hide Crc32.CrcBytes;
  }

  lemma LastAfterAppend(m: seq<byte>, k: nat, p: Progress, words: nat)
    requires |m| == FLASH_SIZE && k < RECORDS && words <= 8
    requires forall i :: k <= i < RECORDS ==> AllFF(RecordAt(m, i))
    ensures var d := Decode(Torn(p, words));
      LastRecord(Splice(m, RecordBase(k), Encode(p)[..4 * words])) == if d.Some? then d else LastRecord(m)
  {
    hide Crc32.CrcBytes, Decode, Encode;
    var m' := Splice(m, RecordBase(k), Encode(p)[..4 * words]);
    var d := Decode(Torn(p, words));
    assert AllFF(RecordAt(m, k));
    RecordsAfterAppend(m, k, Encode(p), words);
    OneEntry(Entries(m'), Entries(m), k, d);
    ErasedTail(m, k);
    LastGains(Entries(m), k, d);
  }

  lemma LastAfterErase(m: seq<byte>)
    requires |m| == FLASH_SIZE
    ensures LastRecord(Erase(m, PROGRESS_SECTOR)).None?
    ensures forall i :: 0 <= i < RECORDS ==> AllFF(RecordAt(Erase(m, PROGRESS_SECTOR), i))
  {
    hide Crc32.CrcBytes, Decode;
    var m' := Erase(m, PROGRESS_SECTOR);
    ErasedTail(m', 0);
    LastIsEntry(Entries(m'));
  }

  lemma UnforgedDecodes(r: seq<byte>, r': seq<byte>)
    requires |r| == |r'| == RECORD && NotForged(r, r')
    ensures Decode(r').None? || Decode(r') == Decode(r)
  {
    hide Crc32.CrcBytes, Fields;
  }

  lemma LastAfterTornErase(m: seq<byte>, m': seq<byte>)
    requires |m| == |m'| == FLASH_SIZE && TornErase(m, m', PROGRESS_SECTOR)
    ensures LastRecord(m').None? || LastRecord(m') in Entries(m)
  {
    hide Crc32.CrcBytes, Decode;
    forall i | 0 <= i < RECORDS
      ensures Entries(m')[i].None? || Entries(m')[i] == Entries(m)[i]
    {
      assert (RecordBase(i) - PROGRESS_BASE) % 32 == 0;
      assert NotForged(RecordAt(m, i), RecordAt(m', i));
      UnforgedDecodes(RecordAt(m, i), RecordAt(m', i));
    }
    LastIsEntry(Entries(m'));
  }

  /** The log after an erase that stopped with one record still there. */
  function OneLeft(m: seq<byte>, k: nat): (m': seq<byte>)
    requires |m| == FLASH_SIZE && k < RECORDS
    ensures |m'| == FLASH_SIZE
  {
    Splice(Erase(m, PROGRESS_SECTOR), RecordBase(k), RecordAt(m, k))
  }

  lemma OneLeftWindow(m: seq<byte>, k: nat, at: nat, size: nat)
    requires |m| == FLASH_SIZE && k < RECORDS && PROGRESS_BASE <= at && at + size <= PROGRESS_BASE + RECORD * RECORDS
    ensures RecordBase(k) <= at && at + size <= RecordBase(k) + RECORD ==> Window(OneLeft(m, k), at, size) == Window(m, at, size)
    ensures at + size <= RecordBase(k) || RecordBase(k) + RECORD <= at ==> AllFF(Window(OneLeft(m, k), at, size))
  {
    var m', rec := OneLeft(m, k), RecordAt(m, k);
    if RecordBase(k) <= at && at + size <= RecordBase(k) + RECORD {
      forall i | 0 <= i < size
        ensures Window(m', at, size)[i] == Window(m, at, size)[i]
      {
        assert m'[at + i] == rec[at + i - RecordBase(k)];
      }
    }
  }

  lemma OneLeftForgesNothing(m: seq<byte>, k: nat, size: nat)
    requires |m| == FLASH_SIZE && k < RECORDS && (size == 16 || size == 32)
    ensures ForgesNothing(m, OneLeft(m, k), SectorBase(PROGRESS_SECTOR), SectorBase(PROGRESS_SECTOR + 1), size)
  {
    hide Intact, Window, AllFF, OneLeft;
    var m', lo, hi := OneLeft(m, k), SectorBase(PROGRESS_SECTOR), SectorBase(PROGRESS_SECTOR + 1);
    forall at: nat | lo <= at <= hi - size && (at - lo) % size == 0
      ensures NotForged(Window(m, at, size), Window(m', at, size))
    {
      OneLeftWindow(m, k, at, size);
    }
  }

  /** An interrupted erase of the log can leave any of its records as the only one. */
  lemma EraseMayLeaveAny(m: seq<byte>, k: nat)
    requires |m| == FLASH_SIZE && k < RECORDS
    ensures TornErase(m, OneLeft(m, k), PROGRESS_SECTOR) && LastRecord(OneLeft(m, k)) == Entries(m)[k]
  {
    hide Intact, Decode, ForgesNothing;
    var m' := OneLeft(m, k);
    OneLeftForgesNothing(m, k, 16);
    OneLeftForgesNothing(m, k, 32);
    forall i | 0 <= i < RECORDS
      ensures RecordAt(m', i) == if i == k then RecordAt(m, k) else Blank(RECORD)
    {
      forall j | 0 <= j < RECORD
        ensures RecordAt(m', i)[j] == if i == k then RecordAt(m, k)[j] else FF
      {
      }
    }
    NoneFromBlank();
    LastGains(seq(RECORDS, i => None), k, Entries(m)[k]);
    NoneAtAll(seq(RECORDS, i => None));
    OneEntry(Entries(m'), seq(RECORDS, i => None), k, Entries(m)[k]);
  }

  lemma NoneAtAll(e: seq<Option<Progress>>)
    requires forall i :: 0 <= i < |e| ==> e[i].None?
    ensures Last(e).None?
  {
    LastIsEntry(e);
  }

  lemma NoneFromBlank()
    ensures Decode(Blank(RECORD)).None?
  {
  }

  // ----- the functions of the source -----

  method ProgressCount(flash: Flash) returns (used: nat)
    requires |flash.mem| == FLASH_SIZE
    ensures used == Used(flash.mem, RECORDS)
  {
    used := RECORDS;
    while used > 0
      invariant used <= RECORDS && Used(flash.mem, RECORDS) == Used(flash.mem, used)
    {
      var erased := flash.IsErased(RecordBase(used - 1), RECORD);
      if !erased {
        return;
      }
      used := used - 1;
    }
  }

  method DecodeRecord(flash: Flash, i: nat) returns (p: Option<Progress>)
    requires |flash.mem| == FLASH_SIZE && i < RECORDS
    ensures p == Entries(flash.mem)[i]
  {
    hide Crc32.CrcBytes, Fields;
    var erased := flash.IsErased(RecordBase(i), RECORD);
    var r := RecordAt(flash.mem, i);
    if erased || Crc32.CrcBytes(r[..28]) != r[28..] {
      return None;
    }
    p := Some(Fields(r));
  }

  method ProgressRead(flash: Flash) returns (p: Option<Progress>)
    requires |flash.mem| == FLASH_SIZE
    ensures p == LastRecord(flash.mem)
  {
    hide Decode;
    ghost var e := Entries(flash.mem);
    var i: nat := ProgressCount(flash);
    ErasedTail(flash.mem, i);
    LastOfTail(e, i);
    while i > 0
      invariant i <= RECORDS && Last(e) == Last(e[..i])
    {
      p := DecodeRecord(flash, i - 1);
      assert e[..i][..i - 1] == e[..i - 1];
      if p.Some? {
        return;
      }
      i := i - 1;
    }
    p := None;
  }

  /** The record as `progress_write` stores it: numbered after the last one. */
  function Numbered(m: seq<byte>, p: Progress): Progress
    requires |m| == FLASH_SIZE
  {
    var last := LastRecord(m);
    p.(number := ((if last.Some? then last.value.number else 0) + 1) % 0x1_0000_0000)
  }

  lemma NumberedShows(m: seq<byte>, p: Progress)
    requires |m| == FLASH_SIZE && p.slot != FF
    ensures !AllFF(Encode(Numbered(m, p)))
  {
    SlotShows(Numbered(m, p));
  }

  ghost predicate OnlyLogChanged(m: seq<byte>, m': seq<byte>) {
    SameOutside(m, m', PROGRESS_BASE, PROGRESS_BASE + RECORD * RECORDS)
  }

  ghost predicate Logged(m: seq<byte>, m': seq<byte>, p: Progress)
    requires |m| == |m'| == FLASH_SIZE
  {
    LastRecord(m') == Some(Numbered(m, p)) && OnlyLogChanged(m, m')
  }

  /** The record shows in full, in full but for its flags, or as one in no state at all. */
  predicate ShowsOrIsHarmless(d: Option<Progress>, p: Progress) {
    d.Some? && (d.value.state == 0xFF || d.value == p || d.value == p.(flags := 0xFF))
  }

  /** What a cut inside a write of `p` leaves. Only the erase that a full log needs can bring
      back a record other than the last one. */
  ghost predicate CutWhileLogging(m: seq<byte>, m': seq<byte>, p: Progress)
    requires |m| == |m'| == FLASH_SIZE
  {
    && OnlyLogChanged(m, m')
    && (|| LastRecord(m') == LastRecord(m)
        || ShowsOrIsHarmless(LastRecord(m'), Numbered(m, p))
        || (Full(m) && (LastRecord(m').None? || LastRecord(m') in Entries(m))))
  }

  /** The first free record, after erasing the log if it is full. */
  method MakeRoom(flash: Flash) returns (ok: bool, used: nat)
    requires flash.Ready()
    modifies flash
    ensures |flash.mem| == FLASH_SIZE && ok == flash.on && OnlyLogChanged(old(flash.mem), flash.mem)
    ensures ok ==> used < RECORDS && forall i :: used <= i < RECORDS ==> AllFF(RecordAt(flash.mem, i))
    ensures ok ==> if Full(old(flash.mem)) then LastRecord(flash.mem).None? else flash.mem == old(flash.mem)
    ensures !ok ==> Full(old(flash.mem)) && (LastRecord(flash.mem).None? || LastRecord(flash.mem) in Entries(old(flash.mem)))
  {
    hide Decode, Entries, LastRecord, TornErase, Erase;
    used := ProgressCount(flash);
    ok := true;
    if used >= RECORDS {
      ok := flash.EraseSector(PROGRESS_SECTOR);
      EraseStaysInLog(old(flash.mem), flash.mem);
      if ok {
        LastAfterErase(old(flash.mem));
      } else {
        LastAfterTornErase(old(flash.mem), flash.mem);
      }
      used := 0;
    }
  }

  method ProgressWrite(flash: Flash, p: Progress) returns (ok: bool)
    requires flash.Ready()
    modifies flash
    ensures |flash.mem| == FLASH_SIZE && ok == flash.on
    ensures ok && !AllFF(Encode(Numbered(old(flash.mem), p))) ==> Logged(old(flash.mem), flash.mem, p)
    ensures ok && AllFF(Encode(Numbered(old(flash.mem), p))) ==>
      && OnlyLogChanged(old(flash.mem), flash.mem)
      && LastRecord(flash.mem) == if Full(old(flash.mem)) then None else LastRecord(old(flash.mem))
    ensures !ok ==> CutWhileLogging(old(flash.mem), flash.mem, p)
  {
    hide Decode, Encode, Entries, LastRecord, Full, CanTake, Torn;
    var last := ProgressRead(flash);
    var lastNumber: u32 := if last.Some? then last.value.number else 0;
    var room, used := MakeRoom(flash);
    if !room {
      return false;
    }
    ghost var m := flash.mem;
    var rec := Encode(p.(number := (lastNumber + 1) % 0x1_0000_0000));
    assert AllFF(RecordAt(m, used));
    ErasedTakes(m, RecordBase(used), rec);
    ghost var words;
    ok, words := flash.Program(RecordBase(used), rec);
    LastAfterAppend(m, used, Numbered(old(flash.mem), p), words);
    TornIsHarmless(Numbered(old(flash.mem), p), words);
  }

  lemma EraseStaysInLog(m: seq<byte>, m': seq<byte>)
    requires |m| == |m'| == FLASH_SIZE
    requires m' == Erase(m, PROGRESS_SECTOR) || TornErase(m, m', PROGRESS_SECTOR)
    ensures OnlyLogChanged(m, m')
  {
  }
}

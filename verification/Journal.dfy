/** firmware/common/journal.c: the boot state in two append-only flash banks. */
module Journal {
  import opened Bytes
  import opened Options
  import opened FlashMemory
  import Crc32

  const RECORD: nat := 16
  const RECORDS: nat := 1024  // per bank

  const SLOT_A: byte := 0
  const SLOT_B: byte := 1
  const SLOT_NONE: byte := 0xFF

  datatype BootState = BootState(number: u32, active: byte, pending: byte, attempts: byte, confirmed: byte)

  const DefaultState := BootState(0, SLOT_A, SLOT_NONE, 0, 0)

  /** Flash sectors 2 and 3. */
  function BankBase(bank: nat): nat {
    0x8000 + 0x4000 * bank
  }

  function RecordBase(bank: nat, i: nat): nat {
    BankBase(bank) + RECORD * i
  }

  function RecordAt(m: seq<byte>, bank: nat, i: nat): (r: seq<byte>)
    requires |m| == FLASH_SIZE && bank < 2 && i < RECORDS
    ensures |r| == RECORD
  {
    Window(m, RecordBase(bank, i), RECORD)
  }

  predicate InRange(s: BootState) {
    s.active <= SLOT_B && (s.pending <= SLOT_B || s.pending == SLOT_NONE)
  }

  function Body(s: BootState): (r: seq<byte>)
    ensures |r| == 12
  {
    ToLe32(s.number) + [s.active, s.pending, s.attempts, s.confirmed] + [FF, FF, FF, FF]
  }

  function Encode(s: BootState): (r: seq<byte>)
    ensures |r| == RECORD
  {
    Body(s) + Crc32.CrcBytes(Body(s))
  }

  function Decode(r: seq<byte>): Option<BootState>
    requires |r| == RECORD
  {
    if AllFF(r) || !Intact(r) then None else
    var s := BootState(Le32(r[..4]), r[4], r[5], r[6], r[7]);
    if InRange(s) then Some(s) else None
  }

  /** What the records of a bank decode to. */
  function Entries(m: seq<byte>, bank: nat): (e: seq<Option<BootState>>)
    requires |m| == FLASH_SIZE && bank < 2
    ensures |e| == RECORDS
    ensures forall i :: 0 <= i < RECORDS ==> e[i] == Decode(RecordAt(m, bank, i))
  {
    seq(RECORDS, i requires 0 <= i < RECORDS => Decode(RecordAt(m, bank, i)))
  }

  /** Index just past the last non-erased record among the first `n`. */
  function Used(m: seq<byte>, bank: nat, n: nat): (u: nat)
    requires |m| == FLASH_SIZE && bank < 2 && n <= RECORDS
    ensures u <= n
    ensures u > 0 ==> !AllFF(RecordAt(m, bank, u - 1))
    ensures forall i :: u <= i < n ==> AllFF(RecordAt(m, bank, i))
  {
    if n == 0 || !AllFF(RecordAt(m, bank, n - 1)) then n else Used(m, bank, n - 1)
  }

  /** The first of the valid records with the highest number. */
  function Best(e: seq<Option<BootState>>): Option<BootState> {
    if e == [] then None else
    var before, s := Best(e[..|e| - 1]), e[|e| - 1];
    if s.Some? && (before.None? || s.value.number > before.value.number) then s else before
  }

  datatype Current = Current(bank: int, state: BootState)

  function Choose(b0: Option<BootState>, b1: Option<BootState>): Current {
    if b0.Some? && (b1.None? || b0.value.number >= b1.value.number) then Current(0, b0.value)
    else if b1.Some? then Current(1, b1.value)
    else Current(-1, DefaultState)
  }

  function CurrentOf(m: seq<byte>): (c: Current)
    requires |m| == FLASH_SIZE
    ensures -1 <= c.bank < 2
  {
    Choose(Best(Entries(m, 0)), Best(Entries(m, 1)))
  }

  /** The register that the two banks implement. */
  function Value(m: seq<byte>): BootState
    requires |m| == FLASH_SIZE
  {
    CurrentOf(m).state
  }

  // ----- what the scans find -----

  /** `Best` is what it says: it belongs to a valid record, and no valid record has a
      higher number. */
  lemma {:induction false} BestIsHighest(e: seq<Option<BootState>>)
    ensures Best(e).None? ==> forall i :: 0 <= i < |e| ==> e[i].None?
    ensures Best(e).Some? ==> Best(e) in e
    ensures Best(e).Some? ==> forall i :: 0 <= i < |e| && e[i].Some? ==> e[i].value.number <= Best(e).value.number
  {
    if e != [] {
      BestIsHighest(e[..|e| - 1]);
    }
  }

  lemma {:induction false} NoneAddNothing(e: seq<Option<BootState>>, used: nat)
    requires used <= |e| && forall i :: used <= i < |e| ==> e[i].None?
    ensures Best(e) == Best(e[..used])
  {
    if used < |e| {
      NoneAddNothing(e[..|e| - 1], used);
      assert e[..|e| - 1][..used] == e[..used];
    } else {
      assert e[..used] == e;
    }
  }

  lemma {:induction false} BestShrinks(e: seq<Option<BootState>>, e': seq<Option<BootState>>)
    requires |e| == |e'| && forall i :: 0 <= i < |e| ==> e'[i].None? || e'[i] == e[i]
    ensures Best(e').Some? ==> Best(e).Some? && Best(e').value.number <= Best(e).value.number
  {
    BestIsHighest(e);
    BestIsHighest(e');
  }

  /** A record with a higher number than all others is the best one, wherever it stands. */
  lemma {:induction false} BestGains(e: seq<Option<BootState>>, k: nat, s: BootState)
    requires k < |e|
    requires Best(e).Some? ==> Best(e).value.number < s.number
    ensures Best(e[k := Some(s)]) == Some(s)
  {
    BestIsHighest(e);
    BestIsHighest(e[k := Some(s)]);
    assert e[k := Some(s)][k] == Some(s);
  }

  // ----- what a record looks like while it is being written -----

  lemma DecodeEncode(s: BootState)
    ensures Decode(Encode(s)) == if InRange(s) then Some(s) else None
  {
    hide Crc32.CrcBytes;
    var r := Encode(s);
    assert r[..12] == Body(s) && r[12..] == Crc32.CrcBytes(Body(s));
    assert r[..4] == ToLe32(s.number);
    if AllFF(r) {
      assert r[4] == FF;
      assert !InRange(s);
    }
  }

  function Torn(s: BootState, words: nat): (r: seq<byte>)
    requires words <= 4
    ensures |r| == RECORD
  {
    Partial(Encode(s), words)
  }

  /** A record cut after any number of words decodes to nothing or to the whole state,
      whatever the CRC happens to be. */
  lemma TornIsNothingOrWhole(s: BootState, words: nat)
    requires words <= 4
    ensures Decode(Torn(s, words)).None? || (InRange(s) && Decode(Torn(s, words)) == Some(s))
    ensures words <= 1 ==> Decode(Torn(s, words)).None?
    ensures words == 4 && InRange(s) ==> Decode(Torn(s, words)) == Some(s)
  {
    hide Crc32.CrcBytes;
    var r := Torn(s, words);
    DecodeEncode(s);
    if words == 4 {
      assert r == Encode(s);
    } else if words <= 1 {
      assert r[4] == FF;
    } else {
      assert r[..4] == ToLe32(s.number);
      assert r[4] == s.active && r[5] == s.pending && r[6] == s.attempts && r[7] == s.confirmed;
    }
  }

  // ----- what each flash operation does to the entries -----

  lemma EntriesFrame(m: seq<byte>, m': seq<byte>, bank: nat)
    requires |m| == |m'| == FLASH_SIZE && bank < 2
    requires m[BankBase(bank)..BankBase(bank + 1)] == m'[BankBase(bank)..BankBase(bank + 1)]
    ensures Entries(m', bank) == Entries(m, bank)
  {
    hide Crc32.CrcBytes, Decode;
    forall i | 0 <= i < RECORDS
      ensures RecordAt(m', bank, i) == RecordAt(m, bank, i)
    {
      SliceOfSlice(m, BankBase(bank), BankBase(bank + 1), RECORD * i, RECORD * i + RECORD);
      SliceOfSlice(m', BankBase(bank), BankBase(bank + 1), RECORD * i, RECORD * i + RECORD);
    }
  }

  lemma EntriesFrameOutside(m: seq<byte>, m': seq<byte>, bank: nat)
    requires |m| == |m'| == FLASH_SIZE && bank < 2
    requires SameOutside(m, m', BankBase(bank), BankBase(bank + 1))
    ensures Entries(m', 1 - bank) == Entries(m, 1 - bank)
  {
    EntriesFrame(m, m', 1 - bank);
  }

  lemma RecordsAfterAppend(m: seq<byte>, bank: nat, k: nat, rec: seq<byte>, words: nat)
    requires |m| == FLASH_SIZE && bank < 2 && k < RECORDS && words <= 4 && |rec| == RECORD
    requires AllFF(RecordAt(m, bank, k))
    ensures var m' := Splice(m, RecordBase(bank, k), rec[..4 * words]);
            && RecordAt(m', bank, k) == Partial(rec, words)
            && (forall i :: 0 <= i < RECORDS && i != k ==> RecordAt(m', bank, i) == RecordAt(m, bank, i))
            && SameOutside(m, m', BankBase(bank), BankBase(bank + 1))
  {
    var m' := Splice(m, RecordBase(bank, k), rec[..4 * words]);
    var was := RecordAt(m, bank, k);
    forall j | 0 <= j < RECORD
      ensures RecordAt(m', bank, k)[j] == Partial(rec, words)[j]
    {
      assert was[j] == FF;
    }
  }

  lemma EntriesAfterAppend(m: seq<byte>, bank: nat, k: nat, s: BootState, words: nat)
    requires |m| == FLASH_SIZE && bank < 2 && k < RECORDS && words <= 4
    requires AllFF(RecordAt(m, bank, k))
    ensures var m' := Splice(m, RecordBase(bank, k), Encode(s)[..4 * words]);
            && Entries(m', bank) == Entries(m, bank)[k := Decode(Torn(s, words))]
            && Entries(m', 1 - bank) == Entries(m, 1 - bank)
  {
    RecordsAfterAppend(m, bank, k, Encode(s), words);
    var m' := Splice(m, RecordBase(bank, k), Encode(s)[..4 * words]);
    EntriesFrameOutside(m, m', bank);
    OneEntry(Entries(m', bank), Entries(m, bank), k, Decode(Torn(s, words)));
  }

  lemma EntriesAfterErase(m: seq<byte>, bank: nat)
    requires |m| == FLASH_SIZE && bank < 2
    ensures var m' := Erase(m, 2 + bank);
            && (forall i :: 0 <= i < RECORDS ==> AllFF(RecordAt(m', bank, i)) && Entries(m', bank)[i].None?)
            && Entries(m', 1 - bank) == Entries(m, 1 - bank)
  {
    EntriesFrameOutside(m, Erase(m, 2 + bank), bank);
  }

  lemma EntriesAfterTornErase(m: seq<byte>, m': seq<byte>, bank: nat)
    requires |m| == |m'| == FLASH_SIZE && bank < 2 && TornErase(m, m', 2 + bank)
    ensures forall i :: 0 <= i < RECORDS ==> Entries(m', bank)[i].None? || Entries(m', bank)[i] == Entries(m, bank)[i]
    ensures Entries(m', 1 - bank) == Entries(m, 1 - bank)
  {
    EntriesFrameOutside(m, m', bank);
    forall i | 0 <= i < RECORDS
      ensures Entries(m', bank)[i].None? || Entries(m', bank)[i] == Entries(m, bank)[i]
    {
      var at := RecordBase(bank, i);
      assert (at - BankBase(bank)) % 16 == 0;
      assert NotForged(RecordAt(m, bank, i), RecordAt(m', bank, i));
      UnforgedDecodes(RecordAt(m, bank, i), RecordAt(m', bank, i));
    }
  }

  lemma UnforgedDecodes(r: seq<byte>, r': seq<byte>)
    requires |r| == |r'| == RECORD && NotForged(r, r')
    ensures Decode(r').None? || Decode(r') == Decode(r)
  {
  }

  // ----- the functions of the source -----

  method BankUsed(flash: Flash, bank: nat) returns (used: nat)
    requires |flash.mem| == FLASH_SIZE && bank < 2
    ensures used == Used(flash.mem, bank, RECORDS)
  {
    used := RECORDS;
    while used > 0
      invariant used <= RECORDS && Used(flash.mem, bank, RECORDS) == Used(flash.mem, bank, used)
    {
      if !AllFF(RecordAt(flash.mem, bank, used - 1)) {
        return;
      }
      used := used - 1;
    }
  }

  method RecordDecode(flash: Flash, bank: nat, i: nat) returns (s: Option<BootState>)
    requires |flash.mem| == FLASH_SIZE && bank < 2 && i < RECORDS
    ensures s == Entries(flash.mem, bank)[i]
  {
    var r := RecordAt(flash.mem, bank, i);
    if AllFF(r) {
      return None;
    }
    if Crc32.CrcBytes(r[..12]) != r[12..] {
      return None;
    }
    var d := BootState(Le32(r[..4]), r[4], r[5], r[6], r[7]);
    if d.active > SLOT_B || (d.pending > SLOT_B && d.pending != SLOT_NONE) {
      return None;
    }
    s := Some(d);
  }

  lemma ErasedTail(m: seq<byte>, bank: nat, used: nat)
    requires |m| == FLASH_SIZE && bank < 2
    requires forall i :: used <= i < RECORDS ==> AllFF(RecordAt(m, bank, i))
    ensures forall i :: used <= i < RECORDS ==> Entries(m, bank)[i].None?
  {
    hide Crc32.CrcBytes;
  }

  method BankBest(flash: Flash, bank: nat) returns (best: Option<BootState>)
    requires |flash.mem| == FLASH_SIZE && bank < 2
    ensures best == Best(Entries(flash.mem, bank))
  {
    hide Decode;
    ghost var e := Entries(flash.mem, bank);
    best := None;
    var used := BankUsed(flash, bank);
    for i := 0 to used
      invariant best == Best(e[..i])
    {
      var s := RecordDecode(flash, bank, i);
      if s.Some? && (best.None? || s.value.number > best.value.number) {
        best := s;
      }
      assert e[..i + 1][..i] == e[..i];
    }
    ErasedTail(flash.mem, bank, used);
    NoneAddNothing(e, used);
  }

  method CurrentBank(flash: Flash) returns (c: Current)
    requires |flash.mem| == FLASH_SIZE
    ensures c == CurrentOf(flash.mem)
  {
    var b0 := BankBest(flash, 0);
    var b1 := BankBest(flash, 1);
    if b0.Some? && (b1.None? || b0.value.number >= b1.value.number) {
      return Current(0, b0.value);
    }
    if b1.Some? {
      return Current(1, b1.value);
    }
    c := Current(-1, DefaultState);
  }

  method JournalRead(flash: Flash) returns (present: bool, s: BootState)
    requires |flash.mem| == FLASH_SIZE
    ensures s == Value(flash.mem) && present == (CurrentOf(flash.mem).bank >= 0)
  {
    var c := CurrentBank(flash);
    present, s := c.bank >= 0, c.state;
  }

  function Next(was: BootState, s: BootState): BootState
    requires was.number < 0xFFFF_FFFF
  {
    s.(number := was.number + 1)
  }

  /** What a write of `s` leaves when it comes to its end. With the numbers used up the new
      record is numbered 0 and never read. */
  ghost predicate Written(m: seq<byte>, m': seq<byte>, s: BootState)
    requires |m| == |m'| == FLASH_SIZE
  {
    && Value(m') == (if InRange(s) && Value(m).number < 0xFFFF_FFFF then Next(Value(m), s) else Value(m))
    && SameOutside(m, m', BankBase(0), BankBase(2))
  }

  /** What a write of `s` leaves when the supply fails somewhere inside it. */
  ghost predicate CutWhileWriting(m: seq<byte>, m': seq<byte>, s: BootState)
    requires |m| == |m'| == FLASH_SIZE
  {
    && (Value(m') == Value(m) || (InRange(s) && Value(m).number < 0xFFFF_FFFF && Value(m') == Next(Value(m), s)))
    && SameOutside(m, m', BankBase(0), BankBase(2))
  }

  /** An erase of the bank that does not hold the current record, complete or not, changes
      neither the current record nor where it is found. */
  lemma EraseKeepsCurrent(m: seq<byte>, m': seq<byte>, target: nat)
    requires |m| == |m'| == FLASH_SIZE && target < 2
    requires CurrentOf(m).bank != target
    requires m' == Erase(m, 2 + target) || TornErase(m, m', 2 + target)
    ensures CurrentOf(m') == CurrentOf(m)
  {
    hide Crc32.CrcBytes, Decode, Entries, TornErase, Erase;
    if m' == Erase(m, 2 + target) {
      EntriesAfterErase(m, target);
    } else {
      EntriesAfterTornErase(m, m', target);
    }
    BestShrinks(Entries(m, target), Entries(m', target));
  }

  lemma CurrentGains(m: seq<byte>, m': seq<byte>, target: nat, k: nat, d: Option<BootState>, s: BootState)
    requires |m| == |m'| == FLASH_SIZE && target < 2 && k < RECORDS
    requires Value(m).number < s.number && (d == None || d == Some(s))
    requires Entries(m, target)[k] == None
    requires Entries(m', target) == Entries(m, target)[k := d] && Entries(m', 1 - target) == Entries(m, 1 - target)
    ensures CurrentOf(m') == if d == None then CurrentOf(m) else Current(target, s)
  {
    var e := Entries(m, target);
    if d.None? {
      assert e[k := None] == e;
    } else {
      BestGains(e, k, s);
    }
  }

  /** Appending any number of words of a higher-numbered record shows nothing or all of it. */
  lemma AppendIsAtomic(m: seq<byte>, target: nat, k: nat, s: BootState, words: nat)
    requires |m| == FLASH_SIZE && target < 2 && k < RECORDS && words <= 4
    requires AllFF(RecordAt(m, target, k)) && Value(m).number < s.number
    ensures var m' := Splice(m, RecordBase(target, k), Encode(s)[..4 * words]);
            && (Value(m') == Value(m) || (InRange(s) && Value(m') == s))
            && (words == 4 ==> Value(m') == if InRange(s) then s else Value(m))
            && SameOutside(m, m', BankBase(0), BankBase(2))
  {
    EntriesAfterAppend(m, target, k, s, words);
    RecordsAfterAppend(m, target, k, Encode(s), words);
    TornIsNothingOrWhole(s, words);
    CurrentGains(m, Splice(m, RecordBase(target, k), Encode(s)[..4 * words]), target, k, Decode(Torn(s, words)), s);
  }

  lemma BestIgnoresLower(e: seq<Option<BootState>>, k: nat, s: BootState)
    requires k < |e| && e[k] == None
    ensures Best(e).Some? && s.number < Best(e).value.number ==> Best(e[k := Some(s)]) == Best(e)
    ensures Best(e[k := Some(s)]).Some? && (Best(e[k := Some(s)]) == Some(s) || Best(e[k := Some(s)]) == Best(e))
  {
    BestWithOneMore(e, k, s);
  }

  lemma {:induction false} BestWithOneMore(e: seq<Option<BootState>>, k: nat, s: BootState)
    requires k < |e| && e[k] == None
    ensures var b, b' := Best(e), Best(e[k := Some(s)]);
      if b.None? || s.number > b.value.number then b' == Some(s)
      else b' == b || (s.number == b.value.number && b' == Some(s))
  {
    var n := |e| - 1;
    var e' := e[k := Some(s)];
    if k == n {
      assert e'[..n] == e[..n];
    } else {
      assert e'[..n] == e[..n][k := Some(s)];
      BestWithOneMore(e[..n], k, s);
    }
  }

  /** Appending any number of words of a lower-numbered record shows nothing. */
  lemma AppendBelowShowsNothing(m: seq<byte>, target: nat, k: nat, s: BootState, words: nat)
    requires |m| == FLASH_SIZE && target < 2 && k < RECORDS && words <= 4
    requires AllFF(RecordAt(m, target, k)) && s.number < Value(m).number
    ensures var m' := Splice(m, RecordBase(target, k), Encode(s)[..4 * words]);
            CurrentOf(m') == CurrentOf(m) && SameOutside(m, m', BankBase(0), BankBase(2))
  {
    hide Crc32.CrcBytes, Entries, Best, Encode, Torn;
    EntriesAfterAppend(m, target, k, s, words);
    RecordsAfterAppend(m, target, k, Encode(s), words);
    TornIsNothingOrWhole(s, words);
    var e := Entries(m, target);
    BestIgnoresLower(e, k, s);
    if Decode(Torn(s, words)).None? {
      assert e[k := None] == e;
    }
  }

  // ----- the shape of a journal that only this code has written -----

  ghost predicate NoGap(m: seq<byte>, bank: nat)
    requires |m| == FLASH_SIZE && bank < 2
  {
    forall i, j :: 0 <= i < j < RECORDS && AllFF(RecordAt(m, bank, i)) ==> AllFF(RecordAt(m, bank, j))
  }

  ghost predicate Below(e: seq<Option<BootState>>, number: int) {
    forall i :: 0 <= i < |e| && e[i].Some? ==> e[i].value.number < number
  }

  /** No erased record comes before a used one in the current bank, and the valid records
      that the other bank still holds are all older than the current one. */
  ghost predicate Tidy(m: seq<byte>)
    requires |m| == FLASH_SIZE
  {
    var c := CurrentOf(m);
    c.bank >= 0 ==> NoGap(m, c.bank) && Below(Entries(m, 1 - c.bank), c.state.number)
  }

  lemma BankFrame(m: seq<byte>, m': seq<byte>, bank: nat)
    requires |m| == |m'| == FLASH_SIZE && bank < 2
    requires SameOutside(m, m', BankBase(bank), BankBase(bank + 1))
    ensures NoGap(m, 1 - bank) == NoGap(m', 1 - bank)
  {
    hide Crc32.CrcBytes;
    var other := 1 - bank;
    forall i | 0 <= i < RECORDS
      ensures RecordAt(m', other, i) == RecordAt(m, other, i)
    {
    }
  }

  lemma EraseStaysInBank(m: seq<byte>, m': seq<byte>, target: nat)
    requires |m| == |m'| == FLASH_SIZE && target < 2
    requires m' == Erase(m, 2 + target) || TornErase(m, m', 2 + target)
    ensures SameOutside(m, m', BankBase(target), BankBase(target + 1))
  {
  }

  lemma EraseKeepsTidy(m: seq<byte>, m': seq<byte>, target: nat)
    requires |m| == |m'| == FLASH_SIZE && target < 2 && Tidy(m)
    requires CurrentOf(m).bank != target
    requires m' == Erase(m, 2 + target) || TornErase(m, m', 2 + target)
    ensures Tidy(m')
  {
    hide Crc32.CrcBytes, Decode, Entries, CurrentOf, TornErase, Erase, NoGap;
    EraseKeepsCurrent(m, m', target);
    EraseStaysInBank(m, m', target);
    BankFrame(m, m', target);
    if m' == Erase(m, 2 + target) {
      EntriesAfterErase(m, target);
    } else {
      EntriesAfterTornErase(m, m', target);
    }
  }

  /** Where a new record may go: behind the last used one of the current bank, or first in a
      bank that is blank. */
  ghost predicate NextPlace(m: seq<byte>, target: nat, k: nat)
    requires |m| == FLASH_SIZE
  {
    && target < 2 && k < RECORDS
    && (forall i :: k <= i < RECORDS ==> AllFF(RecordAt(m, target, i)))
    && (k > 0 ==> target == CurrentOf(m).bank && !AllFF(RecordAt(m, target, k - 1)))
  }

  lemma AppendKeepsNoGap(m: seq<byte>, target: nat, k: nat, s: BootState, words: nat)
    requires |m| == FLASH_SIZE && words <= 4 && NextPlace(m, target, k) && s.number < 0xFFFF_FFFF
    requires k > 0 ==> NoGap(m, target)
    ensures NoGap(Splice(m, RecordBase(target, k), Encode(s)[..4 * words]), target)
  {
    hide Crc32.CrcBytes, CurrentOf;
    var m' := Splice(m, RecordBase(target, k), Encode(s)[..4 * words]);
    RecordsAfterAppend(m, target, k, Encode(s), words);
    if words > 0 {
      StartedIsNotErased(s, words);
    } else {
      assert Torn(s, 0) == RecordAt(m, target, k);
    }
  }

  lemma StartedIsNotErased(s: BootState, words: nat)
    requires 0 < words <= 4 && s.number < 0xFFFF_FFFF
    ensures !AllFF(Torn(s, words))
  {
    hide Crc32.CrcBytes;
    var r := Torn(s, words);
    assert r[..4] == ToLe32(s.number);
    assert Le32(r[..4]) == s.number;
  }

  /** No valid record anywhere has a higher number than the current one. */
  lemma ValueIsHighest(m: seq<byte>, bank: nat)
    requires |m| == FLASH_SIZE && bank < 2
    ensures Below(Entries(m, bank), Value(m).number + 1)
  {
    hide Crc32.CrcBytes, Decode, Entries, Best;
    BestIsHighest(Entries(m, 0));
    BestIsHighest(Entries(m, 1));
  }

  lemma AppendKeepsTidy(m: seq<byte>, target: nat, k: nat, s: BootState, words: nat)
    requires |m| == FLASH_SIZE && words <= 4 && NextPlace(m, target, k)
    requires Tidy(m) && Value(m).number < s.number < 0xFFFF_FFFF
    ensures Tidy(Splice(m, RecordBase(target, k), Encode(s)[..4 * words]))
  {
    hide Crc32.CrcBytes, Decode, Entries, Encode, Torn, CurrentOf, NoGap;
    var m' := Splice(m, RecordBase(target, k), Encode(s)[..4 * words]);
    EntriesAfterAppend(m, target, k, s, words);
    RecordsAfterAppend(m, target, k, Encode(s), words);
    TornIsNothingOrWhole(s, words);
    AppendKeepsNoGap(m, target, k, s, words);
    BankFrame(m, m', target);
    ErasedTail(m, target, k);
    CurrentGains(m, m', target, k, Decode(Torn(s, words)), s);
    ValueIsHighest(m, 1 - target);
    var e := Entries(m, target);
    if Decode(Torn(s, words)).None? {
      assert e[k := None] == e;
    }
  }

  /** The choice of the record to write: after the last used one of the current bank, or the
      first one of the other bank, which is erased for it. */
  method MakeRoom(flash: Flash, cur: Current) returns (ok: bool, target: nat, index: nat)
    requires flash.Ready() && cur == CurrentOf(flash.mem)
    modifies flash
    ensures |flash.mem| == FLASH_SIZE && ok == flash.on
    ensures CurrentOf(flash.mem) == cur
    ensures SameOutside(old(flash.mem), flash.mem, BankBase(0), BankBase(2))
    ensures ok ==> NextPlace(flash.mem, target, index)
    ensures old(Tidy(flash.mem)) ==> Tidy(flash.mem)
    ensures cur.bank >= 0 && flash.mem != old(flash.mem) ==> SameOutside(old(flash.mem), flash.mem, BankBase(1 - cur.bank), BankBase(2 - cur.bank))
  {
    hide Crc32.CrcBytes, Decode, CurrentOf, Tidy, Entries, TornErase, Erase, Window;
    target, index := 0, 0;
    if cur.bank < 0 {
      index := BankUsed(flash, 0);
      if index == 0 {
        return true, 0, 0;
      }
    } else {
      target := cur.bank;
      index := BankUsed(flash, target);
      if index < RECORDS {
        return true, target, index;
      }
      target := 1 - target;
    }
    ok := flash.EraseSector(2 + target);
    EraseKeepsCurrent(old(flash.mem), flash.mem, target);
    EraseStaysInBank(old(flash.mem), flash.mem, target);
    if old(Tidy(flash.mem)) {
      EraseKeepsTidy(old(flash.mem), flash.mem, target);
    }
    if ok {
      EntriesAfterErase(old(flash.mem), target);
    }
    index := 0;
  }

  method JournalWrite(flash: Flash, state: BootState) returns (ok: bool, written: BootState)
    requires flash.Ready()
    modifies flash
    ensures |flash.mem| == FLASH_SIZE
    ensures ok == flash.on
    ensures written == state.(number := (Value(old(flash.mem)).number + 1) % 0x1_0000_0000)
    ensures ok ==> Written(old(flash.mem), flash.mem, state)
    ensures !ok ==> CutWhileWriting(old(flash.mem), flash.mem, state)
    ensures old(Tidy(flash.mem)) && Value(old(flash.mem)).number < 0xFFFF_FFFE ==> Tidy(flash.mem)
  {
    hide Encode, CurrentOf, Tidy, CanTake;
    var cur := CurrentBank(flash);
    written := state.(number := (cur.state.number + 1) % 0x1_0000_0000);
    var room, target, index := MakeRoom(flash, cur);
    if !room {
      return false, written;
    }
    ghost var m := flash.mem;
    assert AllFF(RecordAt(m, target, index));
    var rec := Encode(written);
    var free := flash.IsErased(RecordBase(target, index), RECORD);
    if !free {
      assert false;
      return false, written;
    }
    ErasedTakes(m, RecordBase(target, index), rec);
    ghost var words;
    ok, words := flash.Program(RecordBase(target, index), rec);
    if written.number > 0 {
      AppendIsAtomic(m, target, index, written, words);
    } else {
      AppendBelowShowsNothing(m, target, index, written, words);
    }
    if old(Tidy(flash.mem)) && 0 < written.number < 0xFFFF_FFFF {
      AppendKeepsTidy(m, target, index, written, words);
    }
  }

  // ----- any number of writes -----

  /** A write and whether it came to its end. */
  datatype Attempt = Attempt(state: BootState, complete: bool)

  /** Memories before, between and after the writes. */
  ghost predicate Attempts(ms: seq<seq<byte>>, writes: seq<Attempt>) {
    && |ms| == |writes| + 1
    && (forall k :: 0 <= k < |ms| ==> |ms[k]| == FLASH_SIZE)
    && (forall k :: 0 <= k < |writes| ==> InRange(writes[k].state))
    && (forall k :: 0 <= k < |writes| ==>
         if writes[k].complete then Written(ms[k], ms[k + 1], writes[k].state) else CutWhileWriting(ms[k], ms[k + 1], writes[k].state))
  }

  /** A register that takes the writes that are marked, and numbers them, while there are
      numbers left. */
  function Replay(first: BootState, writes: seq<Attempt>, taken: seq<bool>): BootState
    requires |writes| == |taken|
  {
    if writes == [] then first else
      var n := |writes| - 1;
      var before := Replay(first, writes[..n], taken[..n]);
      if taken[n] && before.number < 0xFFFF_FFFF then Next(before, writes[n].state) else before
  }

  /** The journal is a register: after any number of writes, cut or not, it reads as if every
      complete write and some of the cut ones had been taken, one by one, and no other. */
  lemma {:induction false} JournalIsRegister(ms: seq<seq<byte>>, writes: seq<Attempt>) returns (taken: seq<bool>)
    requires Attempts(ms, writes)
    ensures |taken| == |writes| && forall k :: 0 <= k < |writes| && writes[k].complete ==> taken[k]
    ensures Value(ms[|writes|]) == Replay(Value(ms[0]), writes, taken)
  {
    hide Value;
    if writes == [] {
      taken := [];
    } else {
      var n := |writes| - 1;
      FewerAttempts(ms, writes);
      var before := JournalIsRegister(ms[..n + 1], writes[..n]);
      taken := before + [writes[n].complete || Value(ms[n + 1]) != Value(ms[n])];
      assert taken[..n] == before;
    }
  }

  lemma FewerAttempts(ms: seq<seq<byte>>, writes: seq<Attempt>)
    requires Attempts(ms, writes) && writes != []
    ensures Attempts(ms[..|writes|], writes[..|writes| - 1])
  {
    hide Value, Written, CutWhileWriting;
  }
}

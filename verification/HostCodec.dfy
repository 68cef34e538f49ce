/** tools/bootjournal.py: the second implementation of the journal format, on the host, and
    its agreement with the firmware. */
module HostCodec {
  import opened Bytes
  import opened Options
  import opened FlashMemory
  import Crc32
  import J = Journal

  const RECORD_SIZE := 16
  const NONE_WORD := 0xFFFF_FFFF

  /** `pack_record`; `struct.pack` refuses values that do not fit their field. */
  function PackRecord(number: u32, active: byte, pending: byte, attempts: byte, confirmed: byte): (r: seq<byte>)
    ensures r == J.Encode(J.BootState(number, active, pending, attempts, confirmed))
  {
    hide Crc32.CrcBytes;
    var body := ToLe32(number) + [active, pending, attempts, confirmed] + ToLe32(NONE_WORD);
    assert ToLe32(NONE_WORD) == [FF, FF, FF, FF];
    body + Crc32.CrcBytes(body)
  }

  /** `torn_record`; more than four words are the whole record. */
  function TornRecord(number: u32, active: byte, pending: byte, attempts: byte, confirmed: byte, words: nat): (r: seq<byte>)
    ensures r == J.Torn(J.BootState(number, active, pending, attempts, confirmed), Min(words, 4))
  {
    hide Crc32.CrcBytes, J.Encode;
    var full := PackRecord(number, active, pending, attempts, confirmed);
    CutAt(full, words);
    full[..Min(4 * words, RECORD_SIZE)] + Blank(RECORD_SIZE - Min(4 * words, RECORD_SIZE))
  }

  lemma CutAt(full: seq<byte>, words: nat)
    requires |full| == RECORD_SIZE
    ensures full[..Min(4 * words, RECORD_SIZE)] + Blank(RECORD_SIZE - Min(4 * words, RECORD_SIZE)) == Partial(full, Min(words, 4))
  {
    assert Min(4 * words, RECORD_SIZE) == 4 * Min(words, 4);
  }

  /** A record as the host reads it: there is no check of the ranges. */
  function HostRecord(r: seq<byte>): Option<J.BootState>
    requires |r| == RECORD_SIZE
  {
    if Intact(r) then Some(J.BootState(Le32(r[..4]), r[4], r[5], r[6], r[7])) else None
  }

  /** The records up to the first erased one. */
  function Scan(data: seq<byte>): seq<Option<J.BootState>>
    requires |data| % RECORD_SIZE == 0
  {
    if data == [] || AllFF(data[..RECORD_SIZE]) then [] else [HostRecord(data[..RECORD_SIZE])] + Scan(data[RECORD_SIZE..])
  }

  lemma ScanNext(data: seq<byte>, off: nat)
    requires |data| % RECORD_SIZE == 0 && off % RECORD_SIZE == 0 && off < |data|
    ensures var rec := data[off..off + RECORD_SIZE];
      Scan(data[off..]) == if rec == Blank(RECORD_SIZE) then [] else [HostRecord(rec)] + Scan(data[off + RECORD_SIZE..])
  {
    hide HostRecord;
    var rec := data[off..off + RECORD_SIZE];
    assert data[off..][..RECORD_SIZE] == rec && data[off..][RECORD_SIZE..] == data[off + RECORD_SIZE..];
    BlankOrNot(rec);
  }

  /** The data without an incomplete record at its end. */
  function Whole(data: seq<byte>): (w: seq<byte>)
    ensures |w| % RECORD_SIZE == 0 && |data| - RECORD_SIZE < |w| <= |data|
  {
    data[..|data| - |data| % RECORD_SIZE]
  }

  /** The scan gets to an incomplete record, which `struct.unpack` refuses. */
  predicate Raises(data: seq<byte>) {
    |data| % RECORD_SIZE != 0 && RECORD_SIZE * |Scan(Whole(data))| == |Whole(data)|
  }

  /** `parse_bank`; None is the exception. */
  method ParseBank(data: seq<byte>) returns (out: Option<seq<Option<J.BootState>>>)
    ensures out == if Raises(data) then None else Some(Scan(Whole(data)))
  {
    hide Crc32.CrcBytes, Le32, Scan;
    ghost var whole := Whole(data);
    var records := [];
    var off := 0;
    assert whole[0..] == whole;
    while off < |data|
      invariant 0 <= off <= |whole| && off % RECORD_SIZE == 0 && off == RECORD_SIZE * |records|
      invariant Scan(whole) == records + Scan(whole[off..])
    {
      var rec := data[off..Min(off + RECORD_SIZE, |data|)];
      if |rec| < RECORD_SIZE {
        ScanEnd(whole, off);
        assert records + [] == records;
        return None;
      }
      WholeRecord(data, off);
      ScanNext(whole, off);
      if rec == Blank(RECORD_SIZE) {
        assert records + [] == records;
        return Some(records);
      }
      if Crc32.CrcBytes(rec[..12]) != rec[12..] {
        records := records + [None];
      } else {
        records := records + [Some(J.BootState(Le32(rec[..4]), rec[4], rec[5], rec[6], rec[7]))];
      }
      off := off + RECORD_SIZE;
    }
    ScanEnd(whole, off);
    assert records + [] == records;
    out := Some(records);
  }

  lemma WholeRecord(data: seq<byte>, off: nat)
    requires off % RECORD_SIZE == 0 && off + RECORD_SIZE <= |data|
    ensures off + RECORD_SIZE <= |Whole(data)| && Whole(data)[off..off + RECORD_SIZE] == data[off..off + RECORD_SIZE]
  {
  }

  lemma ScanEnd(data: seq<byte>, off: nat)
    requires |data| % RECORD_SIZE == 0 && off == |data|
    ensures Scan(data[off..]) == []
  {
  }

  lemma BlankOrNot(rec: seq<byte>)
    ensures AllFF(rec) <==> rec == Blank(|rec|)
  {
  }

  /** `current_state`; `ok` is false when it raises the exception. */
  method CurrentState(bank0: seq<byte>, bank1: seq<byte>) returns (ok: bool, best: Option<J.BootState>)
    ensures ok == (!Raises(bank0) && !Raises(bank1))
    ensures ok ==> best == J.Best(Scan(Whole(bank0)) + Scan(Whole(bank1)))
  {
    hide Scan, Raises, Whole;
    best := None;
    ghost var seen := [];
    for bank := 0 to 2
      invariant best == J.Best(seen) && (bank > 0 ==> !Raises(bank0)) && (bank > 1 ==> !Raises(bank1))
      invariant seen == (if bank == 0 then [] else if bank == 1 then Scan(Whole(bank0)) else Scan(Whole(bank0)) + Scan(Whole(bank1)))
    {
      var parsed := ParseBank(if bank == 0 then bank0 else bank1);
      if parsed.None? {
        return false, None;
      }
      var records := parsed.value;
      ghost var before := seen;
      for i := 0 to |records|
        invariant seen == before + records[..i] && best == J.Best(seen)
      {
        var rec := records[i];
        assert (seen + [rec])[..|seen|] == seen;
        if rec.Some? && (best.None? || rec.value.number > best.value.number) {
          best := rec;
        }
        seen := seen + [rec];
      }
    }
    ok := true;
  }

  // ----- agreement with the firmware -----

  function BankBytes(m: seq<byte>, bank: nat): (s: seq<byte>)
    requires |m| == FLASH_SIZE && bank < 2
    ensures |s| == RECORD_SIZE * J.RECORDS
  {
    m[J.BankBase(bank)..J.BankBase(bank + 1)]
  }

  /** If its CRC matches, the record holds slots that exist. */
  predicate HoldsSlots(r: seq<byte>)
    requires |r| == RECORD_SIZE
  {
    Intact(r) && !AllFF(r) ==> J.InRange(HostRecord(r).value)
  }

  ghost predicate ValidInRange(m: seq<byte>)
    requires |m| == FLASH_SIZE
  {
    forall bank, i :: 0 <= bank < 2 && 0 <= i < J.RECORDS ==> HoldsSlots(J.RecordAt(m, bank, i))
  }

  function Rec(data: seq<byte>, j: nat): (r: seq<byte>)
    requires RECORD_SIZE * j + RECORD_SIZE <= |data|
    ensures |r| == RECORD_SIZE
  {
    data[RECORD_SIZE * j..RECORD_SIZE * j + RECORD_SIZE]
  }

  /** The scan decodes the records from the start, up to the first erased one. */
  lemma {:induction false} ScanStops(data: seq<byte>)
    requires |data| % RECORD_SIZE == 0
    ensures RECORD_SIZE * |Scan(data)| <= |data|
    ensures forall j :: 0 <= j < |Scan(data)| ==> !AllFF(Rec(data, j)) && Scan(data)[j] == HostRecord(Rec(data, j))
    ensures RECORD_SIZE * |Scan(data)| < |data| ==> AllFF(Rec(data, |Scan(data)|))
  {
    hide HostRecord, AllFF, Rec;
    if data != [] && !AllFF(data[..RECORD_SIZE]) {
      var rest := data[RECORD_SIZE..];
      ScanStops(rest);
      FirstRec(data);
      forall j: nat | RECORD_SIZE * j + RECORD_SIZE <= |rest|
        ensures Rec(rest, j) == Rec(data, j + 1)
      {
        NextRec(data, j);
      }
      forall j | 0 <= j < |Scan(data)|
        ensures !AllFF(Rec(data, j)) && Scan(data)[j] == HostRecord(Rec(data, j))
      {
        if j > 0 {
          assert Rec(rest, j - 1) == Rec(data, j - 1 + 1);
        }
      }
      if RECORD_SIZE * |Scan(data)| < |data| {
        assert Rec(rest, |Scan(rest)|) == Rec(data, |Scan(rest)| + 1);
      }
    } else if data != [] {
      FirstRec(data);
    }
  }

  lemma FirstRec(data: seq<byte>)
    requires |data| >= RECORD_SIZE
    ensures Rec(data, 0) == data[..RECORD_SIZE]
  {
  }

  lemma NextRec(data: seq<byte>, j: nat)
    requires RECORD_SIZE * j + 2 * RECORD_SIZE <= |data|
    ensures Rec(data[RECORD_SIZE..], j) == Rec(data, j + 1)
  {
  }

  lemma RecOfBank(m: seq<byte>, bank: nat, j: nat)
    requires |m| == FLASH_SIZE && bank < 2 && j < J.RECORDS
    ensures Rec(BankBytes(m, bank), j) == J.RecordAt(m, bank, j)
  {
    SliceOfSlice(m, J.BankBase(bank), J.BankBase(bank + 1), RECORD_SIZE * j, RECORD_SIZE * j + RECORD_SIZE);
  }

  lemma SameDecoding(r: seq<byte>)
    requires |r| == RECORD_SIZE && !AllFF(r) && HoldsSlots(r)
    ensures HostRecord(r) == J.Decode(r)
  {
    hide Crc32.CrcBytes;
  }

  /** What the host scans is the front part of what the firmware decodes. */
  lemma ScanIsFront(m: seq<byte>, bank: nat)
    requires |m| == FLASH_SIZE && bank < 2 && ValidInRange(m)
    ensures var s := Scan(BankBytes(m, bank)); |s| <= J.RECORDS && s == J.Entries(m, bank)[..|s|]
    ensures J.NoGap(m, bank) ==> forall i :: |Scan(BankBytes(m, bank))| <= i < J.RECORDS ==> J.Entries(m, bank)[i].None?
  {
    hide Crc32.CrcBytes, HostRecord, HoldsSlots, J.Decode, Scan, AllFF, J.RecordAt, Rec, ValidInRange, J.NoGap, BankBytes;
    var data := BankBytes(m, bank);
    ScanStops(data);
    var s := Scan(data);
    forall j | 0 <= j < |s|
      ensures s[j] == J.Entries(m, bank)[j]
    {
      RecOfBank(m, bank, j);
      SlotsAt(m, bank, j);
      SameDecoding(J.RecordAt(m, bank, j));
    }
    if J.NoGap(m, bank) && |s| < J.RECORDS {
      RecOfBank(m, bank, |s|);
      forall i | |s| <= i < J.RECORDS
        ensures J.Entries(m, bank)[i].None?
      {
        GapRule(m, bank, |s|, i);
        ErasedDecodesToNone(J.RecordAt(m, bank, i));
      }
    }
  }

  lemma SlotsAt(m: seq<byte>, bank: nat, i: nat)
    requires |m| == FLASH_SIZE && bank < 2 && i < J.RECORDS && ValidInRange(m)
    ensures HoldsSlots(J.RecordAt(m, bank, i))
  {
    hide HoldsSlots;
  }

  lemma GapRule(m: seq<byte>, bank: nat, i: nat, j: nat)
    requires |m| == FLASH_SIZE && bank < 2 && i <= j < J.RECORDS && J.NoGap(m, bank) && AllFF(J.RecordAt(m, bank, i))
    ensures AllFF(J.RecordAt(m, bank, j))
  {
    hide AllFF;
  }

  lemma ErasedDecodesToNone(r: seq<byte>)
    requires |r| == RECORD_SIZE && AllFF(r)
    ensures J.Decode(r).None?
  {
  }

  /** The first highest of two scans is the first highest of the first, unless the second has a
      higher one. */
  lemma {:induction false} BestOfBoth(a: seq<Option<J.BootState>>, b: seq<Option<J.BootState>>)
    ensures J.Best(a + b) ==
      if J.Best(b).Some? && (J.Best(a).None? || J.Best(b).value.number > J.Best(a).value.number) then J.Best(b) else J.Best(a)
  {
    if b == [] {
      assert a + b == a;
    } else {
      var n := |b| - 1;
      BestOfBoth(a, b[..n]);
      assert (a + b)[..|a + b| - 1] == a + b[..n];
    }
  }

  lemma FrontIsBelow(e: seq<Option<J.BootState>>, n: nat, number: int)
    requires n <= |e| && J.Below(e, number)
    ensures J.Best(e[..n]).Some? ==> J.Best(e[..n]).value.number < number
  {
    J.BestIsHighest(e[..n]);
  }

  lemma NothingFound(e: seq<Option<J.BootState>>, n: nat)
    requires n <= |e| && J.Best(e).None?
    ensures J.Best(e[..n]).None?
  {
    J.BestIsHighest(e);
    J.BestIsHighest(e[..n]);
  }

  /** On every journal that the firmware's writes can leave, torn erases included, the forward
      scan of the host finds the state that the firmware finds. */
  lemma HostAgrees(m: seq<byte>)
    requires |m| == FLASH_SIZE && J.Tidy(m) && ValidInRange(m)
    ensures J.Best(Scan(BankBytes(m, 0)) + Scan(BankBytes(m, 1))) ==
      if J.CurrentOf(m).bank < 0 then None else Some(J.CurrentOf(m).state)
  {
    hide Crc32.CrcBytes, Scan, J.Entries, J.Best, J.NoGap, J.Below, ValidInRange;
    var e0, e1 := J.Entries(m, 0), J.Entries(m, 1);
    var s0, s1 := Scan(BankBytes(m, 0)), Scan(BankBytes(m, 1));
    ScanIsFront(m, 0);
    ScanIsFront(m, 1);
    BestOfBoth(s0, s1);
    var c := J.CurrentOf(m);
    if c.bank < 0 {
      NothingFound(e0, |s0|);
      NothingFound(e1, |s1|);
    } else if c.bank == 0 {
      J.NoneAddNothing(e0, |s0|);
      FrontIsBelow(e1, |s1|, c.state.number);
    } else {
      J.NoneAddNothing(e1, |s1|);
      FrontIsBelow(e0, |s0|, c.state.number);
    }
  }

  /** The same for banks without gaps, whoever wrote them. */
  lemma HostAgreesWithoutGaps(m: seq<byte>)
    requires |m| == FLASH_SIZE && J.NoGap(m, 0) && J.NoGap(m, 1) && ValidInRange(m)
    ensures J.Best(Scan(BankBytes(m, 0)) + Scan(BankBytes(m, 1))) ==
      if J.CurrentOf(m).bank < 0 then None else Some(J.CurrentOf(m).state)
  {
    hide Crc32.CrcBytes, Scan, J.Entries, J.Best, J.NoGap, ValidInRange;
    ScanIsFront(m, 0);
    ScanIsFront(m, 1);
    J.NoneAddNothing(J.Entries(m, 0), |Scan(BankBytes(m, 0))|);
    J.NoneAddNothing(J.Entries(m, 1), |Scan(BankBytes(m, 1))|);
    BestOfBoth(Scan(BankBytes(m, 0)), Scan(BankBytes(m, 1)));
  }

  /** What the condition on ranges is for: the host decodes every packed record, the firmware
      exactly those whose slots exist. */
  lemma RangeCheckDiffers(s: J.BootState)
    ensures HostRecord(J.Encode(s)) == Some(s)
    ensures J.Decode(J.Encode(s)) == HostRecord(J.Encode(s)) <==> J.InRange(s)
  {
    hide Crc32.CrcBytes;
    J.DecodeEncode(s);
    var r := J.Encode(s);
    assert r[..12] == J.Body(s) && r[12..] == Crc32.CrcBytes(J.Body(s));
    assert r[..4] == ToLe32(s.number);
  }
}

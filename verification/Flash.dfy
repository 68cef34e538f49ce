/** firmware/common/flash.c on the sector map of firmware/common/layout.h. Addresses count
    from the start of flash; registers, unlocking and error flags are not modelled. */
module FlashMemory {
  import opened Bytes
  import Crc32

  const FLASH_SIZE: nat := 0x10_0000

  /** First byte of a sector: four of 16 KiB, one of 64 KiB, seven of 128 KiB. */
  function SectorBase(sector: nat): nat
    requires sector <= 12
  {
    if sector <= 4 then 0x4000 * sector else 0x2_0000 * (sector - 4)
  }

  /** Programming can only clear bits. */
  predicate Programmable(current: byte, value: byte) {
    forall k :: 0 <= k < 8 && Bit(value, k) ==> Bit(current, k)
  }

  lemma ErasedIsProgrammable(value: byte)
    ensures Programmable(FF, value) && Programmable(value, value)
  {
    assert Bit(255, 0) && Bit(255, 1) && Bit(255, 2) && Bit(255, 3) && Bit(255, 4) && Bit(255, 5) && Bit(255, 6) && Bit(255, 7);
  }

  /** A record whose last four bytes are the CRC of the ones before. */
  predicate Intact(r: seq<byte>)
    requires |r| >= 4
  {
    Crc32.CrcBytes(r[..|r| - 4]) == r[|r| - 4..]
  }

  /** The record is not one with a matching CRC that chance has made up. */
  predicate NotForged(before: seq<byte>, after: seq<byte>)
    requires |after| >= 4
  {
    Intact(after) && !AllFF(after) ==> after == before
  }

  function Window(m: seq<byte>, at: nat, size: nat): (r: seq<byte>)
    requires at + size <= |m|
    ensures |r| == size
  {
    m[at..at + size]
  }

  predicate ForgesNothing(m: seq<byte>, m': seq<byte>, lo: nat, hi: nat, size: nat)
    requires lo <= hi <= |m| == |m'| && size >= 4
  {
    forall at :: lo <= at <= hi - size && (at - lo) % size == 0 ==> NotForged(Window(m, at, size), Window(m', at, size))
  }

  predicate SameOutside(m: seq<byte>, m': seq<byte>, lo: nat, hi: nat) {
    && |m| == |m'|
    && forall i :: 0 <= i < |m| && !(lo <= i < hi) ==> m[i] == m'[i]
  }

  /** What an erase cut short may leave: nothing certain inside the sector, except that
      chance does not produce a 16- or 32-byte record with a matching CRC. */
  predicate TornErase(m: seq<byte>, m': seq<byte>, sector: nat)
    requires sector <= 11 && |m| == |m'| == FLASH_SIZE
  {
    var lo, hi := SectorBase(sector), SectorBase(sector + 1);
    && SameOutside(m, m', lo, hi)
    && ForgesNothing(m, m', lo, hi, 16)
    && ForgesNothing(m, m', lo, hi, 32)
  }

  function Erase(m: seq<byte>, sector: nat): (r: seq<byte>)
    requires sector <= 11 && |m| == FLASH_SIZE
    ensures |r| == FLASH_SIZE
  {
    Splice(m, SectorBase(sector), Blank(SectorBase(sector + 1) - SectorBase(sector)))
  }

  predicate OnlyClears(m: seq<byte>, addr: nat, data: seq<byte>)
    requires addr + |data| <= |m|
  {
    forall i :: 0 <= i < |data| ==> Programmable(m[addr + i], data[i])
  }

  /** Whole words, at a word boundary, that only clear bits. */
  ghost predicate CanTake(m: seq<byte>, addr: nat, data: seq<byte>)
    requires addr + |data| <= |m|
  {
    && |data| % 4 == 0 && (|data| > 0 ==> addr % 4 == 0)
    && OnlyClears(m, addr, data)
  }

  /** Whatever whole words come, erased memory takes them. */
  lemma ErasedTakes(m: seq<byte>, addr: nat, data: seq<byte>)
    requires addr + |data| <= |m| && addr % 4 == 0 && |data| % 4 == 0 && AllFF(Window(m, addr, |data|))
    ensures CanTake(m, addr, data)
  {
    hide Programmable;
    var was := Window(m, addr, |data|);
    forall i | 0 <= i < |data|
      ensures Programmable(m[addr + i], data[i])
    {
      assert was[i] == m[addr + i] == FF;
      ErasedIsProgrammable(data[i]);
    }
  }

  lemma SpliceNothing(m: seq<byte>, addr: nat)
    requires addr <= |m|
    ensures Splice(m, addr, []) == m && OnlyClears(m, addr, [])
  {
  }

  lemma SpliceOn(m: seq<byte>, addr: nat, data: seq<byte>, i: nat)
    requires addr + |data| <= |m| && i + 4 <= |data|
    ensures Splice(Splice(m, addr, data[..i]), addr + i, data[i..i + 4]) == Splice(m, addr, data[..i + 4])
  {
    assert Splice(Splice(m, addr, data[..i]), addr + i, data[i..i + 4]) == Splice(m, addr, data[..i + 4]);
  }

  /** A word can be programmed on top of the words before it exactly when it could have been
      at first. */
  lemma ClearsOn(m: seq<byte>, addr: nat, data: seq<byte>, i: nat)
    requires addr + |data| <= |m| && i + 4 <= |data|
    ensures OnlyClears(m, addr, data[..i + 4])
      <==> OnlyClears(m, addr, data[..i]) && OnlyClears(Splice(m, addr, data[..i]), addr + i, data[i..i + 4])
  {
    hide Programmable;
    var m', word := Splice(m, addr, data[..i]), data[i..i + 4];
    assert forall j :: 0 <= j < 4 ==> m'[addr + i + j] == m[addr + (i + j)] && word[j] == data[..i + 4][i + j];
    if OnlyClears(m, addr, data[..i]) && OnlyClears(m', addr + i, word) {
      var more := data[..i + 4];
      forall j {:trigger more[j]} | 0 <= j < i + 4
        ensures Programmable(m[addr + j], more[j])
      {
        if j >= i {
          assert Programmable(m'[addr + i + (j - i)], word[j - i]);
        } else {
          assert Programmable(m[addr + j], data[..i][j]);
        }
      }
    }
    if OnlyClears(m, addr, data[..i + 4]) {
      forall j {:trigger data[..i][j]} | 0 <= j < i
        ensures Programmable(m[addr + j], data[..i][j])
      {
        assert Programmable(m[addr + j], data[..i + 4][j]);
      }
      forall j | 0 <= j < 4
        ensures Programmable(m'[addr + i + j], word[j])
      {
        assert Programmable(m[addr + (i + j)], data[..i + 4][i + j]);
      }
    }
  }

  lemma ClearsPrefix(m: seq<byte>, addr: nat, data: seq<byte>, i: nat)
    requires addr + |data| <= |m| && i <= |data|
    ensures OnlyClears(m, addr, data) ==> OnlyClears(m, addr, data[..i])
  {
  }

  /** The flash and the supply that powers it. Every program and erase uses up one unit of
      `supply`; the operation that finds none left is the one the power cut hits, and
      nothing runs after it: `on` is false and every method returns at once. */
  class Flash {
    var mem: seq<byte>
    var supply: nat
    var on: bool
    const residue: seq<byte>  // what the erase that is cut short leaves behind

    ghost predicate Ready()
      reads this
    {
      |mem| == FLASH_SIZE && on
    }

    constructor (mem: seq<byte>, supply: nat, residue: seq<byte>)
      requires |mem| == FLASH_SIZE
      ensures Ready() && this.mem == mem && this.supply == supply && this.residue == residue
    {
      this.mem, this.supply, this.residue, this.on := mem, supply, residue, true;
    }

    method EraseSector(sector: nat) returns (ok: bool)
      requires Ready()
      modifies this
      ensures |mem| == FLASH_SIZE
      ensures ok == (on && sector <= 11)
      ensures sector > 11 ==> on && mem == old(mem)
      ensures sector <= 11 && on ==> mem == Erase(old(mem), sector)
      ensures sector <= 11 && !on ==> TornErase(old(mem), mem, sector)
    {
      if sector > 11 {
        return false;
      }
      if supply == 0 {
        on := false;
        if |residue| == FLASH_SIZE && TornErase(mem, residue, sector) {
          mem := residue;
        }
        return false;
      }
      supply := supply - 1;
      mem := Erase(mem, sector);
      ok := true;
    }

    method ProgramWord(addr: nat, value: seq<byte>) returns (ok: bool)
      requires Ready() && addr + 4 <= FLASH_SIZE && |value| == 4
      modifies this
      ensures |mem| == FLASH_SIZE
      ensures ok ==> on && addr % 4 == 0
      ensures mem == if ok then Splice(old(mem), addr, value) else old(mem)
      ensures on && addr % 4 == 0 ==> ok == OnlyClears(old(mem), addr, value)
    {
      if addr % 4 != 0 {
        return false;
      }
      if !OnlyClears(mem, addr, value) {
        return false;
      }
      if supply == 0 {
        on := false;
        return false;
      }
      supply := supply - 1;
      mem := Splice(mem, addr, value);
      ok := true;
    }

    /** Programs whole words in ascending order and stops at the first that fails; `words`
        tells how many of them the memory took. */
    method Program(addr: nat, data: seq<byte>) returns (ok: bool, ghost words: nat)
      requires Ready() && addr + |data| <= FLASH_SIZE
      modifies this
      ensures |mem| == FLASH_SIZE
      ensures 4 * words <= |data| && mem == Splice(old(mem), addr, data[..4 * words])
      ensures ok ==> on && 4 * words == |data|
      ensures on ==> ok == CanTake(old(mem), addr, data)
      ensures !on ==> |data| % 4 == 0
    {
      hide Splice, OnlyClears;
      words := 0;
      if |data| % 4 != 0 {
        return false, 0;
      }
      SpliceNothing(mem, addr);
      assert data[..0] == [];
      var i := 0;
      while i < |data|
        invariant 0 <= i <= |data| && i % 4 == 0 && i == 4 * words
        invariant Ready() && mem == Splice(old(mem), addr, data[..i])
        invariant i > 0 ==> addr % 4 == 0
        invariant OnlyClears(old(mem), addr, data[..i])
      {
        SpliceOn(old(mem), addr, data, i);
        ClearsOn(old(mem), addr, data, i);
        var done := ProgramWord(addr + i, data[i..i + 4]);
        if !done {
          ClearsPrefix(old(mem), addr, data, i + 4);
          return false, words;
        }
        i := i + 4;
        words := words + 1;
      }
      assert data[..i] == data;
      ok := true;
    }

    method IsErased(addr: nat, len: nat) returns (erased: bool)
      requires |mem| == FLASH_SIZE && addr + len <= FLASH_SIZE
      ensures erased == AllFF(mem[addr..addr + len])
    {
      for i := 0 to len
        invariant AllFF(mem[addr..addr + i])
      {
        if mem[addr + i] != FF {
          assert mem[addr..addr + len][i] == mem[addr + i];
          return false;
        }
        assert mem[addr..addr + i + 1] == mem[addr..addr + i] + [mem[addr + i]];
      }
      erased := true;
    }
  }
}

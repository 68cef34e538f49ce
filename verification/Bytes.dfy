/** Bytes, fixed-width unsigned integers and their little-endian layout in memory. */
module Bytes {
  type byte = b: int | 0 <= b < 0x100
  type u16 = n: int | 0 <= n < 0x1_0000
  type u32 = n: int | 0 <= n < 0x1_0000_0000

  /** An erased flash byte. */
  const FF: byte := 0xFF

  /** Bit `k` of a byte. */
  predicate Bit(b: byte, k: nat) {
    if k == 0 then b % 2 == 1 else Bit(b / 2, k - 1)
  }

  /** Two bytes with the same bits are the same byte. */
  lemma {:induction false} BitsDetermine(a: byte, b: byte, n: nat, bound: int)
    requires a < bound && b < bound && bound == Pow2(n)
    requires forall k: nat :: k < n ==> Bit(a, k) == Bit(b, k)
    ensures a == b
  {
    if n > 0 {
      assert Bit(a, 0) == Bit(b, 0);
      forall k: nat | k < n - 1
        ensures Bit(a / 2, k) == Bit(b / 2, k)
      {
        assert Bit(a, k + 1) == Bit(b, k + 1);
      }
      BitsDetermine(a / 2, b / 2, n - 1, bound / 2);
    }
  }

  function Pow2(n: nat): nat {
    if n == 0 then 1 else 2 * Pow2(n - 1)
  }

  function Min(a: int, b: int): int {
    if a <= b then a else b
  }

  /** The `rd32` helper that several source files share. */
  function Le32(s: seq<byte>): (v: u32)
    requires |s| == 4
  {
    s[0] as int + 0x100 * s[1] as int + 0x1_0000 * s[2] as int + 0x100_0000 * s[3] as int
  }

  function ToLe32(v: u32): (s: seq<byte>)
    ensures |s| == 4 && Le32(s) == v
  {
    var v1 := v / 0x100;
    var v2 := v1 / 0x100;
    [v % 0x100, v1 % 0x100, v2 % 0x100, v2 / 0x100]
  }

  function Le16(s: seq<byte>): (v: u16)
    requires |s| == 2
  {
    s[0] as int + 0x100 * s[1] as int
  }

  function ToLe16(v: u16): (s: seq<byte>)
    ensures |s| == 2 && Le16(s) == v
  {
    [v % 0x100, v / 0x100]
  }

  /** The number that little-endian bytes stand for. */
  function ByteVal(s: seq<byte>): nat {
    if s == [] then 0 else s[0] + 0x100 * ByteVal(s[1..])
  }

  /** The memory `mem` with `data` written over it at `at`. */
  function Splice<T>(mem: seq<T>, at: nat, data: seq<T>): (r: seq<T>)
    requires at + |data| <= |mem|
    ensures |r| == |mem|
    ensures forall i :: 0 <= i < |mem| ==> r[i] == if at <= i < at + |data| then data[i - at] else mem[i]
  {
    mem[..at] + data + mem[at + |data|..]
  }

  lemma SliceOfSlice<T>(m: seq<T>, lo: nat, hi: nat, a: nat, b: nat)
    requires lo <= hi <= |m| && a <= b <= hi - lo
    ensures m[lo..hi][a..b] == m[lo + a..lo + b]
  {
    var s, t := m[lo..hi][a..b], m[lo + a..lo + b];
    forall i | 0 <= i < |s|
      ensures s[i] == t[i]
    {
    }
  }

  predicate AllFF(s: seq<byte>) {
    forall i :: 0 <= i < |s| ==> s[i] == FF
  }

  /** `n` erased bytes. */
  function Blank(n: nat): (s: seq<byte>)
    ensures |s| == n && AllFF(s)
  {
    seq(n, i => FF)
  }

  /** An erased record that received the first words of `rec`. */
  function Partial(rec: seq<byte>, words: nat): (r: seq<byte>)
    requires 4 * words <= |rec|
    ensures |r| == |rec|
  {
    rec[..4 * words] + Blank(|rec| - 4 * words)
  }

  lemma OneEntry<T>(e': seq<T>, e: seq<T>, k: nat, x: T)
    requires |e'| == |e| && k < |e| && e'[k] == x && forall i :: 0 <= i < |e| && i != k ==> e'[i] == e[i]
    ensures e' == e[k := x]
  {
  }
}

/** The conventional optional value. */
module Options {
  datatype Option<+T> = None | Some(value: T)

  /** The last entry that is there. */
  function Last<T>(e: seq<Option<T>>): Option<T> {
    if e == [] then None else if e[|e| - 1].Some? then e[|e| - 1] else Last(e[..|e| - 1])
  }

  lemma {:induction false} LastOfTail<T>(e: seq<Option<T>>, used: nat)
    requires used <= |e| && forall i :: used <= i < |e| ==> e[i].None?
    ensures Last(e) == Last(e[..used])
  {
    if used < |e| {
      LastOfTail(e[..|e| - 1], used);
      assert e[..|e| - 1][..used] == e[..used];
    } else {
      assert e[..used] == e;
    }
  }

  lemma {:induction false} LastIsEntry<T>(e: seq<Option<T>>)
    ensures Last(e).Some? ==> Last(e) in e
    ensures (forall i :: 0 <= i < |e| ==> e[i].None?) ==> Last(e).None?
  {
    if e != [] {
      LastIsEntry(e[..|e| - 1]);
    }
  }

  lemma LastGains<T>(e: seq<Option<T>>, k: nat, d: Option<T>)
    requires k < |e| && forall i :: k <= i < |e| ==> e[i].None?
    ensures Last(e[k := d]) == if d.Some? then d else Last(e)
  {
    var e' := e[k := d];
    LastOfTail(e', k + 1);
    LastOfTail(e, k);
    assert e'[..k + 1][..k] == e[..k];
  }
}

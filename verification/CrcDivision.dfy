/** What the CRC is: clause 3.2.9 of IEEE 802.3 as a division of polynomials over the two-element field.
    Sequences of bits are polynomials, the highest power first. */
module CrcDivision {
  import opened Bytes
  import opened Crc32

  function XorBits(a: seq<bool>, b: seq<bool>): (r: seq<bool>)
    requires |a| == |b|
    ensures |r| == |a| && forall i :: 0 <= i < |a| ==> r[i] == (a[i] != b[i])
  {
    seq(|a|, i requires 0 <= i < |a| => a[i] != b[i])
  }

  /** The powers of the generator below its leading one, x^32. */
  const POWERS: set<nat> := {26, 23, 22, 16, 12, 11, 10, 8, 7, 5, 4, 2, 1, 0}

  function Generator(): (g: seq<bool>)
    ensures |g| == 32
  {
    seq(32, i requires 0 <= i < 32 => 31 - i in POWERS)
  }

  /** Long division: the remainder of `d` modulo the generator. */
  function Remainder(d: seq<bool>): (r: seq<bool>)
    requires |d| >= 32
    ensures |r| == 32
    decreases |d|
  {
    if |d| == 32 then d
    else Remainder((if d[0] then XorBits(d[1..33], Generator()) else d[1..33]) + d[33..])
  }

  /** The bits of a message in the order of transmission: each byte from its lowest bit on. */
  function Transmitted(data: seq<byte>): (bits: seq<bool>)
    ensures |bits| == 8 * |data|
  {
    if data == [] then [] else Transmitted(data[..|data| - 1]) + ByteBits(data[|data| - 1])
  }

  function ByteBits(b: byte): (bits: seq<bool>)
    ensures |bits| == 8
  {
    [Bit(b, 0), Bit(b, 1), Bit(b, 2), Bit(b, 3), Bit(b, 4), Bit(b, 5), Bit(b, 6), Bit(b, 7)]
  }

  function ZeroBits(n: nat): (z: seq<bool>)
    ensures |z| == n && forall i :: 0 <= i < n ==> !z[i]
  {
    seq(n, i => false)
  }

  function OneBits(): (z: seq<bool>)
    ensures |z| == 32 && forall i :: 0 <= i < 32 ==> z[i]
  {
    seq(32, i => true)
  }

  /** The first 32 bits added to others. */
  function OnFirst(a: seq<bool>, d: seq<bool>): (r: seq<bool>)
    requires |a| == 32 <= |d|
    ensures |r| == |d|
  {
    XorBits(a, d[..32]) + d[32..]
  }

  /** The `n` low bits of a register, the lowest first: it holds the highest power. */
  function LowBits(v: bv32, n: nat): (bits: seq<bool>)
    ensures |bits| == n
    decreases n
  {
    if n == 0 then [] else [Odd(v)] + LowBits(Half(v), n - 1)
  }

  predicate Odd(v: bv32) {
    v & 1 == 1
  }

  function Half(v: bv32): bv32 {
    v >> 1
  }

  function Halved(v: bv32, n: nat): bv32 {
    if n == 0 then v else Halved(Half(v), n - 1)
  }

  function One(on: bool): bv32 {
    if on then 1 else 0
  }

  /** The register after the bits have been shifted in one by one. */
  function FoldBits(s: bv32, bits: seq<bool>): bv32
    decreases |bits|
  {
    if bits == [] then s else FoldBits(Round(Xor(s, One(bits[0]))), bits[1..])
  }

  // ----- a byte at a time is a bit at a time -----

  lemma BitStep(r: bv32, v: bv32)
    ensures Round(Xor(r, v)) == Xor(Round(Xor(r, One(Odd(v)))), Half(v))
  {
    hide Round, Xor, Odd, Half, One;
    var one := One(Odd(v));
    OneIs(Odd(v));
    OddXor(r, v);
    OddXor(r, one);
    RoundIs(Xor(r, v));
    RoundIs(Xor(r, one));
    XorZero(Half(r));
    XorTurns(Half(r), Half(v), if Odd(Xor(r, v)) then POLY else 0);
  }

  lemma OneIs(on: bool)
    ensures Odd(One(on)) == on && Half(One(on)) == 0
  {
  }

  lemma XorTurns(a: bv32, b: bv32, c: bv32)
    ensures Xor(Xor(a, b), c) == Xor(Xor(a, c), b)
  {
    hide Xor;
    XorAssociates(a, b, c);
    XorAssociates(a, c, b);
    XorCommutes(b, c);
  }

  lemma XorCommutes(a: bv32, b: bv32)
    ensures Xor(a, b) == Xor(b, a)
  {
  }

  lemma {:induction false} ByteIsBits(r: bv32, v: bv32, n: nat)
    ensures Iterate(Round, Xor(r, v), n) == Xor(FoldBits(r, LowBits(v, n)), Halved(v, n))
    decreases n
  {
    hide Round, Xor, Odd, Half, One;
    if n > 0 {
      BitStep(r, v);
      ByteIsBits(Round(Xor(r, One(Odd(v)))), Half(v), n - 1);
      assert LowBits(v, n)[1..] == LowBits(Half(v), n - 1);
    }
  }

  lemma XorZero(a: bv32)
    ensures Xor(a, 0) == a
  {
  }

  // ----- bits of registers -----

  lemma {:induction false} HalvedJoins(v: bv32, m: nat, n: nat)
    ensures Halved(v, m + n) == Halved(Halved(v, m), n)
    decreases m
  {
    hide Half;
    if m > 0 {
      HalvedJoins(Half(v), m - 1, n);
    }
  }

  lemma {:induction false} LowBitsJoin(v: bv32, m: nat, n: nat)
    ensures LowBits(v, m + n) == LowBits(v, m) + LowBits(Halved(v, m), n)
    decreases m
  {
    hide Half, Odd;
    if m > 0 {
      LowBitsJoin(Half(v), m - 1, n);
    }
  }

  function By4(v: bv32): bv32 {
    Half(Half(Half(Half(v))))
  }

  function By8(v: bv32): bv32 {
    By4(By4(v))
  }

  lemma FourHalved(v: bv32)
    ensures Halved(v, 4) == By4(v)
  {
    hide Half;
    var h := Half(v);
    assert Halved(v, 4) == Halved(h, 3);
    assert Halved(h, 3) == Halved(Half(h), 2);
    assert Halved(Half(h), 2) == Halved(Half(Half(h)), 1);
    assert Halved(Half(Half(h)), 1) == Halved(Half(Half(Half(h))), 0);
  }

  lemma EightHalved(v: bv32)
    ensures Halved(v, 8) == By8(v)
  {
    hide Halved, By4;
    HalvedJoins(v, 4, 4);
    FourHalved(v);
    FourHalved(By4(v));
  }

  lemma AllHalved(v: bv32)
    ensures Halved(v, 32) == 0
  {
    hide Halved, By8;
    HalvedJoins(v, 8, 24);
    HalvedJoins(By8(v), 8, 16);
    HalvedJoins(By8(By8(v)), 8, 8);
    EightHalved(v);
    EightHalved(By8(v));
    EightHalved(By8(By8(v)));
    EightHalved(By8(By8(By8(v))));
    NothingLeft(v);
  }

  lemma NothingLeft(v: bv32)
    ensures By8(By8(By8(By8(v)))) == 0
  {
  }

  function Four(v: bv32): (bits: seq<bool>)
    ensures |bits| == 4
  {
    [Odd(v), Odd(Half(v)), Odd(Half(Half(v))), Odd(Half(Half(Half(v))))]
  }

  function Eight(v: bv32): (bits: seq<bool>)
    ensures |bits| == 8
  {
    Four(v) + Four(By4(v))
  }

  lemma FourBits(v: bv32)
    ensures LowBits(v, 4) == Four(v)
  {
    hide Odd, Half;
    var h := Half(v);
    assert LowBits(v, 4) == [Odd(v)] + LowBits(h, 3);
    assert LowBits(h, 3) == [Odd(h)] + LowBits(Half(h), 2);
  }

  lemma EightBits(v: bv32)
    ensures LowBits(v, 8) == Eight(v)
  {
    hide Odd, Half, LowBits, Halved, By4, Four;
    LowBitsJoin(v, 4, 4);
    FourHalved(v);
    FourBits(v);
    FourBits(By4(v));
  }

  lemma AllBits(v: bv32)
    ensures LowBits(v, 32) == Eight(v) + (Eight(By8(v)) + (Eight(By8(By8(v))) + Eight(By8(By8(By8(v))))))
  {
    hide Eight, LowBits, Halved, By8;
    LowBitsJoin(v, 8, 24);
    LowBitsJoin(By8(v), 8, 16);
    LowBitsJoin(By8(By8(v)), 8, 8);
    EightHalved(v);
    EightHalved(By8(v));
    EightHalved(By8(By8(v)));
    EightBits(v);
    EightBits(By8(v));
    EightBits(By8(By8(v)));
    EightBits(By8(By8(By8(v))));
  }

  lemma PackedBits(x0: bool, x1: bool, x2: bool, x3: bool, x4: bool, x5: bool, x6: bool, x7: bool)
    ensures var v := Widen(PackBits(x0, x1, x2, x3, x4, x5, x6, x7));
      Halved(v, 8) == 0 && LowBits(v, 8) == [x0, x1, x2, x3, x4, x5, x6, x7]
  {
    hide LowBits, Halved, Four, By4, By8, Widen, PackBits;
    var v := Widen(PackBits(x0, x1, x2, x3, x4, x5, x6, x7));
    EightHalved(v);
    EightBits(v);
    PackedEight(x0, x1, x2, x3, x4, x5, x6, x7);
  }

  lemma PackedEight(x0: bool, x1: bool, x2: bool, x3: bool, x4: bool, x5: bool, x6: bool, x7: bool)
    ensures var v := Widen(PackBits(x0, x1, x2, x3, x4, x5, x6, x7));
      By8(v) == 0 && Four(v) == [x0, x1, x2, x3] && Four(By4(v)) == [x4, x5, x6, x7]
  {
  }

  lemma AbsorbIsBits(s: bv32, b: byte)
    ensures Absorb(s, b) == FoldBits(s, ByteBits(b))
  {
    hide Round, Xor, Widen, PackBits, Bit, FoldBits, LowBits;
    var v := Widen(Bits(b));
    PackedBits(Bit(b, 0), Bit(b, 1), Bit(b, 2), Bit(b, 3), Bit(b, 4), Bit(b, 5), Bit(b, 6), Bit(b, 7));
    ByteIsBits(s, v, 8);
    XorZero(FoldBits(s, ByteBits(b)));
  }

  lemma {:induction false} FoldBitsJoins(s: bv32, a: seq<bool>, b: seq<bool>)
    ensures FoldBits(s, a + b) == FoldBits(FoldBits(s, a), b)
    decreases |a|
  {
    hide Round, Xor, One;
    if a == [] {
      assert a + b == b;
    } else {
      assert (a + b)[1..] == a[1..] + b;
      FoldBitsJoins(Round(Xor(s, One(a[0]))), a[1..], b);
    }
  }

  lemma {:induction false} FoldIsBits(s: bv32, data: seq<byte>)
    ensures Fold(Absorb, s, data) == FoldBits(s, Transmitted(data))
  {
    hide Absorb, ByteBits, FoldBits;
    if data == [] {
      NoBits(s);
    } else {
      var before, last := data[..|data| - 1], data[|data| - 1];
      FoldIsBits(s, before);
      AbsorbIsBits(Fold(Absorb, s, before), last);
      FoldBitsJoins(s, Transmitted(before), ByteBits(last));
    }
  }

  lemma NoBits(s: bv32)
    ensures FoldBits(s, []) == s
  {
  }

  // ----- the register is the head of the division -----

  lemma {:induction false} LowBitsXor(a: bv32, b: bv32, n: nat)
    ensures LowBits(Xor(a, b), n) == XorBits(LowBits(a, n), LowBits(b, n))
    decreases n
  {
    hide Xor, Odd, Half;
    if n > 0 {
      OddXor(a, b);
      LowBitsXor(Half(a), Half(b), n - 1);
    }
  }

  lemma OddXor(a: bv32, b: bv32)
    ensures Odd(Xor(a, b)) == (Odd(a) != Odd(b)) && Half(Xor(a, b)) == Xor(Half(a), Half(b))
  {
    LowBit(a);
    LowBit(b);
  }

  lemma {:induction false} LowBitsGrow(v: bv32, n: nat)
    ensures LowBits(v, n + 1) == LowBits(v, n) + [Odd(Halved(v, n))]
    decreases n
  {
    hide Odd, Half;
    if n > 0 {
      LowBitsGrow(Half(v), n - 1);
    }
  }

  /** The low bits of a register shifted by one. */
  lemma HalfBits(v: bv32)
    ensures LowBits(Half(v), 32) == LowBits(v, 32)[1..] + [false]
  {
    hide Half, Halved, Odd;
    LowBitsGrow(v, 32);
    assert LowBits(v, 33)[1..] == LowBits(Half(v), 32);
    AllHalved(v);
    OddZero();
  }

  lemma OddZero()
    ensures !Odd(0) && Odd(1) && Half(1) == 0 && Half(0) == 0
  {
  }

  lemma {:induction false} ZeroLow(n: nat)
    ensures LowBits(0, n) == ZeroBits(n)
  {
    if n > 0 {
      ZeroLow(n - 1);
    }
  }

  lemma OneLow(on: bool)
    ensures LowBits(One(on), 32) == [on] + ZeroBits(31)
  {
    hide Half, Odd;
    OddZero();
    ZeroLow(31);
  }

  /** The constant of the source is the generator, its highest power in the lowest bit. */
  lemma PolyIsGenerator()
    ensures LowBits(POLY, 32) == Generator()
  {
    hide Eight, By8;
    AllBits(POLY);
    PolyBytes();
  }

  lemma PolyBytes()
    ensures Eight(POLY) == [false, false, false, false, false, true, false, false]
    ensures Eight(By8(POLY)) == [true, true, false, false, false, false, false, true]
    ensures Eight(By8(By8(POLY))) == [false, false, false, true, true, true, false, true]
    ensures Eight(By8(By8(By8(POLY)))) == [true, false, true, true, false, true, true, true]
  {
  }

  /** One round divides by one more power. */
  lemma RoundBits(t: bv32)
    ensures var bits := LowBits(t, 32);
      LowBits(Round(t), 32) == XorBits(bits[1..] + [false], if bits[0] then Generator() else ZeroBits(32))
  {
    hide LowBits, Half, Odd, Xor;
    RoundIs(t);
    HalfBits(t);
    FirstLow(t);
    PolyIsGenerator();
    ZeroLow(32);
    LowBitsXor(Half(t), if Odd(t) then POLY else 0, 32);
  }

  lemma RoundIs(t: bv32)
    ensures Round(t) == Xor(Half(t), if Odd(t) then POLY else 0)
  {
    hide Round, Xor, Half, Odd;
    if Odd(t) {
      OddRound(t);
    } else {
      EvenRound(t);
    }
  }

  lemma OddRound(t: bv32)
    requires Odd(t)
    ensures Round(t) == Xor(Half(t), POLY)
  {
  }

  lemma EvenRound(t: bv32)
    requires !Odd(t)
    ensures Round(t) == Xor(Half(t), 0)
  {
  }

  lemma FirstLow(t: bv32)
    ensures LowBits(t, 32)[0] == Odd(t)
  {
  }

  /** What one step of the long division makes of a dividend `m` to which `low` has been added. */
  lemma HeadStep(low: seq<bool>, m: seq<bool>, g: seq<bool>, t: seq<bool>, next: seq<bool>)
    requires |low| == |g| == |t| == |next| == 32 < |m| && t == XorBits(low, [m[0]] + ZeroBits(31))
    requires next == XorBits(t[1..] + [false], if t[0] then g else ZeroBits(32))
    ensures var d := OnFirst(low, m);
      d[0] == t[0] && (if d[0] then XorBits(d[1..33], g) else d[1..33]) + d[33..] == OnFirst(next, m[1..])
  {
    var d := OnFirst(low, m);
    var head := if d[0] then XorBits(d[1..33], g) else d[1..33];
    assert d[..32] == XorBits(low, m[..32]) && d[32..] == m[32..];
    forall i | 0 <= i < 32
      ensures head[i] == XorBits(next, m[1..33])[i]
    {
      assert d[1..33][i] == d[i + 1] && m[1..33][i] == m[i + 1];
    }
    assert head == XorBits(next, m[1..33]);
    assert m[1..][..32] == m[1..33] && d[33..] == m[1..][32..];
  }

  /** A step of the long division, on a dividend whose head the register has been added to. */
  lemma DivisionStep(s: bv32, bits: seq<bool>, tail: seq<bool>)
    requires bits != [] && |bits| + |tail| > 32
    ensures Remainder(OnFirst(LowBits(s, 32), bits + tail)) == Remainder(OnFirst(LowBits(Round(Xor(s, One(bits[0]))), 32), bits[1..] + tail))
  {
    hide LowBits, Xor, One, Round, Generator, Remainder, OnFirst, XorBits;
    var m, t := bits + tail, Xor(s, One(bits[0]));
    OneLow(bits[0]);
    LowBitsXor(s, One(bits[0]), 32);
    RoundBits(t);
    assert m[1..] == bits[1..] + tail && m[0] == bits[0];
    HeadStep(LowBits(s, 32), m, Generator(), LowBits(t, 32), LowBits(Round(t), 32));
    RemainderStep(OnFirst(LowBits(s, 32), m));
  }

  lemma RemainderStep(d: seq<bool>)
    requires |d| > 32
    ensures Remainder(d) == Remainder((if d[0] then XorBits(d[1..33], Generator()) else d[1..33]) + d[33..])
  {
  }

  /** What is in the register is the remainder of all that has been shifted in, once 32 zeros have
      followed. */
  lemma {:induction false} FoldIsRemainder(s: bv32, bits: seq<bool>)
    ensures LowBits(FoldBits(s, bits), 32) == Remainder(OnFirst(LowBits(s, 32), bits + ZeroBits(32)))
    decreases |bits|
  {
    hide LowBits, Xor, One, Round;
    if bits == [] {
      assert bits + ZeroBits(32) == ZeroBits(32);
      assert OnFirst(LowBits(s, 32), ZeroBits(32)) == LowBits(s, 32);
    } else {
      DivisionStep(s, bits, ZeroBits(32));
      FoldIsRemainder(Round(Xor(s, One(bits[0]))), bits[1..]);
    }
  }

  lemma Ones()
    ensures LowBits(0xFFFF_FFFF, 32) == OneBits()
  {
    hide Eight, By8;
    AllBits(0xFFFF_FFFF);
    OneBytes();
  }

  lemma OneBytes()
    ensures Eight(0xFFFF_FFFF) == Eight(By8(0xFFFF_FFFF)) == Eight(By8(By8(0xFFFF_FFFF))) == Eight(By8(By8(By8(0xFFFF_FFFF))))
      == [true, true, true, true, true, true, true, true]
  {
  }

  lemma Complemented(r: bv32)
    ensures LowBits(!r, 32) == XorBits(OneBits(), LowBits(r, 32))
  {
    hide LowBits;
    Ones();
    ComplementIsXor(r);
    LowBitsXor(0xFFFF_FFFF, r, 32);
  }

  lemma ComplementIsXor(r: bv32)
    ensures !r == Xor(0xFFFF_FFFF, r)
  {
  }

  lemma FromAnyStart(s: bv32, head: seq<bool>, data: seq<byte>)
    requires head == LowBits(s, 32)
    ensures LowBits(Fold(Absorb, s, data), 32) == Remainder(OnFirst(head, Transmitted(data) + ZeroBits(32)))
  {
    hide LowBits, Remainder, Absorb, FoldBits, Transmitted, OnFirst;
    FoldIsBits(s, data);
    FoldIsRemainder(s, Transmitted(data));
  }

  /** The CRC register of any message is the complement of the remainder that the standard defines: the bits of
      the message as they are transmitted, the first 32 complemented, times x^32, modulo the
      generator. */
  lemma CrcIsRemainder(data: seq<byte>)
    ensures LowBits(Crc(data), 32) == XorBits(OneBits(), Remainder(OnFirst(OneBits(), Transmitted(data) + ZeroBits(32))))
  {
    hide LowBits, Remainder, Absorb, Transmitted, XorBits, OnFirst, Fold;
    Ones();
    FromAnyStart(0xFFFF_FFFF, OneBits(), data);
    Complemented(Fold(Absorb, 0xFFFF_FFFF, data));
  }

  // ----- the bytes that are stored -----

  function Weight(on: bool): nat {
    if on then 1 else 0
  }

  function Sum(x: seq<bool>): nat
    requires |x| == 8
  {
    Weight(x[0]) + 2 * Weight(x[1]) + 4 * Weight(x[2]) + 8 * Weight(x[3])
    + 16 * Weight(x[4]) + 32 * Weight(x[5]) + 64 * Weight(x[6]) + 128 * Weight(x[7])
  }

  lemma LowestBit(b: byte, x: bool, rest: nat)
    requires b == Weight(x) + 2 * rest
    ensures Bit(b, 0) == x && b / 2 == rest
    ensures forall k: nat :: Bit(b, k + 1) == Bit(b / 2, k)
  {
  }

  lemma {:induction false} BitsFrom(b: byte, x: seq<bool>, k: nat)
    requires |x| > 0 && b == Binary(x) && k < |x|
    ensures Bit(b, k) == x[k]
    decreases |x|
  {
    hide Bit;
    if |x| == 1 {
      LowestBit(b, x[0], 0);
    } else {
      LowestBit(b, x[0], Binary(x[1..]));
      if k > 0 {
        BitsFrom(b / 2, x[1..], k - 1);
        assert Bit(b, k - 1 + 1) == Bit(b / 2, k - 1);
      }
    }
  }

  /** The number with these binary digits, the lowest first. */
  function Binary(x: seq<bool>): nat
    decreases |x|
  {
    if x == [] then 0 else Weight(x[0]) + 2 * Binary(x[1..])
  }

  lemma BinaryStep(x: seq<bool>)
    ensures Binary(x) == if x == [] then 0 else Weight(x[0]) + 2 * Binary(x[1..])
  {
  }

  lemma SumIsBinary(x: seq<bool>)
    requires |x| == 8
    ensures Sum(x) == Binary(x)
  {
    hide Weight, Binary;
    BinaryStep(x);
    BinaryStep(x[1..]);
    BinaryStep(x[1..][1..]);
    BinaryStep(x[1..][1..][1..]);
    var y := x[1..][1..][1..][1..];
    BinaryStep(y);
    BinaryStep(y[1..]);
    BinaryStep(y[1..][1..]);
    BinaryStep(y[1..][1..][1..]);
    BinaryStep([]);
    assert y[1..][1..][1..][1..] == [] && y == x[4..];
  }

  lemma BitsOfSum(b: byte, x: seq<bool>)
    requires |x| == 8 && b == Sum(x)
    ensures ByteBits(b) == x
  {
    hide Bit, Sum, Binary;
    SumIsBinary(x);
    forall k | 0 <= k < 8
      ensures Bit(b, k) == x[k]
    {
      BitsFrom(b, x, k);
    }
  }

  lemma OctetSum(c: bv32)
    ensures Octet(c) == Sum(Four(c) + Four(By4(c)))
  {
    var v := (c & 0xFF) as bv8;
    OctetBits(c, v);
    ByteSum(v);
  }

  function Marked(v: bv8, mask: bv8): bool {
    v & mask != 0
  }

  lemma OctetBits(c: bv32, v: bv8)
    requires v == (c & 0xFF) as bv8
    ensures Four(c) == [Marked(v, 1), Marked(v, 2), Marked(v, 4), Marked(v, 8)]
    ensures Four(By4(c)) == [Marked(v, 16), Marked(v, 32), Marked(v, 64), Marked(v, 128)]
  {
  }

  lemma ByteSum(v: bv8)
    ensures v as byte == Weight(Marked(v, 1)) + 2 * Weight(Marked(v, 2)) + 4 * Weight(Marked(v, 4)) + 8 * Weight(Marked(v, 8))
      + 16 * Weight(Marked(v, 16)) + 32 * Weight(Marked(v, 32)) + 64 * Weight(Marked(v, 64)) + 128 * Weight(Marked(v, 128))
  {
  }

  lemma OctetIsEight(c: bv32)
    ensures ByteBits(Octet(c)) == Eight(c)
  {
    hide Four, By4, Octet, Sum, ByteBits;
    OctetSum(c);
    BitsOfSum(Octet(c), Eight(c));
  }

  lemma ShiftIsByte(c: bv32)
    ensures c >> 8 == By8(c)
  {
  }

  lemma TwoShifts(c: bv32)
    ensures c >> 16 == (c >> 8) >> 8
  {
  }

  lemma ThreeShifts(c: bv32)
    ensures c >> 24 == (c >> 16) >> 8
  {
  }

  lemma SecondByte(c: bv32)
    ensures c >> 16 == By8(By8(c))
  {
    hide By8;
    TwoShifts(c);
    ShiftIsByte(c);
    ShiftIsByte(c >> 8);
  }

  lemma ThirdByte(c: bv32)
    ensures c >> 24 == By8(By8(By8(c)))
  {
    hide By8;
    ThreeShifts(c);
    SecondByte(c);
    ShiftIsByte(c >> 16);
  }

  lemma FourBytes(a: byte, b: byte, c: byte, d: byte)
    ensures Transmitted([a, b, c, d]) == ByteBits(a) + (ByteBits(b) + (ByteBits(c) + ByteBits(d)))
  {
    hide ByteBits;
    assert [a, b, c, d][..3] == [a, b, c] && [a, b, c][..2] == [a, b] && [a, b][..1] == [a] && [a][..0] == [];
    assert Transmitted([a]) == ByteBits(a);
    assert Transmitted([a, b]) == ByteBits(a) + ByteBits(b);
    assert Transmitted([a, b, c]) == ByteBits(a) + ByteBits(b) + ByteBits(c);
  }

  lemma OctetsAreBits(c: bv32)
    ensures Transmitted(Octets(c)) == LowBits(c, 32)
  {
    hide ByteBits, Eight, By8, Octet, Transmitted, LowBits;
    ShiftIsByte(c);
    SecondByte(c);
    ThirdByte(c);
    AllBits(c);
    OctetIsEight(c);
    OctetIsEight(By8(c));
    OctetIsEight(By8(By8(c)));
    OctetIsEight(By8(By8(By8(c))));
    FourBytes(Octet(c), Octet(By8(c)), Octet(By8(By8(c))), Octet(By8(By8(By8(c)))));
  }

  /** The four bytes that the firmware stores behind a record or in a header, sent after it, are the
      frame check sequence of the standard. */
  lemma StoredCrcIsCheckSequence(data: seq<byte>)
    ensures Transmitted(Crc32.CrcBytes(data)) == XorBits(OneBits(), Remainder(OnFirst(OneBits(), Transmitted(data) + ZeroBits(32))))
  {
    hide LowBits, Remainder, Transmitted, XorBits, OnFirst, Octets, Crc;
    CrcIsRemainder(data);
    OctetsAreBits(Crc(data));
  }
}

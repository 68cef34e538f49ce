/** firmware/common/crc32.c: the reflected CRC-32 of clause 3.2.9 of IEEE 802.3, bit by bit. */
module Crc32 {
  import opened Bytes

  const POLY: bv32 := 0xEDB88320

  function Iterate<T>(f: T -> T, s: T, n: nat): T
    decreases n, [s]  // the second part keeps the solver from unrolling literal counts
  {
    if n == 0 then s else Iterate(f, f(s), n - 1)
  }

  function Fold<S>(absorb: (S, byte) -> S, s: S, data: seq<byte>): S {
    if |data| == 0 then s else absorb(Fold(absorb, s, data[..|data| - 1]), data[|data| - 1])
  }

  /** One bit of the division: shift right and subtract the polynomial if a one fell out. */
  function Round(s: bv32): bv32 {
    (s >> 1) ^ (if s & 1 == 1 then POLY else 0)
  }

  function EightRounds(s: bv32): bv32 {
    Iterate(Round, s, 8)
  }

  function Xor(a: bv32, b: bv32): bv32 {
    a ^ b
  }

  function Widen(v: bv8): bv32 {
    v as bv32
  }

  function BitAt(on: bool, mask: bv8): bv8 {
    if on then mask else 0
  }

  function PackBits(x0: bool, x1: bool, x2: bool, x3: bool, x4: bool, x5: bool, x6: bool, x7: bool): bv8 {
    BitAt(x0, 1) | BitAt(x1, 2) | BitAt(x2, 4) | BitAt(x3, 8) | BitAt(x4, 16) | BitAt(x5, 32) | BitAt(x6, 64) | BitAt(x7, 128)
  }

  /** A byte of memory as a bit vector. */
  function Bits(b: byte): bv8 {
    PackBits(Bit(b, 0), Bit(b, 1), Bit(b, 2), Bit(b, 3), Bit(b, 4), Bit(b, 5), Bit(b, 6), Bit(b, 7))
  }

  function Absorb(s: bv32, b: byte): bv32 {
    EightRounds(Xor(s, Widen(Bits(b))))
  }

  function Crc(data: seq<byte>): bv32 {
    !Fold(Absorb, 0xFFFF_FFFF, data)
  }

  function Octet(c: bv32): byte {
    ((c & 0xFF) as bv8) as byte
  }

  function Octets(c: bv32): (r: seq<byte>)
    ensures |r| == 4
  {
    [Octet(c), Octet(c >> 8), Octet(c >> 16), Octet(c >> 24)]
  }

  /** The CRC as the four bytes the firmware stores, least significant first. */
  function CrcBytes(data: seq<byte>): (r: seq<byte>)
    ensures |r| == 4
  {
    Octets(Crc(data))
  }

  // ----- the loops of the source -----

  lemma MaskedRound(s: bv32)
    ensures (s >> 1) ^ (POLY & (0 - (s & 1))) == Round(s)
  {
    LowBit(s);
    if s & 1 == 1 {
      MaskOf(s & 1);
    } else {
      assert s & 1 == 0;
    }
  }

  /** The mask of a one that falls out selects the whole polynomial. */
  lemma MaskOf(bit: bv32)
    requires bit == 1
    ensures POLY & (0 - bit) == POLY
  {
  }

  /** The inner loop: eight rounds over the register that already holds the next byte. */
  method InnerLoop(start: bv32) returns (r: bv32)
    ensures r == EightRounds(start)
  {
    r := start;
    for b := 0 to 8
      invariant Iterate(Round, r, 8 - b) == Iterate(Round, start, 8)
    {
      MaskedRound(r);
      r := (r >> 1) ^ (POLY & (0 - (r & 1)));
    }
  }

  /** The outer loop, on the complemented register. */
  method OuterLoop(start: bv32, data: seq<byte>) returns (r: bv32)
    ensures r == Fold(Absorb, start, data)
  {
    r := start;
    for i := 0 to |data|
      invariant r == Fold(Absorb, start, data[..i])
    {
      FoldNext(Absorb, start, data, i);
      r := InnerLoop(Xor(r, Widen(Bits(data[i]))));
    }
    assert data[..|data|] == data;
  }

  method Crc32Update(crc: bv32, data: seq<byte>) returns (r: bv32)
    ensures r == !Fold(Absorb, !crc, data)
  {
    r := !crc;
    r := OuterLoop(r, data);
    r := !r;
  }

  method Crc32Of(data: seq<byte>) returns (r: bv32)
    ensures r == Crc(data)
  {
    r := Crc32Update(0, data);
  }

  // ----- folding, for any register -----

  lemma FoldNext<S>(absorb: (S, byte) -> S, s: S, data: seq<byte>, i: nat)
    requires i < |data|
    ensures Fold(absorb, s, data[..i + 1]) == absorb(Fold(absorb, s, data[..i]), data[i])
  {
    assert data[..i + 1][..i] == data[..i];
  }

  lemma {:induction false} FoldAppend<S>(absorb: (S, byte) -> S, s: S, a: seq<byte>, b: seq<byte>)
    ensures Fold(absorb, s, a + b) == Fold(absorb, Fold(absorb, s, a), b)
  {
    if |b| == 0 {
      assert a + b == a;
    } else {
      assert (a + b)[..|a + b| - 1] == a + b[..|b| - 1];
      FoldAppend(absorb, s, a, b[..|b| - 1]);
    }
  }

  lemma {:induction false} FoldInjective<S(!new)>(absorb: (S, byte) -> S, s: S, t: S, d: seq<byte>)
    requires forall x, y, b :: absorb(x, b) == absorb(y, b) ==> x == y
    requires Fold(absorb, s, d) == Fold(absorb, t, d)
    ensures s == t
  {
    if |d| > 0 {
      FoldInjective(absorb, s, t, d[..|d| - 1]);
    }
  }

  ghost predicate FourTell<S(!new)>(absorb: (S, byte) -> S) {
    forall s, a: seq<byte>, b: seq<byte> :: |a| == |b| == 4 && Fold(absorb, s, a) == Fold(absorb, s, b) ==> a == b
  }

  lemma BurstChangesFold<S(!new)>(absorb: (S, byte) -> S, s: S, m: seq<byte>, m': seq<byte>, k: nat)
    requires forall x, y, b :: absorb(x, b) == absorb(y, b) ==> x == y
    requires FourTell(absorb)
    requires |m| == |m'| && m != m'
    requires forall i :: 0 <= i < |m| && (i < k || k + 4 <= i) ==> m[i] == m'[i]
    ensures Fold(absorb, s, m) != Fold(absorb, s, m')
  {
    var lo, hi := Min(k, |m|), Min(k + 4, |m|);
    assert m[..lo] == m'[..lo] && m[hi..] == m'[hi..];
    Cut3(m, lo, hi);
    Cut3(m', lo, hi);
    MiddleTold(absorb, s, m[..lo], m[lo..hi], m'[lo..hi], m[hi..]);
  }

  lemma Cut3(m: seq<byte>, lo: nat, hi: nat)
    requires lo <= hi <= |m|
    ensures m == m[..lo] + m[lo..hi] + m[hi..]
  {
  }

  lemma MiddleTold<S(!new)>(absorb: (S, byte) -> S, s: S, pre: seq<byte>, a: seq<byte>, b: seq<byte>, post: seq<byte>)
    requires forall x, y, b :: absorb(x, b) == absorb(y, b) ==> x == y
    requires FourTell(absorb)
    requires |a| == |b| <= 4
    ensures Fold(absorb, s, pre + a + post) == Fold(absorb, s, pre + b + post) ==> a == b
  {
    FoldAppend(absorb, s, pre + a, post);
    FoldAppend(absorb, s, pre + b, post);
    if Fold(absorb, s, pre + a + post) == Fold(absorb, s, pre + b + post) {
      FoldInjective(absorb, Fold(absorb, s, pre + a), Fold(absorb, s, pre + b), post);
      FoldAppend(absorb, s, pre, a);
      FoldAppend(absorb, s, pre, b);
      ShortTold(absorb, Fold(absorb, s, pre), a, b);
    }
  }

  lemma ShortTold<S(!new)>(absorb: (S, byte) -> S, s: S, a: seq<byte>, b: seq<byte>)
    requires FourTell(absorb)
    requires |a| == |b| <= 4 && Fold(absorb, s, a) == Fold(absorb, s, b)
    ensures a == b
  {
    var fill := seq(4 - |a|, i => 0 as byte);
    FoldAppend(absorb, s, a, fill);
    FoldAppend(absorb, s, b, fill);
    assert a + fill == b + fill;
    assert a == (a + fill)[..|a|] && b == (b + fill)[..|b|];
  }

  // ----- iterating, for any function -----

  lemma {:induction false} IterateInjective<T(!new)>(f: T -> T, a: T, b: T, n: nat)
    requires forall x, y :: f(x) == f(y) ==> x == y
    requires Iterate(f, a, n) == Iterate(f, b, n)
    ensures a == b
    decreases n
  {
    if n > 0 {
      IterateInjective(f, f(a), f(b), n - 1);
    }
  }

  lemma {:induction false} IterateHomomorphic<T(!new)>(f: T -> T, plus: (T, T) -> T, a: T, b: T, n: nat)
    requires forall x, y :: f(plus(x, y)) == plus(f(x), f(y))
    ensures Iterate(f, plus(a, b), n) == plus(Iterate(f, a, n), Iterate(f, b, n))
    decreases n
  {
    if n > 0 {
      IterateHomomorphic(f, plus, f(a), f(b), n - 1);
    }
  }

  // ----- one round is linear and loses nothing -----

  lemma RoundInjective(a: bv32, b: bv32)
    requires Round(a) == Round(b)
    ensures a == b
  {
  }

  lemma EightInjective(a: bv32, b: bv32)
    requires EightRounds(a) == EightRounds(b)
    ensures a == b
  {
    forall x, y | Round(x) == Round(y)
      ensures x == y
    {
      RoundInjective(x, y);
    }
    IterateInjective(Round, a, b, 8);
  }

  lemma LowBitOfXor(a: bv32, b: bv32)
    ensures (a ^ b) & 1 == (a & 1) ^ (b & 1)
  {
  }

  lemma ShiftOfXor(a: bv32, b: bv32)
    ensures (a ^ b) >> 1 == (a >> 1) ^ (b >> 1)
  {
  }

  lemma LowBit(a: bv32)
    ensures a & 1 == 0 || a & 1 == 1
  {
  }

  lemma XorSwap(a: bv32, b: bv32, c: bv32, d: bv32)
    ensures (a ^ b) ^ (c ^ d) == (a ^ c) ^ (b ^ d)
  {
  }

  lemma RoundLinear(a: bv32, b: bv32)
    ensures Round(a ^ b) == Round(a) ^ Round(b)
  {
    LowBitOfXor(a, b);
    ShiftOfXor(a, b);
    LowBit(a);
    LowBit(b);
    XorSwap(a >> 1, b >> 1, if a & 1 == 1 then POLY else 0, if b & 1 == 1 then POLY else 0);
  }

  lemma EightLinear(a: bv32, b: bv32)
    ensures EightRounds(Xor(a, b)) == Xor(EightRounds(a), EightRounds(b))
  {
    forall x, y
      ensures Round(Xor(x, y)) == Xor(Round(x), Round(y))
    {
      RoundLinear(x, y);
    }
    IterateHomomorphic(Round, Xor, a, b, 8);
  }

  // ----- eight rounds move a value with a clear low byte down by one byte -----

  function Up(x: bv32): bv32 {
    x << 8
  }

  predicate TopByteClear(x: bv32) {
    x & 0xFF00_0000 == 0
  }

  function Double(x: bv32): bv32 {
    x << 1
  }

  predicate TopClear(x: bv32) {
    x & 0x8000_0000 == 0
  }

  lemma RoundUndoesDouble(x: bv32)
    requires TopClear(x)
    ensures Round(Double(x)) == x
  {
  }

  lemma EightDoubles(x: bv32)
    requires TopByteClear(x)
    ensures var d1 := Double(x); var d2 := Double(d1); var d3 := Double(d2); var d4 := Double(d3);
            var d5 := Double(d4); var d6 := Double(d5); var d7 := Double(d6);
            && TopClear(x) && TopClear(d1) && TopClear(d2) && TopClear(d3) && TopClear(d4) && TopClear(d5) && TopClear(d6) && TopClear(d7)
            && Double(d7) == Up(x)
  {
  }

  lemma EightStepsBack<T(!new)>(f: T -> T, double: T -> T, clear: T -> bool, x: T)
    requires forall z :: clear(z) ==> f(double(z)) == z
    requires var d1 := double(x); var d2 := double(d1); var d3 := double(d2); var d4 := double(d3);
             var d5 := double(d4); var d6 := double(d5); var d7 := double(d6);
             clear(x) && clear(d1) && clear(d2) && clear(d3) && clear(d4) && clear(d5) && clear(d6) && clear(d7)
    ensures Iterate(f, double(double(double(double(double(double(double(double(x)))))))), 8) == x
  {
    var d1 := double(x); var d2 := double(d1); var d3 := double(d2); var d4 := double(d3);
    var d5 := double(d4); var d6 := double(d5); var d7 := double(d6); var d8 := double(d7);
    assert Iterate(f, d8, 8) == Iterate(f, d7, 7) == Iterate(f, d6, 6);
    assert Iterate(f, d6, 6) == Iterate(f, d5, 5) == Iterate(f, d4, 4);
    assert Iterate(f, d4, 4) == Iterate(f, d3, 3) == Iterate(f, d2, 2);
    assert Iterate(f, d2, 2) == Iterate(f, d1, 1) == Iterate(f, x, 0);
  }

  lemma EightRoundsUndoUp(x: bv32)
    requires TopByteClear(x)
    ensures EightRounds(Up(x)) == x
  {
    forall z | TopClear(z)
      ensures Round(Double(z)) == z
    {
      RoundUndoesDouble(z);
    }
    EightDoubles(x);
    EightStepsBack(Round, Double, TopClear, x);
  }

  lemma AbsorbLater(s: bv32, x: bv32)
    requires TopByteClear(x)
    ensures Xor(EightRounds(s), x) == EightRounds(Xor(s, Up(x)))
  {
    EightLinear(s, Up(x));
    EightRoundsUndoUp(x);
  }

  // ----- four bytes are absorbed as one 32-bit block -----

  /** Bytes fed in later may as well be xored in early, one byte position higher. */
  lemma FourAbsorptions<T(!new)>(eight: T -> T, xor: (T, T) -> T, up: T -> T, clear: T -> bool, s: T, w1: T, w2: T, w3: T)
    requires forall s, x :: clear(x) ==> xor(eight(s), x) == eight(xor(s, up(x)))
    requires clear(w1) && clear(w2) && clear(up(w2)) && clear(w3) && clear(up(w3)) && clear(up(up(w3)))
    ensures eight(xor(eight(xor(eight(xor(eight(s), w1)), w2)), w3))
         == eight(eight(eight(eight(xor(xor(xor(s, up(w1)), up(up(w2))), up(up(up(w3))))))))
  {
    var u2 := xor(s, up(w1));
    var u3 := xor(u2, up(up(w2)));
    assert xor(eight(s), w1) == eight(u2);
    assert xor(eight(u2), up(w2)) == eight(u3);
    assert xor(eight(eight(u2)), w2) == eight(eight(u3));
    assert xor(eight(u3), up(up(w3))) == eight(xor(u3, up(up(up(w3)))));
    assert xor(eight(eight(u3)), up(w3)) == eight(xor(eight(u3), up(up(w3))));
    assert xor(eight(eight(eight(u3))), w3) == eight(xor(eight(eight(u3)), up(w3)));
  }

  lemma {:induction false} FoldOfFour<S>(absorb: (S, byte) -> S, s: S, d: seq<byte>)
    requires |d| == 4
    ensures Fold(absorb, s, d) == absorb(absorb(absorb(absorb(s, d[0]), d[1]), d[2]), d[3])
  {
    FoldNext(absorb, s, d, 0);
    FoldNext(absorb, s, d, 1);
    FoldNext(absorb, s, d, 2);
    FoldNext(absorb, s, d, 3);
    assert d[..4] == d && d[..0] == [];
  }

  function Pack(a0: bv8, a1: bv8, a2: bv8, a3: bv8): bv32 {
    Xor(Xor(Xor(Widen(a0), Up(Widen(a1))), Up(Up(Widen(a2)))), Up(Up(Up(Widen(a3)))))
  }

  lemma WidenedClear(v: bv8)
    ensures TopByteClear(Widen(v)) && TopByteClear(Up(Widen(v))) && TopByteClear(Up(Up(Widen(v))))
  {
  }

  lemma AbsorbFour(s: bv32, a0: bv8, a1: bv8, a2: bv8, a3: bv8)
    ensures EightRounds(Xor(EightRounds(Xor(EightRounds(Xor(EightRounds(Xor(s, Widen(a0))), Widen(a1))), Widen(a2))), Widen(a3)))
         == EightRounds(EightRounds(EightRounds(EightRounds(Xor(s, Pack(a0, a1, a2, a3))))))
  {
    forall s, x | TopByteClear(x)
      ensures Xor(EightRounds(s), x) == EightRounds(Xor(s, Up(x)))
    {
      AbsorbLater(s, x);
    }
    WidenedClear(a1); WidenedClear(a2); WidenedClear(a3);
    FourAbsorptions(EightRounds, Xor, Up, TopByteClear, Xor(s, Widen(a0)), Widen(a1), Widen(a2), Widen(a3));
    var w0, w1, w2, w3 := Widen(a0), Up(Widen(a1)), Up(Up(Widen(a2))), Up(Up(Up(Widen(a3))));
    XorAssociates(s, w0, w1);
    XorAssociates(s, Xor(w0, w1), w2);
    XorAssociates(s, Xor(Xor(w0, w1), w2), w3);
  }

  lemma XorAssociates(x: bv32, y: bv32, z: bv32)
    ensures Xor(Xor(x, y), z) == Xor(x, Xor(y, z))
  {
  }

  lemma XorCancels(s: bv32, x: bv32, y: bv32)
    ensures Xor(s, x) == Xor(s, y) ==> x == y
    ensures Xor(x, s) == Xor(y, s) ==> x == y
  {
  }

  lemma PackDigits(a0: bv8, a1: bv8, a2: bv8, a3: bv8)
    ensures Pack(a0, a1, a2, a3) & 0xFF == a0 as bv32
    ensures Pack(a0, a1, a2, a3) & 0xFF00 == (a1 as bv32) << 8
    ensures Pack(a0, a1, a2, a3) & 0xFF_0000 == (a2 as bv32) << 16
    ensures Pack(a0, a1, a2, a3) & 0xFF00_0000 == (a3 as bv32) << 24
  {
  }

  lemma DigitTells(a: bv8, b: bv8)
    ensures (a as bv32 == b as bv32) ==> a == b
    ensures (a as bv32) << 8 == (b as bv32) << 8 ==> a == b
    ensures (a as bv32) << 16 == (b as bv32) << 16 ==> a == b
    ensures (a as bv32) << 24 == (b as bv32) << 24 ==> a == b
  {
  }

  lemma PackInjective(a0: bv8, a1: bv8, a2: bv8, a3: bv8, b0: bv8, b1: bv8, b2: bv8, b3: bv8)
    requires Pack(a0, a1, a2, a3) == Pack(b0, b1, b2, b3)
    ensures a0 == b0 && a1 == b1 && a2 == b2 && a3 == b3
  {
    PackDigits(a0, a1, a2, a3);
    PackDigits(b0, b1, b2, b3);
    DigitTells(a0, b0); DigitTells(a1, b1); DigitTells(a2, b2); DigitTells(a3, b3);
  }

  lemma FourEightsInjective<T(!new)>(f: T -> T, x: T, y: T)
    requires forall x, y :: f(x) == f(y) ==> x == y
    requires f(f(f(f(x)))) == f(f(f(f(y))))
    ensures x == y
  {
    assert f(f(f(x))) == f(f(f(y)));
    assert f(f(x)) == f(f(y));
  }

  lemma FourBitsInjective(s: bv32, a0: bv8, a1: bv8, a2: bv8, a3: bv8, b0: bv8, b1: bv8, b2: bv8, b3: bv8)
    requires EightRounds(Xor(EightRounds(Xor(EightRounds(Xor(EightRounds(Xor(s, Widen(a0))), Widen(a1))), Widen(a2))), Widen(a3)))
          == EightRounds(Xor(EightRounds(Xor(EightRounds(Xor(EightRounds(Xor(s, Widen(b0))), Widen(b1))), Widen(b2))), Widen(b3)))
    ensures a0 == b0 && a1 == b1 && a2 == b2 && a3 == b3
  {
    AbsorbFour(s, a0, a1, a2, a3);
    AbsorbFour(s, b0, b1, b2, b3);
    forall x, y | EightRounds(x) == EightRounds(y)
      ensures x == y
    {
      EightInjective(x, y);
    }
    FourEightsInjective(EightRounds, Xor(s, Pack(a0, a1, a2, a3)), Xor(s, Pack(b0, b1, b2, b3)));
    XorCancels(s, Pack(a0, a1, a2, a3), Pack(b0, b1, b2, b3));
    PackInjective(a0, a1, a2, a3, b0, b1, b2, b3);
  }

  lemma PackBitsInjective(x0: bool, x1: bool, x2: bool, x3: bool, x4: bool, x5: bool, x6: bool, x7: bool,
                          y0: bool, y1: bool, y2: bool, y3: bool, y4: bool, y5: bool, y6: bool, y7: bool)
    requires PackBits(x0, x1, x2, x3, x4, x5, x6, x7) == PackBits(y0, y1, y2, y3, y4, y5, y6, y7)
    ensures x0 == y0 && x1 == y1 && x2 == y2 && x3 == y3 && x4 == y4 && x5 == y5 && x6 == y6 && x7 == y7
  {
  }

  lemma BitsInjective(a: byte, b: byte)
    requires Bits(a) == Bits(b)
    ensures a == b
  {
    PackBitsInjective(Bit(a, 0), Bit(a, 1), Bit(a, 2), Bit(a, 3), Bit(a, 4), Bit(a, 5), Bit(a, 6), Bit(a, 7),
                      Bit(b, 0), Bit(b, 1), Bit(b, 2), Bit(b, 3), Bit(b, 4), Bit(b, 5), Bit(b, 6), Bit(b, 7));
    SameBits(a, b);
  }

  lemma SameBits(a: byte, b: byte)
    requires Bit(a, 0) == Bit(b, 0) && Bit(a, 1) == Bit(b, 1) && Bit(a, 2) == Bit(b, 2) && Bit(a, 3) == Bit(b, 3)
    requires Bit(a, 4) == Bit(b, 4) && Bit(a, 5) == Bit(b, 5) && Bit(a, 6) == Bit(b, 6) && Bit(a, 7) == Bit(b, 7)
    ensures a == b
  {
    assert Pow2(8) == 256;
    BitsDetermine(a, b, 8, 256);
  }

  /** The register after four bytes tells which four bytes they were. */
  lemma FourInjective(s: bv32, a: seq<byte>, b: seq<byte>)
    requires |a| == |b| == 4 && Fold(Absorb, s, a) == Fold(Absorb, s, b)
    ensures a == b
  {
    FoldOfFour(Absorb, s, a);
    FoldOfFour(Absorb, s, b);
    FourBitsInjective(s, Bits(a[0]), Bits(a[1]), Bits(a[2]), Bits(a[3]), Bits(b[0]), Bits(b[1]), Bits(b[2]), Bits(b[3]));
    BitsInjective(a[0], b[0]); BitsInjective(a[1], b[1]); BitsInjective(a[2], b[2]); BitsInjective(a[3], b[3]);
  }

  /** The register after a byte tells, given the byte, what it was before. */
  lemma AbsorbInjective(x: bv32, y: bv32, b: byte)
    requires Absorb(x, b) == Absorb(y, b)
    ensures x == y
  {
    EightInjective(Xor(x, Widen(Bits(b))), Xor(y, Widen(Bits(b))));
    XorCancels(Widen(Bits(b)), x, y);
  }

  // ----- what callers rely on -----

  /** Feeding the pieces of a message one after the other gives the CRC of the whole. */
  lemma UpdateChains(crc: bv32, a: seq<byte>, b: seq<byte>)
    ensures Fold(Absorb, !!Fold(Absorb, !crc, a), b) == Fold(Absorb, !crc, a + b)
  {
    FoldAppend(Absorb, !crc, a, b);
  }

  lemma ComplementInjective(x: bv32, y: bv32)
    requires !x == !y
    ensures x == y
  {
  }

  /** Every change that stays within four consecutive bytes changes the CRC, wherever it
      sits and however long the message is. */
  lemma BurstDetected(m: seq<byte>, m': seq<byte>, k: nat)
    requires |m| == |m'| && m != m'
    requires forall i :: 0 <= i < |m| && (i < k || k + 4 <= i) ==> m[i] == m'[i]
    ensures Crc(m) != Crc(m')
  {
    forall x, y, b | Absorb(x, b) == Absorb(y, b)
      ensures x == y
    {
      AbsorbInjective(x, y, b);
    }
    forall s, a: seq<byte>, b: seq<byte> | |a| == |b| == 4 && Fold(Absorb, s, a) == Fold(Absorb, s, b)
      ensures a == b
    {
      FourInjective(s, a, b);
    }
    BurstChangesFold(Absorb, 0xFFFF_FFFF, m, m', k);
    if Crc(m) == Crc(m') {
      ComplementInjective(Fold(Absorb, 0xFFFF_FFFF, m), Fold(Absorb, 0xFFFF_FFFF, m'));
    }
  }

  lemma OctetTells(v: bv8, w: bv8)
    requires v as int == w as int
    ensures v == w
  {
  }

  function Low(c: bv32): bv8 {
    (c & 0xFF) as bv8
  }

  lemma OctetEqual(c: bv32, d: bv32)
    requires Octet(c) == Octet(d)
    ensures Low(c) == Low(d)
  {
    OctetTells((c & 0xFF) as bv8, (d & 0xFF) as bv8);
  }

  lemma OctetsTell(a: bv32, b: bv32)
    requires Low(a) == Low(b) && Low(a >> 8) == Low(b >> 8) && Low(a >> 16) == Low(b >> 16) && Low(a >> 24) == Low(b >> 24)
    ensures a == b
  {
  }

  lemma FourOctetsTell(c: bv32, d: bv32)
    requires Octet(c) == Octet(d) && Octet(c >> 8) == Octet(d >> 8) && Octet(c >> 16) == Octet(d >> 16) && Octet(c >> 24) == Octet(d >> 24)
    ensures c == d
  {
    OctetEqual(c, d);
    OctetEqual(c >> 8, d >> 8);
    OctetEqual(c >> 16, d >> 16);
    OctetEqual(c >> 24, d >> 24);
    OctetsTell(c, d);
  }

  lemma SameParts<T>(a0: T, a1: T, a2: T, a3: T, b0: T, b1: T, b2: T, b3: T)
    requires [a0, a1, a2, a3] == [b0, b1, b2, b3]
    ensures a0 == b0 && a1 == b1 && a2 == b2 && a3 == b3
  {
    var x, y := [a0, a1, a2, a3], [b0, b1, b2, b3];
    assert x[0] == y[0] && x[1] == y[1] && x[2] == y[2] && x[3] == y[3];
  }

  lemma OctetsInjective(c: bv32, d: bv32)
    requires Octets(c) == Octets(d)
    ensures c == d
  {
    SameParts(Octet(c), Octet(c >> 8), Octet(c >> 16), Octet(c >> 24), Octet(d), Octet(d >> 8), Octet(d >> 16), Octet(d >> 24));
    FourOctetsTell(c, d);
  }

  /** The four stored bytes tell which CRC they came from. */
  lemma CrcBytesTell(m: seq<byte>, m': seq<byte>)
    requires CrcBytes(m) == CrcBytes(m')
    ensures Crc(m) == Crc(m')
  {
    OctetsInjective(Crc(m), Crc(m'));
  }
}

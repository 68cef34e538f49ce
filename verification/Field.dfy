/** Field arithmetic modulo 2^255 - 19 on ten signed limbs of 26 and 25 bits in turn, as in
    monocypher.c. Limbs are i32 and intermediate sums i64: that nothing overflows is part of
    what is proved. */
module Fields {
  import opened Bytes
  import Barrett

  type i32 = n: int | -0x8000_0000 <= n < 0x8000_0000
  type i64 = n: int | -0x8000_0000_0000_0000 <= n < 0x8000_0000_0000_0000

  const P := 57896044618658097711785492504343953926634992332820282019728792003956564819949

  /** 2^(51 i): the weight of the i-th pair of limbs. */
  function Weight(i: nat): (w: nat)
    ensures w > 0
  {
    if i == 0 then 1 else 0x8_0000_0000_0000 * Weight(i - 1)
  }

  /** The number that the first `n` pairs of limbs stand for. */
  function Part(t: seq<int>, n: nat): int
    requires 2 * n <= |t|
  {
    if n == 0 then 0 else Part(t, n - 1) + Weight(n - 1) * (t[2 * n - 2] + 0x400_0000 * t[2 * n - 1])
  }

  function Num(t: seq<int>): int
    requires |t| == 10
  {
    Part(t, 5)
  }

  /** The number as one sum over the limbs. */
  lemma NumIsSum(t: seq<int>)
    requires |t| == 10
    ensures Num(t) ==
      t[0] + 0x400_0000 * t[1] + 0x8_0000_0000_0000 * t[2] + 0x2000_0000_0000_0000_0000 * t[3]
      + 0x40_0000_0000_0000_0000_0000_0000 * t[4] + 0x1_0000_0000_0000_0000_0000_0000_0000_0000 * t[5]
      + 0x200_0000_0000_0000_0000_0000_0000_0000_0000_0000 * t[6] + 0x8_0000_0000_0000_0000_0000_0000_0000_0000_0000_0000_0000 * t[7]
      + 0x1000_0000_0000_0000_0000_0000_0000_0000_0000_0000_0000_0000_0000 * t[8] + 0x40_0000_0000_0000_0000_0000_0000_0000_0000_0000_0000_0000_0000_0000_0000 * t[9]
  {
    hide Weight;
    Weights();
    assert Part(t, 0) == 0;
    assert Part(t, 1) == t[0] + 0x400_0000 * t[1];
    assert Part(t, 2) == Part(t, 1) + Weight(1) * (t[2] + 0x400_0000 * t[3]);
    assert Part(t, 3) == Part(t, 2) + Weight(2) * (t[4] + 0x400_0000 * t[5]);
    assert Part(t, 4) == Part(t, 3) + Weight(3) * (t[6] + 0x400_0000 * t[7]);
    assert Part(t, 5) == Part(t, 4) + Weight(4) * (t[8] + 0x400_0000 * t[9]);
  }

  lemma Weights()
    ensures Weight(0) == 1 && Weight(1) == 0x8_0000_0000_0000 && Weight(2) == Weight(1) * 0x8_0000_0000_0000
    ensures Weight(3) == Weight(2) * 0x8_0000_0000_0000 && Weight(4) == Weight(3) * 0x8_0000_0000_0000
    ensures Weight(5) == Weight(4) * 0x8_0000_0000_0000 == P + 19
  {
  }

  /** Every even limb is at most `even` in size and every odd one at most `odd`. */
  predicate Within(t: seq<int>, even: int, odd: int) {
    forall i :: 0 <= i < |t| ==> if i % 2 == 0 then -even <= t[i] <= even else -odd <= t[i] <= odd
  }

  lemma WithinLimbs(t: seq<int>, even: int, odd: int)
    requires |t| == 10
    ensures Within(t, even, odd) <==>
      && -even <= t[0] <= even && -odd <= t[1] <= odd && -even <= t[2] <= even && -odd <= t[3] <= odd && -even <= t[4] <= even
      && -odd <= t[5] <= odd && -even <= t[6] <= even && -odd <= t[7] <= odd && -even <= t[8] <= even && -odd <= t[9] <= odd
  {
    if Within(t, even, odd) {
      assert -even <= t[0] <= even && -odd <= t[1] <= odd && -even <= t[2] <= even && -odd <= t[3] <= odd && -even <= t[4] <= even;
    }
  }

  /** What FE_CARRY leaves: limbs below 1.1 * 2^25 and 1.1 * 2^24. */
  predicate Tight(t: seq<int>) {
    |t| == 10 && Within(t, 36909875, 18454937)
  }

  /** What the products take: limbs below 1.65 * 2^26 and 1.65 * 2^25. */
  predicate Loose(t: seq<int>) {
    |t| == 10 && Within(t, 110729625, 55364812)
  }

  /** Tight elements may be added or subtracted once before they are multiplied. */
  lemma SumOfTightIsLoose(f: seq<int>, g: seq<int>, h: seq<int>, minus: bool)
    requires Tight(f) && Tight(g) && |h| == 10
    requires forall i :: 0 <= i < 10 ==> h[i] == if minus then f[i] - g[i] else f[i] + g[i]
    ensures Loose(h) && Num(h) == if minus then Num(f) - Num(g) else Num(f) + Num(g)
  {
    hide Num, Within;
    WithinLimbs(f, 36909875, 18454937);
    WithinLimbs(g, 36909875, 18454937);
    WithinLimbs(h, 110729625, 55364812);
    NumIsSum(f);
    NumIsSum(g);
    NumIsSum(h);
  }

  // ----- carries -----

  /** The first addition of FE_CARRY, on all of the range that its comment allows: it fits exactly
      below 2^63 - 2^25. */
  lemma FirstAdditionFits(t0: int)
    requires -0x8000_0000_0000_0000 < t0 < 0x8000_0000_0000_0000
    ensures -0x8000_0000_0000_0000 <= t0 + 0x200_0000 < 0x8000_0000_0000_0000 <==> t0 < 0x8000_0000_0000_0000 - 0x200_0000
  {
  }

  /** A t0 that the comment allows and that overflows. */
  lemma CommentAllowsOverflow() returns (t0: i64)
    ensures -0x8000_0000_0000_0000 < t0 < 0x8000_0000_0000_0000 && t0 as int + 0x200_0000 >= 0x8000_0000_0000_0000
  {
    t0 := 0x8000_0000_0000_0000 - 0x200_0000;
  }

  function Carry26(t: i64): (c: i64)
    requires t + 0x200_0000 < 0x8000_0000_0000_0000
    ensures -0x200_0000 <= t - 0x400_0000 * c < 0x200_0000
    ensures -0x20_0000_0000 <= c < 0x20_0000_0000
  {
    (t + 0x200_0000) / 0x400_0000
  }

  function Carry25(t: i64): (c: i64)
    requires t + 0x100_0000 < 0x8000_0000_0000_0000
    ensures -0x100_0000 <= t - 0x200_0000 * c < 0x100_0000
    ensures -0x40_0000_0000 <= c < 0x40_0000_0000
  {
    (t + 0x100_0000) / 0x200_0000
  }

  /** The 64-bit products that take a carry out of its limb. */
  function Times26(c: i64): (p: i64)
    requires -0x20_0000_0000 <= c < 0x20_0000_0000
  {
    c * 0x400_0000
  }

  function Times25(c: i64): (p: i64)
    requires -0x40_0000_0000 <= c < 0x40_0000_0000
  {
    c * 0x200_0000
  }

  /** The limbs after the first eight carries. */
  ghost predicate CarriedUp(t: seq<int>, r: seq<int>, c: seq<int>) {
    && |t| == |r| == 10 && |c| == 8
    && r[0] == t[0] - 0x400_0000 * c[0]
    && r[1] == t[1] + c[0] - 0x200_0000 * c[2]
    && r[2] == t[2] + c[2] - 0x400_0000 * c[4]
    && r[3] == t[3] + c[4] - 0x200_0000 * c[6]
    && r[4] == t[4] - 0x400_0000 * c[1] + c[6]
    && r[5] == t[5] + c[1] - 0x200_0000 * c[3]
    && r[6] == t[6] + c[3] - 0x400_0000 * c[5]
    && r[7] == t[7] + c[5] - 0x200_0000 * c[7]
    && r[8] == t[8] + c[7] && r[9] == t[9]
  }

  /** Carries move value from limb to limb. */
  lemma CarriesKeepNumber(t: seq<int>, r: seq<int>, c: seq<int>)
    requires CarriedUp(t, r, c)
    ensures Num(r) == Num(t)
  {
    hide Num;
    NumIsSum(t);
    NumIsSum(r);
  }

  predicate UpTo(a: int, bound: int) {
    -bound <= a <= bound
  }

  /** The first eight lines of FE_CARRY. All shifts of signed numbers are arithmetic. */
  method CarryUp(t: seq<i64>) returns (r: seq<i64>)
    requires |t| == 10
    requires t[0] < 0x8000_0000_0000_0000 - 0x200_0000
    requires forall i :: 1 <= i < 10 ==> -0x4000_0000_0000_0000 < t[i] < 0x4000_0000_0000_0000
    ensures |r| == 10 && Num(r) == Num(t)
    ensures UpTo(r[0], 0x200_0000) && UpTo(r[1], 0x100_0000) && UpTo(r[2], 0x200_0000) && UpTo(r[3], 0x100_0000)
    ensures UpTo(r[4], 0x80_0000_0000) && UpTo(r[5], 0x100_0000) && UpTo(r[6], 0x200_0000) && UpTo(r[7], 0x100_0000)
    ensures UpTo(r[8], 0x6000_0000_0000_0000) && UpTo(r[9], 0x4000_0000_0000_0000)
  {
    hide Carry26, Carry25, Num;
    var t0: i64, t1: i64, t2: i64, t3: i64, t4: i64 := t[0], t[1], t[2], t[3], t[4];
    var t5: i64, t6: i64, t7: i64, t8: i64 := t[5], t[6], t[7], t[8];
    var c: i64;
    c := Carry26(t0);
    ghost var c0 := c;
    t0 := t0 - Times26(c);
    t1 := t1 + c;
    c := Carry26(t4);
    ghost var c1 := c;
    t4 := t4 - Times26(c);
    t5 := t5 + c;
    c := Carry25(t1);
    ghost var c2 := c;
    t1 := t1 - Times25(c);
    t2 := t2 + c;
    c := Carry25(t5);
    ghost var c3 := c;
    t5 := t5 - Times25(c);
    t6 := t6 + c;
    c := Carry26(t2);
    ghost var c4 := c;
    t2 := t2 - Times26(c);
    t3 := t3 + c;
    c := Carry26(t6);
    ghost var c5 := c;
    t6 := t6 - Times26(c);
    t7 := t7 + c;
    c := Carry25(t3);
    ghost var c6 := c;
    t3 := t3 - Times25(c);
    t4 := t4 + c;
    c := Carry25(t7);
    ghost var c7 := c;
    t7 := t7 - Times25(c);
    t8 := t8 + c;
    r := [t0, t1, t2, t3, t4, t5, t6, t7, t8, t[9]];
    CarriesKeepNumber(t, r, [c0, c1, c2, c3, c4, c5, c6, c7]);
  }

  lemma WrapKeepsNumber(t: seq<int>, r: seq<int>, c: seq<int>)
    requires |t| == |r| == 10 && |c| == 4
    requires r == t[0 := t[0] + 19 * c[2] - 0x400_0000 * c[3]][1 := t[1] + c[3]][4 := t[4] - 0x400_0000 * c[0]][5 := t[5] + c[0]]
                   [8 := t[8] - 0x400_0000 * c[1]][9 := t[9] + c[1] - 0x200_0000 * c[2]]
    ensures Num(r) == Num(t) - c[2] * P
  {
    hide Num;
    NumIsSum(t);
    NumIsSum(r);
  }

  /** The last four lines; the third of these carries wraps around. */
  method CarryAround(t: seq<i64>) returns (r: seq<i32>, ghost q: int)
    requires |t| == 10
    requires UpTo(t[0], 0x200_0000) && UpTo(t[1], 0x100_0000) && UpTo(t[2], 0x200_0000) && UpTo(t[3], 0x100_0000)
    requires UpTo(t[4], 0x80_0000_0000) && UpTo(t[5], 0x100_0000) && UpTo(t[6], 0x200_0000) && UpTo(t[7], 0x100_0000)
    requires UpTo(t[8], 0x6000_0000_0000_0000) && UpTo(t[9], 0x4000_0000_0000_0000)
    ensures |r| == 10 && Tight(r) && Num(r) == Num(t) - q * P
  {
    hide Carry26, Carry25, Num, Within;
    var t0: i64, t1: i64, t4: i64, t5: i64, t8: i64, t9: i64 := t[0], t[1], t[4], t[5], t[8], t[9];
    var c: i64;
    c := Carry26(t4);
    ghost var c8 := c;
    t4 := t4 - Times26(c);
    assert -0x2001 <= c <= 0x2001;
    t5 := t5 + c;
    c := Carry26(t8);
    ghost var c9 := c;
    t8 := t8 - Times26(c);
    t9 := t9 + c;
    c := Carry25(t9);
    ghost var c10 := c;
    t9 := t9 - Times25(c);
    var around: i64 := c * 19;
    t0 := t0 + around;
    assert -0x1000_0000_0000 < t0 < 0x1000_0000_0000;
    c := Carry26(t0);
    ghost var c11 := c;
    t0 := t0 - Times26(c);
    assert -0x4_0001 <= c <= 0x4_0001;
    t1 := t1 + c;
    q := c10;
    r := [t0, t1, t[2], t[3], t4, t5, t[6], t[7], t8, t9];
    WrapKeepsNumber(t, r, [c8, c9, c10, c11]);
    WithinLimbs(r, 36909875, 18454937);
  }

  /** FE_CARRY */
  method FeCarry(h: array<i32>, t: seq<i64>) returns (ghost q: int)
    requires h.Length == 10 && |t| == 10
    requires t[0] < 0x8000_0000_0000_0000 - 0x200_0000
    requires forall i :: 1 <= i < 10 ==> -0x4000_0000_0000_0000 < t[i] < 0x4000_0000_0000_0000
    modifies h
    ensures Tight(h[..]) && Num(h[..]) == Num(t) - q * P
  {
    hide Num, Tight;
    var up := CarryUp(t);
    var r;
    r, q := CarryAround(up);
    CopyLimbs(h, r);
  }

  method CopyLimbs(h: array<i32>, r: seq<i32>)
    requires h.Length == |r| == 10
    modifies h
    ensures h[..] == r
  {
    h[0], h[1], h[2], h[3], h[4], h[5], h[6], h[7], h[8], h[9] := r[0], r[1], r[2], r[3], r[4], r[5], r[6], r[7], r[8], r[9];
    assert h[..] == r;
  }

  // ----- products -----

  /** 2^(25.5 i), rounded up: the weight of limb i. */
  function LimbWeight(i: nat): int
    requires i < 10
  {
    if i % 2 == 0 then Weight(i / 2) else 0x400_0000 * Weight(i / 2)
  }

  /** What limb i of one factor contributes to column k of the product, per unit: the limb of
      the other factor that belongs there, doubled when both limbs are odd, and times 19 when
      it comes around. */
  function Entry(g: seq<int>, i: nat, k: nat): int
    requires |g| == 10 && i < 10 && k < 10
  {
    var j := (k - i) % 10;
    (if i % 2 == 1 && j % 2 == 1 then 2 else 1) * (if i > k then 19 else 1) * g[j]
  }

  function Shift(g: seq<int>, i: nat): (r: seq<int>)
    requires |g| == 10 && i < 10
    ensures |r| == 10
  {
    [Entry(g, i, 0), Entry(g, i, 1), Entry(g, i, 2), Entry(g, i, 3), Entry(g, i, 4),
     Entry(g, i, 5), Entry(g, i, 6), Entry(g, i, 7), Entry(g, i, 8), Entry(g, i, 9)]
  }

  function AddScaled(u: seq<int>, a: int, v: seq<int>): (r: seq<int>)
    requires |u| == |v| == 10
    ensures |r| == 10 && forall k :: 0 <= k < 10 ==> r[k] == u[k] + a * v[k]
  {
    seq(10, k requires 0 <= k < 10 => u[k] + a * v[k])
  }

  /** The schoolbook product of the first n limbs of f with g, column by column. */
  function Columns(f: seq<int>, g: seq<int>, n: nat): (r: seq<int>)
    requires |f| == |g| == 10 && n <= 10
    ensures |r| == 10
  {
    if n == 0 then [0, 0, 0, 0, 0, 0, 0, 0, 0, 0] else AddScaled(Columns(f, g, n - 1), f[n - 1], Shift(g, n - 1))
  }

  function Head(f: seq<int>, n: nat): int
    requires |f| == 10 && n <= 10
  {
    if n == 0 then 0 else Head(f, n - 1) + f[n - 1] * LimbWeight(n - 1)
  }

  lemma HeadIsNum(f: seq<int>)
    requires |f| == 10
    ensures Head(f, 10) == Num(f)
  {
    hide Num, Weight;
    Weights();
    NumIsSum(f);
    assert Head(f, 0) == 0;
    assert Head(f, 1) == Head(f, 0) + f[0] * LimbWeight(0);
    assert Head(f, 2) == Head(f, 1) + f[1] * LimbWeight(1);
    assert Head(f, 3) == Head(f, 2) + f[2] * LimbWeight(2);
    assert Head(f, 4) == Head(f, 3) + f[3] * LimbWeight(3);
    assert Head(f, 5) == Head(f, 4) + f[4] * LimbWeight(4);
    assert Head(f, 6) == Head(f, 5) + f[5] * LimbWeight(5);
    assert Head(f, 7) == Head(f, 6) + f[6] * LimbWeight(6);
    assert Head(f, 8) == Head(f, 7) + f[7] * LimbWeight(7);
    assert Head(f, 9) == Head(f, 8) + f[8] * LimbWeight(8);
    assert Head(f, 10) == Head(f, 9) + f[9] * LimbWeight(9);
  }

  lemma NumLinear(u: seq<int>, a: int, v: seq<int>)
    requires |u| == |v| == 10
    ensures Num(AddScaled(u, a, v)) == Num(u) + a * Num(v)
  {
    hide Num;
    NumIsSum(u);
    NumIsSum(v);
    NumIsSum(AddScaled(u, a, v));
    Distribute(a, v);
  }

  lemma Distribute(a: int, t: seq<int>)
    requires |t| == 10
    ensures a * (t[0] + 0x400_0000 * t[1] + 0x8_0000_0000_0000 * t[2] + 0x2000_0000_0000_0000_0000 * t[3]
      + 0x40_0000_0000_0000_0000_0000_0000 * t[4] + 0x1_0000_0000_0000_0000_0000_0000_0000_0000 * t[5]
      + 0x200_0000_0000_0000_0000_0000_0000_0000_0000_0000 * t[6] + 0x8_0000_0000_0000_0000_0000_0000_0000_0000_0000_0000_0000 * t[7]
      + 0x1000_0000_0000_0000_0000_0000_0000_0000_0000_0000_0000_0000_0000 * t[8] + 0x40_0000_0000_0000_0000_0000_0000_0000_0000_0000_0000_0000_0000_0000_0000 * t[9])
      == a * t[0] + 0x400_0000 * (a * t[1]) + 0x8_0000_0000_0000 * (a * t[2]) + 0x2000_0000_0000_0000_0000 * (a * t[3])
      + 0x40_0000_0000_0000_0000_0000_0000 * (a * t[4]) + 0x1_0000_0000_0000_0000_0000_0000_0000_0000 * (a * t[5])
      + 0x200_0000_0000_0000_0000_0000_0000_0000_0000_0000 * (a * t[6]) + 0x8_0000_0000_0000_0000_0000_0000_0000_0000_0000_0000_0000 * (a * t[7])
      + 0x1000_0000_0000_0000_0000_0000_0000_0000_0000_0000_0000_0000_0000 * (a * t[8]) + 0x40_0000_0000_0000_0000_0000_0000_0000_0000_0000_0000_0000_0000_0000_0000 * (a * t[9])
  {
  }

  /** Two limbs up, with the top pair coming around. */
  function UpTwo(v: seq<int>): (r: seq<int>)
    requires |v| == 10
    ensures |r| == 10
  {
    [19 * v[8], 19 * v[9], v[0], v[1], v[2], v[3], v[4], v[5], v[6], v[7]]
  }

  lemma UpTwoMultiplies(v: seq<int>)
    requires |v| == 10
    ensures Num(UpTwo(v)) == 0x8_0000_0000_0000 * Num(v) - (v[8] + 0x400_0000 * v[9]) * P
  {
    hide Num;
    NumIsSum(v);
    NumIsSum(UpTwo(v));
  }

  lemma ShiftByTwoMore(g: seq<int>, i: nat)
    requires |g| == 10 && i + 2 < 10
    ensures Shift(g, i + 2) == UpTwo(Shift(g, i))
  {
    var i2 := i + 2;
    forall k: nat | k < 10
      ensures Entry(g, i2, k) == if k < 2 then 19 * Entry(g, i, k + 8) else Entry(g, i, k - 2)
    {
    }
  }

  /** Shifting by i limbs multiplies by the weight of limb i, up to a multiple of P. */
  lemma {:induction false} ShiftMultiplies(g: seq<int>, i: nat) returns (s: int)
    requires |g| == 10 && i < 10
    ensures Num(Shift(g, i)) == LimbWeight(i) * Num(g) - s * P
  {
    hide Num, UpTwo, Shift, LimbWeight;
    if i == 0 {
      s := 0;
      ShiftByZero(g);
    } else if i == 1 {
      s := 2 * g[9];
      ShiftByOne(g);
    } else {
      var v := Shift(g, i - 2);
      var s0 := ShiftMultiplies(g, i - 2);
      ShiftByTwoMore(g, i - 2);
      UpTwoMultiplies(v);
      WeightOfTwoMore(i - 2);
      s := 0x8_0000_0000_0000 * s0 + (v[8] + 0x400_0000 * v[9]);
      Rescale(LimbWeight(i - 2), LimbWeight(i), Num(g), Num(v), s0, v[8] + 0x400_0000 * v[9]);
    }
  }

  lemma Rescale(w: int, w': int, v: int, shifted: int, s: int, top: int)
    requires w' == 0x8_0000_0000_0000 * w && shifted == w * v - s * P
    ensures 0x8_0000_0000_0000 * shifted - top * P == w' * v - (0x8_0000_0000_0000 * s + top) * P
  {
    assert w' * v == 0x8_0000_0000_0000 * (w * v);
  }

  lemma ShiftByZero(g: seq<int>)
    requires |g| == 10
    ensures Shift(g, 0) == g && LimbWeight(0) == 1
  {
    assert Weight(0) == 1;
  }

  lemma ShiftByOne(g: seq<int>)
    requires |g| == 10
    ensures Num(Shift(g, 1)) == LimbWeight(1) * Num(g) - 2 * g[9] * P
  {
    hide Num, Weight;
    Weights();
    NumIsSum(g);
    NumIsSum(Shift(g, 1));
  }

  lemma WeightOfTwoMore(i: nat)
    requires i + 2 < 10
    ensures LimbWeight(i + 2) == 0x8_0000_0000_0000 * LimbWeight(i)
  {
    assert (i + 2) / 2 == i / 2 + 1;
  }

  lemma Telescope(num: int, num': int, head: int, head': int, v: int, q: int, s: int, a: int, w: int, shifted: int)
    requires num == head * v - q * P && shifted == w * v - s * P
    requires num' == num + a * shifted && head' == head + a * w
    ensures num' == head' * v - (q + a * s) * P
  {
    assert a * shifted == (a * w) * v - (a * s) * P;
    assert head' * v == head * v + (a * w) * v;
  }

  /** The columns make up the product modulo P. */
  lemma {:induction false} ColumnsMultiply(f: seq<int>, g: seq<int>, n: nat) returns (q: int)
    requires |f| == |g| == 10 && n <= 10
    ensures Num(Columns(f, g, n)) == Head(f, n) * Num(g) - q * P
  {
    hide Num, Shift, LimbWeight;
    if n == 0 {
      q := 0;
      NumIsSum(Columns(f, g, 0));
    } else {
      var q0 := ColumnsMultiply(f, g, n - 1);
      var s := ShiftMultiplies(g, n - 1);
      NumLinear(Columns(f, g, n - 1), f[n - 1], Shift(g, n - 1));
      q := q0 + f[n - 1] * s;
      Telescope(Num(Columns(f, g, n - 1)), Num(Columns(f, g, n)), Head(f, n - 1), Head(f, n), Num(g), q0, s, f[n - 1], LimbWeight(n - 1), Num(Shift(g, n - 1)));
    }
  }

  const EVEN := 110729625
  const ODD := 55364812

  predicate Bounded(x: seq<int>, bound: int) {
    forall i :: 0 <= i < |x| ==> -bound <= x[i] <= bound
  }

  function Abs(x: int): int {
    if x < 0 then -x else x
  }

  lemma ProductBound(x: int, y: int, xMax: int, yMax: int)
    requires Abs(x) <= xMax && Abs(y) <= yMax
    ensures Abs(x * y) <= xMax * yMax
  {
    assert Abs(x * y) == Abs(x) * Abs(y);
    assert Abs(x) * Abs(y) <= xMax * Abs(y) <= xMax * yMax;
  }

  ghost predicate ProductsBounded(x: seq<int>, y: seq<int>, bound: int) {
    |x| == |y| && forall i :: 0 <= i < |x| ==> Abs(x[i] * y[i]) <= bound
  }

  lemma AllProductsBounded(x: seq<int>, y: seq<int>, xMax: int, yMax: int)
    requires |x| == |y| && Bounded(x, xMax) && Bounded(y, yMax)
    ensures ProductsBounded(x, y, xMax * yMax)
  {
    forall i | 0 <= i < |x|
      ensures Abs(x[i] * y[i]) <= xMax * yMax
    {
      ProductBound(x[i], y[i], xMax, yMax);
    }
  }

  lemma OneMore(n: int, b: int)
    ensures (n - 1) * b + b == n * b
  {
  }

  /** A sum of products, from left to right; every partial sum is an i64. */
  function Dot(x: seq<i32>, y: seq<i32>, ghost bound: nat): (s: i64)
    requires ProductsBounded(x, y, bound) && |x| * bound < 0x4000_0000_0000_0000
    ensures Abs(s) <= |x| * bound
  {
    if x == [] then 0 else
      var n := |x| - 1;
      OneMore(|x|, bound);
      Dot(x[..n], y[..n], bound) + (x[n] as int) * (y[n] as int)
  }

  /** The limbs of f as an even or an odd column takes them: an even one doubles the odd limbs. */
  predicate LeftFactors(f: seq<int>, even: bool, x: seq<int>)
    requires |f| == |x| == 10
  {
    forall i :: 0 <= i < 10 ==> x[i] == if even && i % 2 == 1 then 2 * f[i] else f[i]
  }

  /** The limbs of g as column k takes them: those that come around are times 19. */
  predicate RightFactors(g: seq<int>, k: nat, y: seq<int>)
    requires |g| == |y| == 10 && k < 10
  {
    && y[0] == Right(g, k, 0) && y[1] == Right(g, k, 1) && y[2] == Right(g, k, 2) && y[3] == Right(g, k, 3) && y[4] == Right(g, k, 4)
    && y[5] == Right(g, k, 5) && y[6] == Right(g, k, 6) && y[7] == Right(g, k, 7) && y[8] == Right(g, k, 8) && y[9] == Right(g, k, 9)
  }

  function Right(g: seq<int>, k: nat, i: nat): int
    requires |g| == 10 && k < 10 && i < 10
  {
    if i <= k then g[k - i] else 19 * g[k - i + 10]
  }

  lemma RightFactor(g: seq<int>, k: nat, y: seq<int>, i: nat)
    requires |g| == |y| == 10 && k < 10 && i < 10 && RightFactors(g, k, y)
    ensures y[i] == Right(g, k, i)
  {
  }

  lemma {:induction false} ColumnIsDot(f: seq<int>, g: seq<int>, k: nat, x: seq<i32>, y: seq<i32>, n: nat, bound: nat)
    requires |f| == |g| == |x| == |y| == 10 && k < 10 && n <= 10 && LeftFactors(f, k % 2 == 0, x) && RightFactors(g, k, y)
    requires ProductsBounded(x, y, bound) && 10 * bound < 0x4000_0000_0000_0000
    ensures n * bound < 0x4000_0000_0000_0000
    ensures Dot(x[..n], y[..n], bound) == Columns(f, g, n)[k]
  {
    hide LeftFactors, RightFactors, Shift;
    FewerFit(n, bound);
    if n > 0 {
      ColumnIsDot(f, g, k, x, y, n - 1, bound);
      assert x[..n][..n - 1] == x[..n - 1] && y[..n][..n - 1] == y[..n - 1];
      EntryFactors(f, g, k, x, y, n - 1);
    }
  }

  lemma FewerFit(n: nat, b: nat)
    requires n <= 10
    ensures n * b <= 10 * b
  {
  }

  function Coefficient(k: nat, i: nat): int {
    (if k % 2 == 0 && i % 2 == 1 then 2 else 1) * (if i > k then 19 else 1)
  }

  function Other(k: nat, i: nat): nat
    requires k < 10 && i < 10
  {
    if i <= k then k - i else k - i + 10
  }

  lemma EntryIs(g: seq<int>, k: nat, i: nat)
    requires |g| == 10 && k < 10 && i < 10
    ensures Shift(g, i)[k] == Coefficient(k, i) * g[Other(k, i)]
  {
    var j := Other(k, i);
    assert j == (k - i) % 10;
    assert i % 2 == 1 && j % 2 == 1 <==> k % 2 == 0 && i % 2 == 1;
    assert Shift(g, i)[k] == Entry(g, i, k);
  }

  lemma EntryFactors(f: seq<int>, g: seq<int>, k: nat, x: seq<int>, y: seq<int>, i: nat)
    requires |f| == |g| == |x| == |y| == 10 && k < 10 && i < 10 && LeftFactors(f, k % 2 == 0, x) && RightFactors(g, k, y)
    ensures x[i] * y[i] == f[i] * Shift(g, i)[k]
  {
    hide RightFactors, Shift;
    RightFactor(g, k, y, i);
    EntryIs(g, k, i);
    Regroup(if k % 2 == 0 && i % 2 == 1 then 2 else 1, f[i], if i > k then 19 else 1, g[Other(k, i)]);
  }

  lemma Regroup(a: int, f: int, b: int, g: int)
    ensures (a * f) * (b * g) == f * (a * b * g)
  {
  }

  lemma FactorsBounded(f: seq<int>, g: seq<int>, k: nat, x: seq<int>, y: seq<int>)
    requires |f| == |g| == |x| == |y| == 10 && k < 10 && LeftFactors(f, k % 2 == 0, x) && RightFactors(g, k, y)
    requires Loose(f) && Loose(g)
    ensures Bounded(x, EVEN) && Bounded(y, 19 * EVEN)
  {
    forall i | 0 <= i < 10
      ensures -(19 * EVEN) <= y[i] <= 19 * EVEN
    {
      RightFactor(g, k, y, i);
    }
  }

  /** One column of `fe_mul`. */
  method Column(f: seq<i32>, g: seq<i32>, k: nat, x: seq<i32>, y: seq<i32>) returns (t: i64)
    requires |f| == |g| == |x| == |y| == 10 && k < 10 && LeftFactors(f, k % 2 == 0, x) && RightFactors(g, k, y)
    requires Loose(f) && Loose(g)
    ensures t == Columns(f, g, 10)[k] && -0x4000_0000_0000_0000 < t < 0x4000_0000_0000_0000
  {
    hide Columns, LeftFactors, RightFactors, Loose;
    FactorsBounded(f, g, k, x, y);
    AllProductsBounded(x, y, EVEN, 19 * EVEN);
    ColumnIsDot(f, g, k, x, y, 10, EVEN * (19 * EVEN));
    assert x[..10] == x && y[..10] == y;
    t := Dot(x, y, EVEN * (19 * EVEN));
  }

  /** Columns 0 to 4 of `fe_mul`. */
  method LowColumns(f: seq<i32>, g: seq<i32>) returns (t: seq<i64>)
    requires Loose(f) && Loose(g)
    ensures t == Columns(f, g, 10)[0..5] && forall k :: 0 <= k < 5 ==> -0x4000_0000_0000_0000 < t[k] < 0x4000_0000_0000_0000
  {
    hide Columns, Shift, Within;
    WithinLimbs(f, EVEN, ODD);
    WithinLimbs(g, EVEN, ODD);
    var f0: i32, f1: i32, f2: i32, f3: i32, f4: i32 := f[0], f[1], f[2], f[3], f[4];
    var f5: i32, f6: i32, f7: i32, f8: i32, f9: i32 := f[5], f[6], f[7], f[8], f[9];
    var g0: i32, g1: i32, g2: i32, g3: i32, g4: i32 := g[0], g[1], g[2], g[3], g[4];
    var g5: i32, g6: i32, g7: i32, g8: i32, g9: i32 := g[5], g[6], g[7], g[8], g[9];
    var F1: i32, F3: i32, F5: i32, F7: i32, F9: i32 := f1 * 2, f3 * 2, f5 * 2, f7 * 2, f9 * 2;
    var G1: i32, G2: i32, G3: i32, G4: i32 := g1 * 19, g2 * 19, g3 * 19, g4 * 19;
    var G5: i32, G6: i32, G7: i32, G8: i32, G9: i32 := g5 * 19, g6 * 19, g7 * 19, g8 * 19, g9 * 19;
    var even := [f0, F1, f2, F3, f4, F5, f6, F7, f8, F9];
    assert LeftFactors(f, true, even) && LeftFactors(f, false, f);
    hide LeftFactors, Loose;
    var t0 := Column(f, g, 0, even, [g0, G9, G8, G7, G6, G5, G4, G3, G2, G1]);
    var t1 := Column(f, g, 1, f, [g1, g0, G9, G8, G7, G6, G5, G4, G3, G2]);
    var t2 := Column(f, g, 2, even, [g2, g1, g0, G9, G8, G7, G6, G5, G4, G3]);
    var t3 := Column(f, g, 3, f, [g3, g2, g1, g0, G9, G8, G7, G6, G5, G4]);
    var t4 := Column(f, g, 4, even, [g4, g3, g2, g1, g0, G9, G8, G7, G6, G5]);
    t := [t0, t1, t2, t3, t4];
  }

  /** Columns 5 to 9 of `fe_mul`. */
  method HighColumns(f: seq<i32>, g: seq<i32>) returns (t: seq<i64>)
    requires Loose(f) && Loose(g)
    ensures t == Columns(f, g, 10)[5..10] && forall k :: 0 <= k < 5 ==> -0x4000_0000_0000_0000 < t[k] < 0x4000_0000_0000_0000
  {
    hide Columns, Shift, Within;
    WithinLimbs(f, EVEN, ODD);
    WithinLimbs(g, EVEN, ODD);
    var f0: i32, f1: i32, f2: i32, f3: i32, f4: i32 := f[0], f[1], f[2], f[3], f[4];
    var f5: i32, f6: i32, f7: i32, f8: i32, f9: i32 := f[5], f[6], f[7], f[8], f[9];
    var g0: i32, g1: i32, g2: i32, g3: i32, g4: i32 := g[0], g[1], g[2], g[3], g[4];
    var g5: i32, g6: i32, g7: i32, g8: i32, g9: i32 := g[5], g[6], g[7], g[8], g[9];
    var F1: i32, F3: i32, F5: i32, F7: i32, F9: i32 := f1 * 2, f3 * 2, f5 * 2, f7 * 2, f9 * 2;
    var G1: i32, G2: i32, G3: i32, G4: i32 := g1 * 19, g2 * 19, g3 * 19, g4 * 19;
    var G5: i32, G6: i32, G7: i32, G8: i32, G9: i32 := g5 * 19, g6 * 19, g7 * 19, g8 * 19, g9 * 19;
    var even := [f0, F1, f2, F3, f4, F5, f6, F7, f8, F9];
    assert LeftFactors(f, true, even) && LeftFactors(f, false, f);
    hide LeftFactors, Loose;
    var t5 := Column(f, g, 5, f, [g5, g4, g3, g2, g1, g0, G9, G8, G7, G6]);
    var t6 := Column(f, g, 6, even, [g6, g5, g4, g3, g2, g1, g0, G9, G8, G7]);
    var t7 := Column(f, g, 7, f, [g7, g6, g5, g4, g3, g2, g1, g0, G9, G8]);
    var t8 := Column(f, g, 8, even, [g8, g7, g6, g5, g4, g3, g2, g1, g0, G9]);
    var t9 := Column(f, g, 9, f, [g9, g8, g7, g6, g5, g4, g3, g2, g1, g0]);
    t := [t5, t6, t7, t8, t9];
  }

  /** All columns of `fe_mul`. */
  method MulColumns(f: seq<i32>, g: seq<i32>) returns (t: seq<i64>)
    requires Loose(f) && Loose(g)
    ensures t == Columns(f, g, 10) && forall k :: 0 <= k < 10 ==> -0x4000_0000_0000_0000 < t[k] < 0x4000_0000_0000_0000
  {
    hide Columns;
    var low := LowColumns(f, g);
    var high := HighColumns(f, g);
    t := low + high;
  }

  /** `fe_mul`: the product modulo P, in tight limbs, without overflow; h may be f or g. */
  method FeMul(h: array<i32>, f: array<i32>, g: array<i32>) returns (ghost q: int)
    requires h.Length == f.Length == g.Length == 10 && Loose(f[..]) && Loose(g[..])
    modifies h
    ensures Tight(h[..]) && Num(h[..]) == old(Num(f[..]) * Num(g[..])) - q * P
  {
    hide Num, Columns, Loose, Tight;
    var t := MulColumns(f[..], g[..]);
    ghost var q0 := ColumnsMultiply(f[..], g[..], 10);
    HeadIsNum(f[..]);
    ghost var q1 := FeCarry(h, t);
    q := q0 + q1;
  }

  // ----- squares -----

  function Times(a: int, b: int): int {
    a * b
  }

  /** The sum that column k of a product is, with its terms in order. */
  lemma ColumnIsSum(f: seq<int>, g: seq<int>, k: nat)
    requires |f| == |g| == 10 && k < 10
    ensures Columns(f, g, 10)[k] ==
      Term(f, g, k, 0) + Term(f, g, k, 1) + Term(f, g, k, 2) + Term(f, g, k, 3) + Term(f, g, k, 4)
      + Term(f, g, k, 5) + Term(f, g, k, 6) + Term(f, g, k, 7) + Term(f, g, k, 8) + Term(f, g, k, 9)
  {
    hide Columns, Term;
    assert Columns(f, g, 0)[k] == 0 by { NoColumns(f, g, k); }
    ColumnNext(f, g, k, 1);
    ColumnNext(f, g, k, 2);
    ColumnNext(f, g, k, 3);
    ColumnNext(f, g, k, 4);
    ColumnNext(f, g, k, 5);
    ColumnNext(f, g, k, 6);
    ColumnNext(f, g, k, 7);
    ColumnNext(f, g, k, 8);
    ColumnNext(f, g, k, 9);
    ColumnNext(f, g, k, 10);
  }

  lemma NoColumns(f: seq<int>, g: seq<int>, k: nat)
    requires |f| == |g| == 10 && k < 10
    ensures Columns(f, g, 0)[k] == 0
  {
  }

  function Term(f: seq<int>, g: seq<int>, k: nat, i: nat): int
    requires |f| == |g| == 10 && k < 10 && i < 10
  {
    f[i] * Shift(g, i)[k]
  }

  lemma ColumnNext(f: seq<int>, g: seq<int>, k: nat, n: nat)
    requires |f| == |g| == 10 && k < 10 && 0 < n <= 10
    ensures Columns(f, g, n)[k] == Columns(f, g, n - 1)[k] + Term(f, g, k, n - 1)
  {
    hide Shift;
  }

  /** A term is a coefficient times the product of two limbs. */
  lemma TermsAre(f: seq<int>, k: nat)
    requires |f| == 10 && k < 10
    ensures forall i :: 0 <= i < 10 ==> Term(f, f, k, i) == Coefficient(k, i) * Times(f[i], f[Other(k, i)])
  {
    hide Shift;
    forall i | 0 <= i < 10
      ensures Term(f, f, k, i) == Coefficient(k, i) * Times(f[i], f[Other(k, i)])
    {
      EntryIs(f, k, i);
      Reorder(f[i], Coefficient(k, i), f[Other(k, i)]);
    }
  }

  lemma Reorder(a: int, c: int, b: int)
    ensures a * (c * b) == c * (a * b)
  {
  }

  lemma TimesCommutes(f: seq<int>)
    ensures forall i, j :: 0 <= i < |f| && 0 <= j < |f| ==> Times(f[i], f[j]) == Times(f[j], f[i])
  {
  }

  function Sum5(x: seq<int>, y: seq<int>): int
    requires |x| == |y| >= 5
  {
    Times(x[0], y[0]) + Times(x[1], y[1]) + Times(x[2], y[2]) + Times(x[3], y[3]) + Times(x[4], y[4])
  }

  function Sum6(x: seq<int>, y: seq<int>): int
    requires |x| == |y| == 6
  {
    Sum5(x, y) + Times(x[5], y[5])
  }

  lemma Scaled(a: int, x: int, b: int, y: int)
    ensures Times(a * x, b * y) == a * b * Times(x, y)
  {
  }

  lemma SquareColumn0(f: seq<int>)
    requires |f| == 10
    ensures Columns(f, f, 10)[0] == Sum6([f[0], 2 * f[1], 2 * f[2], 2 * f[3], 2 * f[4], f[5]], [f[0], 38 * f[9], 19 * f[8], 38 * f[7], 19 * f[6], 38 * f[5]])
  {
    hide Columns, Term, Times;
    ColumnIsSum(f, f, 0);
    TimesCommutes(f);
    TermsAre(f, 0);
    Scaled(2, f[1], 38, f[9]);
    Scaled(2, f[2], 19, f[8]);
    Scaled(2, f[3], 38, f[7]);
    Scaled(2, f[4], 19, f[6]);
    Scaled(1, f[5], 38, f[5]);
  }

  lemma SquareColumn1(f: seq<int>)
    requires |f| == 10
    ensures Columns(f, f, 10)[1] == Sum5([2 * f[0], f[2], 2 * f[3], f[4], 2 * f[5]], [f[1], 38 * f[9], 19 * f[8], 38 * f[7], 19 * f[6]])
  {
    hide Columns, Term, Times;
    ColumnIsSum(f, f, 1);
    TimesCommutes(f);
    TermsAre(f, 1);
    Scaled(2, f[0], 1, f[1]);
    Scaled(1, f[2], 38, f[9]);
    Scaled(2, f[3], 19, f[8]);
    Scaled(1, f[4], 38, f[7]);
    Scaled(2, f[5], 19, f[6]);
  }

  lemma SquareColumn2(f: seq<int>)
    requires |f| == 10
    ensures Columns(f, f, 10)[2] == Sum6([2 * f[0], 2 * f[1], 2 * f[3], 2 * f[4], 2 * f[5], f[6]], [f[2], f[1], 38 * f[9], 19 * f[8], 38 * f[7], 19 * f[6]])
  {
    hide Columns, Term, Times;
    ColumnIsSum(f, f, 2);
    TimesCommutes(f);
    TermsAre(f, 2);
    Scaled(2, f[0], 1, f[2]);
    Scaled(2, f[1], 1, f[1]);
    Scaled(2, f[3], 38, f[9]);
    Scaled(2, f[4], 19, f[8]);
    Scaled(2, f[5], 38, f[7]);
    Scaled(1, f[6], 19, f[6]);
  }

  lemma SquareColumn3(f: seq<int>)
    requires |f| == 10
    ensures Columns(f, f, 10)[3] == Sum5([2 * f[0], 2 * f[1], f[4], 2 * f[5], f[6]], [f[3], f[2], 38 * f[9], 19 * f[8], 38 * f[7]])
  {
    hide Columns, Term, Times;
    ColumnIsSum(f, f, 3);
    TimesCommutes(f);
    TermsAre(f, 3);
    Scaled(2, f[0], 1, f[3]);
    Scaled(2, f[1], 1, f[2]);
    Scaled(1, f[4], 38, f[9]);
    Scaled(2, f[5], 19, f[8]);
    Scaled(1, f[6], 38, f[7]);
  }

  lemma SquareColumn4(f: seq<int>)
    requires |f| == 10
    ensures Columns(f, f, 10)[4] == Sum6([2 * f[0], 2 * f[1], f[2], 2 * f[5], 2 * f[6], f[7]], [f[4], 2 * f[3], f[2], 38 * f[9], 19 * f[8], 38 * f[7]])
  {
    hide Columns, Term, Times;
    ColumnIsSum(f, f, 4);
    TimesCommutes(f);
    TermsAre(f, 4);
    Scaled(2, f[0], 1, f[4]);
    Scaled(2, f[1], 2, f[3]);
    Scaled(2, f[5], 38, f[9]);
    Scaled(2, f[6], 19, f[8]);
    Scaled(1, f[7], 38, f[7]);
  }

  lemma SquareColumn5(f: seq<int>)
    requires |f| == 10
    ensures Columns(f, f, 10)[5] == Sum5([2 * f[0], 2 * f[1], 2 * f[2], f[6], 2 * f[7]], [f[5], f[4], f[3], 38 * f[9], 19 * f[8]])
  {
    hide Columns, Term, Times;
    ColumnIsSum(f, f, 5);
    TimesCommutes(f);
    TermsAre(f, 5);
    Scaled(2, f[0], 1, f[5]);
    Scaled(2, f[1], 1, f[4]);
    Scaled(2, f[2], 1, f[3]);
    Scaled(1, f[6], 38, f[9]);
    Scaled(2, f[7], 19, f[8]);
  }

  lemma SquareColumn6(f: seq<int>)
    requires |f| == 10
    ensures Columns(f, f, 10)[6] == Sum6([2 * f[0], 2 * f[1], 2 * f[2], 2 * f[3], 2 * f[7], f[8]], [f[6], 2 * f[5], f[4], f[3], 38 * f[9], 19 * f[8]])
  {
    hide Columns, Term, Times;
    ColumnIsSum(f, f, 6);
    TimesCommutes(f);
    TermsAre(f, 6);
    Scaled(2, f[0], 1, f[6]);
    Scaled(2, f[1], 2, f[5]);
    Scaled(2, f[2], 1, f[4]);
    Scaled(2, f[3], 1, f[3]);
    Scaled(2, f[7], 38, f[9]);
    Scaled(1, f[8], 19, f[8]);
  }

  lemma SquareColumn7(f: seq<int>)
    requires |f| == 10
    ensures Columns(f, f, 10)[7] == Sum5([2 * f[0], 2 * f[1], 2 * f[2], 2 * f[3], f[8]], [f[7], f[6], f[5], f[4], 38 * f[9]])
  {
    hide Columns, Term, Times;
    ColumnIsSum(f, f, 7);
    TimesCommutes(f);
    TermsAre(f, 7);
    Scaled(2, f[0], 1, f[7]);
    Scaled(2, f[1], 1, f[6]);
    Scaled(2, f[2], 1, f[5]);
    Scaled(2, f[3], 1, f[4]);
    Scaled(1, f[8], 38, f[9]);
  }

  lemma SquareColumn8(f: seq<int>)
    requires |f| == 10
    ensures Columns(f, f, 10)[8] == Sum6([2 * f[0], 2 * f[1], 2 * f[2], 2 * f[3], f[4], f[9]], [f[8], 2 * f[7], f[6], 2 * f[5], f[4], 38 * f[9]])
  {
    hide Columns, Term, Times;
    ColumnIsSum(f, f, 8);
    TimesCommutes(f);
    TermsAre(f, 8);
    Scaled(2, f[0], 1, f[8]);
    Scaled(2, f[1], 2, f[7]);
    Scaled(2, f[2], 1, f[6]);
    Scaled(2, f[3], 2, f[5]);
    Scaled(1, f[9], 38, f[9]);
  }

  lemma SquareColumn9(f: seq<int>)
    requires |f| == 10
    ensures Columns(f, f, 10)[9] == Sum5([2 * f[0], 2 * f[1], 2 * f[2], 2 * f[3], f[4]], [f[9], f[8], f[7], f[6], 2 * f[5]])
  {
    hide Columns, Term, Times;
    ColumnIsSum(f, f, 9);
    TimesCommutes(f);
    TermsAre(f, 9);
    Scaled(2, f[0], 1, f[9]);
    Scaled(2, f[1], 1, f[8]);
    Scaled(2, f[2], 1, f[7]);
    Scaled(2, f[3], 1, f[6]);
    Scaled(1, f[4], 2, f[5]);
  }

  lemma DotIsSum(x: seq<i32>, y: seq<i32>, bound: nat)
    requires 5 <= |x| == |y| <= 6 && ProductsBounded(x, y, bound) && |x| * bound < 0x4000_0000_0000_0000
    ensures Dot(x, y, bound) == if |x| == 5 then Sum5(x, y) else Sum6(x, y)
  {
    hide ProductsBounded;
    DotShorter(x, y, bound, |x|);
    DotShorter(x, y, bound, 5);
    DotShorter(x, y, bound, 4);
    DotShorter(x, y, bound, 3);
    DotShorter(x, y, bound, 2);
    DotShorter(x, y, bound, 1);
    assert x[..|x|] == x && y[..|y|] == y;
  }

  lemma DotShorter(x: seq<i32>, y: seq<i32>, bound: nat, n: nat)
    requires 0 < n <= |x| == |y| && ProductsBounded(x, y, bound) && |x| * bound < 0x4000_0000_0000_0000
    ensures ProductsBounded(x[..n], y[..n], bound) && n * bound < 0x4000_0000_0000_0000
    ensures ProductsBounded(x[..n - 1], y[..n - 1], bound) && (n - 1) * bound < 0x4000_0000_0000_0000
    ensures Dot(x[..n], y[..n], bound) == Dot(x[..n - 1], y[..n - 1], bound) + Times(x[n - 1], y[n - 1])
    ensures n == 1 ==> Dot(x[..n - 1], y[..n - 1], bound) == 0
  {
    assert (|x| - n) * bound >= 0;
    assert x[..n][..n - 1] == x[..n - 1] && y[..n][..n - 1] == y[..n - 1];
  }

  /** `Bounded`, spelt out. */
  predicate AllUpTo(x: seq<int>, bound: int)
    requires 5 <= |x| <= 6
  {
    && -bound <= x[0] <= bound && -bound <= x[1] <= bound && -bound <= x[2] <= bound
    && -bound <= x[3] <= bound && -bound <= x[4] <= bound && (|x| == 6 ==> -bound <= x[5] <= bound)
  }

  lemma UpToIsBounded(x: seq<int>, bound: int)
    requires 5 <= |x| <= 6 && AllUpTo(x, bound)
    ensures Bounded(x, bound)
  {
  }

  /** One column of `fe_sq`. */
  method SquareSum(x: seq<i32>, y: seq<i32>) returns (t: i64)
    requires 5 <= |x| == |y| <= 6 && AllUpTo(x, 2 * EVEN) && AllUpTo(y, 19 * EVEN)
    ensures t == (if |x| == 5 then Sum5(x, y) else Sum6(x, y)) && -0x4000_0000_0000_0000 < t < 0x4000_0000_0000_0000
  {
    hide Times, Dot, AllUpTo;
    UpToIsBounded(x, 2 * EVEN);
    UpToIsBounded(y, 19 * EVEN);
    AllProductsBounded(x, y, 2 * EVEN, 19 * EVEN);
    DotIsSum(x, y, 2 * EVEN * (19 * EVEN));
    t := Dot(x, y, 2 * EVEN * (19 * EVEN));
  }

  /** The columns of `fe_sq`: those of the product of f with itself, with equal terms merged. */
  method SquareColumns(f: seq<i32>) returns (t: seq<i64>)
    requires Loose(f)
    ensures t == Columns(f, f, 10) && forall k :: 0 <= k < 10 ==> -0x4000_0000_0000_0000 < t[k] < 0x4000_0000_0000_0000
  {
    hide Columns, Within, Times;
    WithinLimbs(f, EVEN, ODD);
    var f0: i32, f1: i32, f2: i32, f3: i32, f4: i32 := f[0], f[1], f[2], f[3], f[4];
    var f5: i32, f6: i32, f7: i32, f8: i32, f9: i32 := f[5], f[6], f[7], f[8], f[9];
    var f0_2: i32, f1_2: i32, f2_2: i32, f3_2: i32, f4_2: i32, f5_2: i32, f6_2: i32, f7_2: i32 := f0 * 2, f1 * 2, f2 * 2, f3 * 2, f4 * 2, f5 * 2, f6 * 2, f7 * 2;
    var f5_38: i32, f6_19: i32, f7_38: i32, f8_19: i32, f9_38: i32 := f5 * 38, f6 * 19, f7 * 38, f8 * 19, f9 * 38;
    SquareColumn0(f);
    var t0 := SquareSum([f0, f1_2, f2_2, f3_2, f4_2, f5], [f0, f9_38, f8_19, f7_38, f6_19, f5_38]);
    SquareColumn1(f);
    var t1 := SquareSum([f0_2, f2, f3_2, f4, f5_2], [f1, f9_38, f8_19, f7_38, f6_19]);
    SquareColumn2(f);
    var t2 := SquareSum([f0_2, f1_2, f3_2, f4_2, f5_2, f6], [f2, f1, f9_38, f8_19, f7_38, f6_19]);
    SquareColumn3(f);
    var t3 := SquareSum([f0_2, f1_2, f4, f5_2, f6], [f3, f2, f9_38, f8_19, f7_38]);
    SquareColumn4(f);
    var t4 := SquareSum([f0_2, f1_2, f2, f5_2, f6_2, f7], [f4, f3_2, f2, f9_38, f8_19, f7_38]);
    SquareColumn5(f);
    var t5 := SquareSum([f0_2, f1_2, f2_2, f6, f7_2], [f5, f4, f3, f9_38, f8_19]);
    SquareColumn6(f);
    var t6 := SquareSum([f0_2, f1_2, f2_2, f3_2, f7_2, f8], [f6, f5_2, f4, f3, f9_38, f8_19]);
    SquareColumn7(f);
    var t7 := SquareSum([f0_2, f1_2, f2_2, f3_2, f8], [f7, f6, f5, f4, f9_38]);
    SquareColumn8(f);
    var t8 := SquareSum([f0_2, f1_2, f2_2, f3_2, f4, f9], [f8, f7_2, f6, f5_2, f4, f9_38]);
    SquareColumn9(f);
    var t9 := SquareSum([f0_2, f1_2, f2_2, f3_2, f4], [f9, f8, f7, f6, f5_2]);
    t := [t0, t1, t2, t3, t4, t5, t6, t7, t8, t9];
  }

  /** `fe_sq` */
  method FeSq(h: array<i32>, f: array<i32>) returns (ghost q: int)
    requires h.Length == f.Length == 10 && Loose(f[..])
    modifies h
    ensures Tight(h[..]) && Num(h[..]) == old(Num(f[..]) * Num(f[..])) - q * P
  {
    hide Num, Columns, Loose, Tight;
    var t := SquareColumns(f[..]);
    ghost var q0 := ColumnsMultiply(f[..], f[..], 10);
    HeadIsNum(f[..]);
    ghost var q1 := FeCarry(h, t);
    q := q0 + q1;
  }

  // ----- bytes -----

  lemma {:induction false} PartFrame(a: seq<int>, b: seq<int>, n: nat)
    requires 2 * n <= |a| && 2 * n <= |b| && a[..2 * n] == b[..2 * n]
    ensures Part(a, n) == Part(b, n)
  {
    if n > 0 {
      assert a[2 * n - 2] == b[..2 * n][2 * n - 2] && a[2 * n - 1] == b[..2 * n][2 * n - 1];
      assert a[..2 * n - 2] == a[..2 * n][..2 * n - 2] && b[..2 * n - 2] == b[..2 * n][..2 * n - 2];
      PartFrame(a, b, n - 1);
    }
  }

  /** q is part of a number divided by the weight above it, rounded down. */
  ghost predicate Floors(value: int, q: int, w: int) {
    0 <= value - q * w < w
  }

  lemma FloorPair(value: int, q: int, w: int, a: int, b: int, q1: int, q2: int)
    requires Floors(value, q, w) && w > 0
    requires q1 == (q + a) / 0x400_0000 && q2 == (q1 + b) / 0x200_0000
    ensures Floors(value + w * (a + 0x400_0000 * b), q2, 0x8_0000_0000_0000 * w)
  {
    var r1, r2 := (q + a) % 0x400_0000, (q1 + b) % 0x200_0000;
    var rest := r1 + 0x400_0000 * r2;
    assert q + a + 0x400_0000 * b == rest + 0x8_0000_0000_0000 * q2;
    assert w * (q + a + 0x400_0000 * b) == w * rest + 0x8_0000_0000_0000 * (q2 * w);
    assert 0 <= rest <= 0x8_0000_0000_0000 - 1;
    assert 0 <= w * rest <= w * (0x8_0000_0000_0000 - 1);
  }

  /** The quotient that `fe_tobytes` finds tells the sign. */
  method SignQuotient(t: seq<i32>) returns (q: i32)
    requires Tight(t)
    ensures q == if Num(t) >= 0 then 0 else -1
  {
    hide Within, Weight, Floors;
    WithinLimbs(t, 36909875, 18454937);
    var top: i32 := 19 * t[9];
    top := top + 0x100_0000;
    q := top / 0x200_0000;
    ghost var q0 := q;
    FloorsAtZero(q);
    for i := 0 to 5
      invariant if i == 0 then -16 <= q <= 16 else -1 <= q <= 0
      invariant Floors(q0 + Part(t, i), q, Weight(i))
    {
      ghost var before := q;
      assert -36909875 <= t[2 * i] <= 36909875 && -18454937 <= t[2 * i + 1] <= 18454937;
      q := q + t[2 * i];
      q := q / 0x400_0000;
      ghost var between := q;
      q := q + t[2 * i + 1];
      q := q / 0x200_0000;
      FloorPair(q0 + Part(t, i), before, Weight(i), t[2 * i], t[2 * i + 1], between, q);
      WeightNext(i);
    }
    QuotientIsSign(t, q0, q);
  }

  lemma FloorsAtZero(q: int)
    ensures Floors(q, q, Weight(0))
  {
  }

  lemma WeightNext(i: nat)
    ensures Weight(i + 1) == 0x8_0000_0000_0000 * Weight(i)
  {
  }

  lemma TightBounds(t: seq<int>)
    requires Tight(t)
    ensures -(3 * P) < 5 * Num(t) < 3 * P
    ensures t[9] >= 1 ==> Num(t) > 0
    ensures t[9] <= -1 ==> Num(t) < 0
  {
    hide Within, Num;
    WithinLimbs(t, 36909875, 18454937);
    NumIsSum(t);
  }

  lemma QuotientIsSign(t: seq<int>, q0: int, q: int)
    requires Tight(t) && q0 == (19 * t[9] + 0x100_0000) / 0x200_0000 && -16 <= q0 <= 16
    requires Floors(q0 + Num(t), q, Weight(5)) && -1 <= q <= 0
    ensures q == if Num(t) >= 0 then 0 else -1
  {
    hide Within, Num, Weight;
    TightBounds(t);
    Weights();
  }

  /** Limbs in their positive range. */
  predicate Reduced(t: seq<int>, n: nat)
    requires n <= |t|
  {
    forall i :: 0 <= i < n ==> 0 <= t[i] < if i % 2 == 0 then 0x400_0000 else 0x200_0000
  }

  lemma {:induction false} ReducedBelow(t: seq<int>, n: nat)
    requires 2 * n <= |t| && Reduced(t, 2 * n)
    ensures 0 <= Part(t, n) < Weight(n)
  {
    hide Weight, Part;
    if n == 0 {
      NoPart(t);
    } else {
      ReducedBelow(t, n - 1);
      PartNext(t, n - 1);
      WeightNext(n - 1);
      PairBelow(Part(t, n - 1), Weight(n - 1), t[2 * n - 2] + 0x400_0000 * t[2 * n - 1]);
    }
  }

  lemma PairBelow(part: int, w: int, pair: int)
    requires 0 <= part < w && 0 <= pair <= 0x8_0000_0000_0000 - 1
    ensures 0 <= part + w * pair < 0x8_0000_0000_0000 * w
  {
    assert 0 <= w * pair <= w * (0x8_0000_0000_0000 - 1);
  }

  lemma CarryPair(done: int, was: int, q: int, w: int, a: int, b: int, q1: int, a': int, q2: int, b': int, q0: int)
    requires done + q * w == was + q0
    requires a' == a + q - q1 * 0x400_0000 && b' == b + q1 - q2 * 0x200_0000
    ensures done + w * (a' + 0x400_0000 * b') + q2 * (0x8_0000_0000_0000 * w) == was + w * (a + 0x400_0000 * b) + q0
  {
    assert w * (a' + 0x400_0000 * b') == w * (a + 0x400_0000 * b) + w * q - w * (0x8_0000_0000_0000 * q2);
    assert w * (0x8_0000_0000_0000 * q2) == q2 * (0x8_0000_0000_0000 * w);
  }

  /** The body of the second loop of `fe_tobytes`: q is carried through one pair of limbs. */
  method CarryThrough(t: array<i32>, i: nat, q0: i32) returns (ghost between: int, q: i32)
    requires t.Length == 10 && i < 5 && -19 <= q0 <= 0
    requires -36909875 <= t[2 * i] <= 36909875 && -18454937 <= t[2 * i + 1] <= 18454937
    modifies t
    ensures forall k :: 0 <= k < 10 && k != 2 * i && k != 2 * i + 1 ==> t[k] == old(t[k])
    ensures t[2 * i] == old(t[2 * i]) + q0 - between * 0x400_0000 && t[2 * i + 1] == old(t[2 * i + 1]) + between - q * 0x200_0000
    ensures 0 <= t[2 * i] < 0x400_0000 && 0 <= t[2 * i + 1] < 0x200_0000 && -19 <= q <= 0
  {
    t[2 * i] := t[2 * i] + q0;
    q := t[2 * i] / 0x400_0000;
    var out: i32 := q * 0x400_0000;
    t[2 * i] := t[2 * i] - out;
    between := q;
    t[2 * i + 1] := t[2 * i + 1] + q;
    q := t[2 * i + 1] / 0x200_0000;
    out := q * 0x200_0000;
    t[2 * i + 1] := t[2 * i + 1] - out;
  }

  /** The second loop of `fe_tobytes`. */
  method Normalize(t: array<i32>, q0: i32) returns (q: i32)
    requires t.Length == 10 && Tight(t[..]) && -19 <= q0 <= 0
    modifies t
    ensures Reduced(t[..], 10) && Num(t[..]) + q * Weight(5) == old(Num(t[..])) + q0
  {
    hide Weight, Part, Within, Reduced;
    ghost var was: seq<int> := t[..];
    WithinLimbs(t[..], 36909875, 18454937);
    NoPart(t[..]);
    NoPart(was);
    q := q0;
    for i := 0 to 5
      invariant -19 <= q <= 0 && Reduced(t[..], 2 * i)
      invariant Part(t[..], i) + q * Weight(i) == Part(was, i) + q0
      invariant forall k :: 2 * i <= k < 10 ==> t[k] == was[k]
    {
      ghost var before, carried := t[..], q;
      assert -36909875 <= was[2 * i] <= 36909875 && -18454937 <= was[2 * i + 1] <= 18454937;
      ghost var between;
      between, q := CarryThrough(t, i, q);
      CarryPair(Part(before, i), Part(was, i), carried, Weight(i), was[2 * i], was[2 * i + 1], between, t[2 * i], q, t[2 * i + 1], q0);
      PartFrame(before, t[..], i);
      PartNext(t[..], i);
      PartNext(was, i);
      WeightNext(i);
      ReducedNext(before, t[..], i);
    }
  }

  lemma NoPart(t: seq<int>)
    ensures Part(t, 0) == 0 && Weight(0) == 1 && Reduced(t, 0)
  {
  }

  lemma PartNext(t: seq<int>, i: nat)
    requires 2 * i + 2 <= |t|
    ensures Part(t, i + 1) == Part(t, i) + Weight(i) * (t[2 * i] + 0x400_0000 * t[2 * i + 1])
  {
  }

  lemma ReducedNext(before: seq<int>, t: seq<int>, i: nat)
    requires 2 * i + 2 <= |t| == |before| && Reduced(before, 2 * i) && before[..2 * i] == t[..2 * i]
    requires 0 <= t[2 * i] < 0x400_0000 && 0 <= t[2 * i + 1] < 0x200_0000
    ensures Reduced(t, 2 * i + 2)
  {
    forall k | 0 <= k < 2 * i + 2
      ensures 0 <= t[k] < if k % 2 == 0 then 0x400_0000 else 0x200_0000
    {
      if k < 2 * i {
        assert t[k] == t[..2 * i][k] == before[..2 * i][k] == before[k];
      }
    }
  }

  /** Shift left in a u32. */
  function Shl(x: nat, p: nat): (r: u32) {
    x * p % 0x1_0000_0000
  }

  /** Bitwise or of two words that share no bit: the first is below p, the second a multiple. */
  function Or(a: nat, b: nat, p: nat): (r: u32)
    requires p > 0 && a < p && b % p == 0 && a + b < 0x1_0000_0000
  {
    a + b
  }

  lemma ShlKeepsLow(x: nat, p: nat, top: nat)
    requires p > 0 && top > 0 && p * top == 0x1_0000_0000
    ensures Shl(x, p) == p * (x % top) && Shl(x, p) % p == 0
  {
    var low := x % top;
    assert x * p == (x / top) * 0x1_0000_0000 + p * low;
    assert 0 <= p * low <= p * (top - 1);
    Multiple(p, low);
  }

  lemma Multiple(p: nat, k: nat)
    requires p > 0
    ensures p * k % p == 0
  {
    Barrett.SameResidue(p * k, k, p);
    assert p * k - k * p == 0;
  }

  /** The eight words that `fe_tobytes` packs ten reduced limbs into. */
  method Pack(t: seq<i32>) returns (w: seq<u32>)
    requires |t| == 10 && Reduced(t, 10)
    ensures |w| == 8 && Barrett.Val(w) == Num(t)
  {
    hide Reduced, Num, Barrett.Val, Barrett.Pow, Shl;
    ReducedLimbs(t);
    ShlKeepsLow(t[1], 0x400_0000, 0x40);
    ShlKeepsLow(t[2], 0x8_0000, 0x2000);
    ShlKeepsLow(t[3], 0x2000, 0x8_0000);
    ShlKeepsLow(t[4], 0x40, 0x400_0000);
    ShlKeepsLow(t[6], 0x200_0000, 0x80);
    ShlKeepsLow(t[7], 0x8_0000, 0x2000);
    ShlKeepsLow(t[8], 0x1000, 0x10_0000);
    ShlKeepsLow(t[9], 0x40, 0x400_0000);
    var w0 := Or(t[0], Shl(t[1], 0x400_0000), 0x400_0000);
    var w1 := Or(t[1] / 0x40, Shl(t[2], 0x8_0000), 0x8_0000);
    var w2 := Or(t[2] / 0x2000, Shl(t[3], 0x2000), 0x2000);
    var w3 := Or(t[3] / 0x8_0000, Shl(t[4], 0x40), 0x40);
    var w4 := Or(t[5], Shl(t[6], 0x200_0000), 0x200_0000);
    var w5 := Or(t[6] / 0x80, Shl(t[7], 0x8_0000), 0x8_0000);
    var w6 := Or(t[7] / 0x2000, Shl(t[8], 0x1000), 0x1000);
    var w7 := Or(t[8] / 0x10_0000, Shl(t[9], 0x40), 0x40);
    w := [w0, w1, w2, w3, w4, w5, w6, w7];
    LowWords(t[0], t[1], t[2], t[3], t[4], w0, w1, w2, w3);
    HighWords(t[5], t[6], t[7], t[8], t[9], w4, w5, w6, w7);
    PackedValue(t, w);
  }

  lemma ReducedLimbs(t: seq<int>)
    requires |t| == 10 && Reduced(t, 10)
    ensures 0 <= t[0] < 0x400_0000 && 0 <= t[1] < 0x200_0000 && 0 <= t[2] < 0x400_0000 && 0 <= t[3] < 0x200_0000 && 0 <= t[4] < 0x400_0000
    ensures 0 <= t[5] < 0x200_0000 && 0 <= t[6] < 0x400_0000 && 0 <= t[7] < 0x200_0000 && 0 <= t[8] < 0x400_0000 && 0 <= t[9] < 0x200_0000
  {
  }

  lemma PackedValue(t: seq<int>, w: seq<u32>)
    requires |t| == 10 && |w| == 8
    requires t[0] + 0x400_0000 * t[1] + 0x8_0000_0000_0000 * t[2] + 0x2000_0000_0000_0000_0000 * t[3] + 0x40_0000_0000_0000_0000_0000_0000 * t[4]
      == w[0] + 0x1_0000_0000 * w[1] as int + 0x1_0000_0000_0000_0000 * w[2] as int + 0x1_0000_0000_0000_0000_0000_0000 * w[3] as int
    requires t[5] + 0x200_0000 * t[6] + 0x8_0000_0000_0000 * t[7] + 0x1000_0000_0000_0000_0000 * t[8] + 0x40_0000_0000_0000_0000_0000_0000 * t[9]
      == w[4] + 0x1_0000_0000 * w[5] as int + 0x1_0000_0000_0000_0000 * w[6] as int + 0x1_0000_0000_0000_0000_0000_0000 * w[7] as int
    ensures Barrett.Val(w) == Num(t)
  {
    hide Num, Barrett.Val, Barrett.Pow;
    NumIsSum(t);
    Barrett.Words8(w);
    Barrett.SmallPowers();
  }

  /** The first five limbs are the first 128 bits. */
  lemma LowWords(t0: int, t1: int, t2: int, t3: int, t4: int, w0: int, w1: int, w2: int, w3: int)
    requires w0 == t0 + 0x400_0000 * (t1 % 0x40) && w1 == t1 / 0x40 + 0x8_0000 * (t2 % 0x2000)
    requires w2 == t2 / 0x2000 + 0x2000 * (t3 % 0x8_0000) && w3 == t3 / 0x8_0000 + 0x40 * t4
    ensures t0 + 0x400_0000 * t1 + 0x8_0000_0000_0000 * t2 + 0x2000_0000_0000_0000_0000 * t3 + 0x40_0000_0000_0000_0000_0000_0000 * t4
      == w0 + 0x1_0000_0000 * w1 + 0x1_0000_0000_0000_0000 * w2 + 0x1_0000_0000_0000_0000_0000_0000 * w3
  {
    Split(t1, 0x40);
    Split(t2, 0x2000);
    Split(t3, 0x8_0000);
  }

  lemma HighWords(t5: int, t6: int, t7: int, t8: int, t9: int, w4: int, w5: int, w6: int, w7: int)
    requires w4 == t5 + 0x200_0000 * (t6 % 0x80) && w5 == t6 / 0x80 + 0x8_0000 * (t7 % 0x2000)
    requires w6 == t7 / 0x2000 + 0x1000 * (t8 % 0x10_0000) && w7 == t8 / 0x10_0000 + 0x40 * t9
    ensures t5 + 0x200_0000 * t6 + 0x8_0000_0000_0000 * t7 + 0x1000_0000_0000_0000_0000 * t8 + 0x40_0000_0000_0000_0000_0000_0000 * t9
      == w4 + 0x1_0000_0000 * w5 + 0x1_0000_0000_0000_0000 * w6 + 0x1_0000_0000_0000_0000_0000_0000 * w7
  {
    Split(t6, 0x80);
    Split(t7, 0x2000);
    Split(t8, 0x10_0000);
  }

  lemma Split(x: int, p: int)
    requires p > 0
    ensures x == p * (x / p) + x % p
  {
  }

  lemma ResidueOfSign(num: int, sign: int, r: int, q: int)
    requires -(3 * P) < 5 * num < 3 * P && sign == (if num >= 0 then 0 else -1)
    requires 0 <= r < P + 19 && r + q * (P + 19) == num + 19 * sign
    ensures r == num % P
  {
    if num >= 0 {
      assert q == 0;
      assert num == 0 * P + num;
    } else {
      assert q == -1;
      assert r == num + P;
      assert (num + P) % P == num % P;
    }
  }

  /** `fe_tobytes`: the residue in [0, P), in 32 bytes. */
  method FeToBytes(s: array<byte>, h: seq<i32>)
    requires s.Length == 32 && |h| == 10 && Tight(h)
    modifies s
    ensures ByteVal(s[..]) == Num(h) % P
  {
    hide Num, Tight, Reduced, Weight, Barrett.Val, Barrett.WordsOf;
    TightBounds(h);
    var t := new i32[10];
    CopyLimbs(t, h);
    var sign := SignQuotient(h);
    var q := Normalize(t, sign * 19);
    BelowTop(t[..]);
    Weights();
    ResidueOfSign(Num(h), sign, Num(t[..]), q);
    var w := Pack(t[..]);
    Barrett.Store32LeBuf(s, w);
  }

  lemma BelowTop(t: seq<int>)
    requires |t| == 10 && Reduced(t, 10)
    ensures 0 <= Num(t) < Weight(5)
  {
    ReducedBelow(t, 5);
  }
}

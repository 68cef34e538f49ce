/** Arithmetic modulo the order of the Ed25519 group: multi-word products, conditional
    subtraction and Barrett reduction of monocypher.c. Every carry is a u64, so its bounds
    are part of what is proved. */
module Barrett {
  import opened Bytes

  type u64 = n: int | 0 <= n < 0x1_0000_0000_0000_0000

  const B := 0x1_0000_0000

  /** The order L of section 5.1 of RFC 8032. */
  const ORDER := 0x1000_0000_0000_0000_0000_0000_0000_0000 * 0x1_0000_0000_0000_0000_0000_0000_0000_0000 + 27742317777372353535851937790883648493

  const L: seq<u32> := [0x5cf5d3ed, 0x5812631a, 0xa2f79cd6, 0x14def9de, 0, 0, 0, 0x10000000]

  /** The words of the reciprocal that `mod_l` multiplies by. */
  const R: seq<u32> := [0x0a2c131b, 0xed9ce5a3, 0x086329a7, 0x2106215d, 0xffffffeb, 0xffffffff, 0xffffffff, 0xffffffff, 0xf]

  function Pow(n: nat): (p: nat)
    ensures p > 0
  {
    if n == 0 then 1 else B * Pow(n - 1)
  }

  /** The number that little-endian words stand for. */
  function Val(s: seq<u32>): (v: nat)
    ensures v < Pow(|s|)
  {
    if s == [] then 0 else
      var n := |s| - 1;
      TopDigit(Val(s[..n]), s[n], Pow(n), B);
      Val(s[..n]) + s[n] * Pow(n)
  }

  lemma TopDigit(v: nat, d: nat, p: nat, b: nat)
    requires v < p && d < b
    ensures 0 <= v + d * p < b * p
  {
    assert (d + 1) * p <= b * p;
  }

  lemma {:induction false} PowAdd(m: nat, n: nat)
    ensures Pow(m + n) == Pow(m) * Pow(n)
  {
    if n > 0 {
      PowAdd(m, n - 1);
      calc {
        Pow(m + n);
        B * (Pow(m) * Pow(n - 1));
        Pow(m) * (B * Pow(n - 1));
      }
    }
  }

  /** A number is its low words plus its high words at their place. */
  lemma {:induction false} ValSplit(low: seq<u32>, high: seq<u32>)
    ensures Val(low + high) == Val(low) + Pow(|low|) * Val(high)
  {
    hide Val, Pow;
    var n := |high| - 1;
    if n < 0 {
      ValEmpty();
      assert low + high == low;
    } else {
      var mid, top := high[..n], high[n];
      ValSplit(low, mid);
      assert low + high == (low + mid) + [top] && mid + [top] == high;
      ValSnoc(low + mid, top);
      ValSnoc(mid, top);
      PowAdd(|low|, n);
      Distribute(Pow(|low|), Val(mid), top, Pow(n));
    }
  }

  lemma Distribute(p: int, v: int, a: int, q: int)
    ensures p * v + a * (p * q) == p * (v + a * q)
  {
  }

  lemma ValSnoc(s: seq<u32>, a: u32)
    ensures Val(s + [a]) == Val(s) + a * Pow(|s|)
  {
    assert (s + [a])[..|s|] == s;
  }

  // ----- one row of a product -----

  lemma CarryFits(carry: nat, p: nat, a: nat, w: nat, b: nat)
    requires carry < b && p < b && a < b && w < b
    ensures 0 <= carry + p + a * w < b * b
    ensures (carry + p + a * w) / b < b
  {
    assert a * w <= (b - 1) * w <= (b - 1) * (b - 1);
    assert (b - 1) * (b - 1) == b * b - 2 * b + 1;
    DivBelow(carry + p + a * w, b);
  }

  lemma DivBelow(t: nat, b: nat)
    requires t < b * b
    ensures t / b < b
  {
  }

  lemma RowStep(was: int, now: int, carry: int, lo: int, hi: int, a: int, bv: int, w: int, p: int, q: int, b: int)
    requires now + carry * q == was + a * bv && lo + b * hi == carry + p + a * w
    ensures (now + lo * q) + hi * (b * q) == (was + p * q) + a * (bv + w * q)
  {
    calc {
      (now + lo * q) + hi * (b * q);
      now + (lo + b * hi) * q;
      now + (carry + p + a * w) * q;
      now + carry * q + p * q + a * w * q;
      was + a * bv + p * q + a * w * q;
      (was + p * q) + a * (bv + w * q);
    }
  }

  /** Adds a * b to the words of `p` from `i` on; what does not fit is the carry. */
  method AddRow(p: array<u32>, i: nat, a: u32, b: seq<u32>) returns (carry: u64)
    requires i + |b| <= p.Length
    modifies p
    ensures carry < B
    ensures forall k :: 0 <= k < p.Length && !(i <= k < i + |b|) ==> p[k] == old(p[k])
    ensures Val(p[i..i + |b|]) + carry * Pow(|b|) == old(Val(p[i..i + |b|])) + a * Val(b)
  {
    hide Val;
    carry := 0;
    ValEmpty();
    for j := 0 to |b|
      invariant carry < B
      invariant forall k :: 0 <= k < p.Length && !(i <= k < i + j) ==> p[k] == old(p[k])
      invariant Val(p[i..i + j]) + carry * Pow(j) == Val(old(p[..])[i..i + j]) + a * Val(b[..j])
    {
      ghost var was, now, v := old(p[..])[i..i + j], p[i..i + j], b[..j];
      ghost var carried, word := carry, p[i + j];
      CarryFits(carry, p[i + j], a, b[j], B);
      carry := carry + (p[i + j] + a * b[j]);
      RowStep(Val(was), Val(now), carried, carry % B, carry / B, a, Val(v), b[j], word, Pow(j), B);
      p[i + j] := carry % B;
      ValSnoc(was, old(p[i + j]));
      ValSnoc(now, p[i + j]);
      ValSnoc(v, b[j]);
      assert old(p[..])[i..i + j + 1] == was + [old(p[i + j])];
      assert p[i..i + j + 1] == now + [p[i + j]];
      assert b[..j + 1] == v + [b[j]];
      carry := carry / B;
    }
    assert old(p[..])[i..i + |b|] == old(p[i..i + |b|]);
    assert b[..|b|] == b;
  }

  lemma ValEmpty()
    ensures Val([]) == 0 && Pow(0) == 1
  {
  }

  // ----- the product -----

  lemma ProductStep(low: seq<u32>, mid: seq<u32>, row: seq<u32>, carry: u32, a: u32, done: int, done': int, v: int, base: int)
    requires Val(low + mid) == base + done * v
    requires Val(row) + carry * Pow(|row|) == Val(mid) + a * v
    requires done' == done + a * Pow(|low|)
    ensures Val(low + (row + [carry])) == base + done' * v
  {
    hide Val, Pow;
    ValSplit(low, mid);
    ValSplit(low, row + [carry]);
    ValSnoc(row, carry);
    RowsAdd(Val(low), Val(mid), Val(row + [carry]), done, done', a, Pow(|low|), v, base);
  }

  lemma RowsAdd(low: int, was: int, now: int, done: int, done': int, a: int, q: int, v: int, base: int)
    requires low + q * was == base + done * v && now == was + a * v && done' == done + a * q
    ensures low + q * now == base + done' * v
  {
    assert q * now == q * was + q * (a * v);
    assert done' * v == done * v + q * (a * v);
  }

  /** `multiply`, and the first loop of `mod_l`: p = a * b + p, where the words of `p` from
      |b| on are only written. */
  method Multiply(p: array<u32>, a: seq<u32>, b: seq<u32>)
    requires |a| + |b| <= p.Length
    modifies p
    ensures Val(p[..|a| + |b|]) == old(Val(p[..|b|])) + Val(a) * Val(b)
  {
    hide Val;
    ValEmpty();
    ghost var base := Val(p[..|b|]);
    assert a[..0] == [];
    for i := 0 to |a|
      invariant Val(p[..i + |b|]) == base + Val(a[..i]) * Val(b)
    {
      ghost var was := p[..];
      var carry := AddRow(p, i, a[i], b);
      p[i + |b|] := carry;
      assert was[..i + |b|] == p[..i] + was[i..i + |b|];
      assert p[..i + 1 + |b|] == p[..i] + (p[i..i + |b|] + [carry]);
      assert a[..i + 1] == a[..i] + [a[i]];
      ValSnoc(a[..i], a[i]);
      ProductStep(p[..i], was[i..i + |b|], p[i..i + |b|], carry, a[i], Val(a[..i]), Val(a[..i + 1]), Val(b), base);
    }
    assert a[..|a|] == a;
  }

  // ----- comparison and subtraction in two's complement -----

  function Not32(v: u32): u32 {
    0xFFFF_FFFF - v
  }

  lemma Scale(d: int, p: int)
    requires d >= 1 && p > 0
    ensures d * p >= p
  {
  }

  lemma TopWord(v: int, l: int, x: int, y: int, p: int)
    requires 0 <= v < p && 0 <= l < p
    ensures v + x * p >= l + y * p <==> x > y || (x == y && v >= l)
  {
    assert x * p - y * p == (x - y) * p;
    if x > y {
      Scale(x - y, p);
    } else if x < y {
      assert y * p - x * p == (y - x) * p;
      Scale(y - x, p);
    }
  }

  lemma SmallPowers()
    ensures Pow(1) == 0x1_0000_0000 && Pow(2) == 0x1_0000_0000_0000_0000 && Pow(3) == 0x1_0000_0000_0000_0000_0000_0000
    ensures Pow(4) == 0x1_0000_0000_0000_0000_0000_0000_0000_0000
    ensures Pow(5) == Pow(4) * Pow(1) && Pow(6) == Pow(4) * Pow(2) && Pow(7) == Pow(4) * Pow(3) && Pow(8) == Pow(4) * Pow(4)
  {
  }

  /** The words as one sum. */
  lemma Words8(s: seq<u32>)
    requires |s| == 8
    ensures Val(s) == s[0] + s[1] * Pow(1) + s[2] * Pow(2) + s[3] * Pow(3) + s[4] * Pow(4) + s[5] * Pow(5) + s[6] * Pow(6) + s[7] * Pow(7)
  {
    hide Val, Pow;
    ValEmpty();
    forall i: nat | i < 8
      ensures Val(s[..i + 1]) == Val(s[..i]) + s[i] * Pow(i)
    {
      assert s[..i + 1] == s[..i] + [s[i]];
      ValSnoc(s[..i], s[i]);
    }
    assert s[..0] == [] && s[..8] == s;
    assert Val(s[..1]) == s[0];
    assert Val(s[..2]) == Val(s[..1]) + s[1] * Pow(1);
    assert Val(s[..3]) == Val(s[..2]) + s[2] * Pow(2);
    assert Val(s[..4]) == Val(s[..3]) + s[3] * Pow(3);
    assert Val(s[..5]) == Val(s[..4]) + s[4] * Pow(4);
    assert Val(s[..6]) == Val(s[..5]) + s[5] * Pow(5);
    assert Val(s[..7]) == Val(s[..6]) + s[6] * Pow(6);
    assert Val(s[..8]) == Val(s[..7]) + s[7] * Pow(7);
  }

  lemma OrderIsL()
    ensures Val(L) == ORDER < Pow(8)
  {
    hide Val, Pow;
    Words8(L);
    SmallPowers();
  }

  /** `is_above_l` */
  method IsAboveL(x: seq<u32>) returns (above: u64)
    requires |x| == 8
    ensures above == if Val(x) >= ORDER then 1 else 0
  {
    hide Val, Pow;
    ValEmpty();
    above := 1;
    assert x[..0] == [] && L[..0] == [];
    for i := 0 to 8
      invariant above == if Val(x[..i]) >= Val(L[..i]) then 1 else 0
    {
      assert x[..i + 1] == x[..i] + [x[i]] && L[..i + 1] == L[..i] + [L[i]];
      ValSnoc(x[..i], x[i]);
      ValSnoc(L[..i], L[i]);
      TopWord(Val(x[..i]), Val(L[..i]), x[i], L[i], Pow(i));
      above := above + (x[i] + Not32(L[i]));
      above := above / B;
    }
    assert x[..8] == x && L[..8] == L;
    OrderIsL();
  }

  lemma NotStep(r: int, c: int, x: int, y: int, lo: int, hi: int, xi: int, yi: int, p: int, b: int, p': int)
    requires r + c * p == x - y + p && lo + b * hi == c + xi + (b - 1 - yi) && p' == b * p
    ensures (r + lo * p) + hi * p' == (x + xi * p) - (y + yi * p) + p'
  {
    assert lo * p + hi * p' == (lo + b * hi) * p;
    assert (c + xi + (b - 1 - yi)) * p == c * p + xi * p + b * p - p - yi * p;
  }

  /** One word of x - y, computed by adding the complement of y and a carry that starts at 1. */
  lemma SubtractStep(r: seq<u32>, carry: int, x: seq<u32>, xi: u32, y: seq<u32>, yi: u32, lo: u32, hi: int)
    requires |r| == |x| == |y| && lo + B * hi == carry + (xi + Not32(yi))
    requires Val(r) + carry * Pow(|r|) == Val(x) - Val(y) + Pow(|r|)
    ensures Val(r + [lo]) + hi * Pow(|r| + 1) == Val(x + [xi]) - Val(y + [yi]) + Pow(|r| + 1)
  {
    hide Val, Pow;
    ValSnoc(r, lo);
    ValSnoc(x, xi);
    ValSnoc(y, yi);
    PowNext(|r|);
    NotStep(Val(r), carry, Val(x), Val(y), lo, hi, xi, yi, Pow(|r|), B, Pow(|r| + 1));
  }

  /** A sum that wraps by at most one. */
  lemma Wraps(r: int, carry: int, d: int, p: int)
    requires 0 <= r < p && 0 <= d < p && carry >= 0 && r + carry * p == d + p
    ensures r == d && carry == 1
  {
    if carry > 1 {
      assert carry * p == p + (carry - 1) * p;
      Scale(carry - 1, p);
      assert false;
    }
  }

  /** After some words of `remove_l`: x itself, or x - y by complement and carry. */
  ghost predicate Removed(above: u64, r: seq<u32>, carry: u64, x: seq<u32>, y: seq<u32>) {
    && |r| == |x| == |y| && carry <= 1 && above <= 1
    && (above == 0 ==> carry == 0 && r == x)
    && (above == 1 ==> Val(r) + carry * Pow(|r|) == Val(x) - Val(y) + Pow(|r|))
  }

  lemma RemoveStep(above: u64, r: seq<u32>, carry: u64, x: seq<u32>, xi: u32, y: seq<u32>, yi: u32, sum: int)
    requires Removed(above, r, carry, x, y) && sum == carry + (xi + (if above == 0 then 0 else Not32(yi)))
    ensures Removed(above, r + [sum % B], sum / B, x + [xi], y + [yi])
  {
    hide Val, Pow;
    if above == 1 {
      SubtractStep(r, carry, x, xi, y, yi, sum % B, sum / B);
    }
  }

  lemma RemovedAll(above: u64, r: seq<u32>, carry: u64, x: seq<u32>)
    requires |x| == 8 && Removed(above, r, carry, x, L) && above == if Val(x) >= ORDER then 1 else 0
    ensures Val(x) < 2 * ORDER ==> Val(r) == Val(x) % ORDER < ORDER
  {
    hide Val, Pow;
    OrderIsL();
    if above == 1 {
      Wraps(Val(r), carry, Val(x) - ORDER, Pow(8));
    }
  }

  lemma NothingRemoved(above: u64)
    requires above <= 1
    ensures Removed(above, [], above, [], [])
  {
  }

  /** `remove_l`, which may be given the same array twice. */
  method RemoveL(r: array<u32>, x: array<u32>)
    requires r.Length >= 8 && x.Length >= 8
    modifies r
    ensures old(Val(x[..8])) < 2 * ORDER ==> Val(r[..8]) == old(Val(x[..8])) % ORDER < ORDER
  {
    hide Val, Pow, Removed;
    ghost var was := x[..8];
    var carry := IsAboveL(x[..8]);
    ghost var above := carry;
    var mask: u32 := (Not32(carry) + 1) % B;
    assert mask == if above == 1 then 0xFFFF_FFFF else 0;
    assert was[..0] == [] && L[..0] == [] && r[..0] == [];
    NothingRemoved(above);
    for i := 0 to 8
      invariant 0 <= carry <= 1 && Removed(above, r[..i], carry, was[..i], L[..i])
      invariant forall k :: i <= k < 8 ==> x[k] == was[k]
    {
      ghost var done, carried := r[..i], carry;
      carry := carry + (x[i] + (if mask == 0 then 0 else Not32(L[i])));
      r[i] := carry % B;
      RemoveStep(above, done, carried, was[..i], was[i], L[..i], L[i], carry);
      assert r[..i + 1] == done + [r[i]] && was[..i + 1] == was[..i] + [was[i]] && L[..i + 1] == L[..i] + [L[i]];
      carry := carry / B;
    }
    assert was[..8] == was && L[..8] == L;
    RemovedAll(above, r[..8], carry, was);
  }

  lemma PowNext(n: nat)
    ensures Pow(n + 1) == B * Pow(n)
  {
  }

  // ----- Barrett reduction -----

  /** The reciprocal is floor(2^512 / L). */
  const RECIPROCAL := 1852673427797059126777135760139006525645217721299241702126143248052143860224795

  lemma {:induction false} ReciprocalIsR()
    ensures Val(R) == RECIPROCAL
    ensures Val(R) * ORDER <= Pow(16) < (Val(R) + 1) * ORDER
  {
    hide Val, Pow;
    Words8(R[..8]);
    assert R == R[..8] + [R[8]];
    ValSnoc(R[..8], R[8]);
    SmallPowers();
    PowAdd(8, 8);
  }

  /** An estimate of the quotient by the reciprocal is never too large, and at most one too
      small. */
  lemma EstimateIsClose(x: int, r: int, l: int, q: int, rem: int, p: int)
    requires 0 <= x < p && 0 < l && 0 <= rem < p && r * x == rem + p * q
    requires r * l <= p < (r + 1) * l
    ensures 0 <= x - q * l < 2 * l
  {
    var rl, ql := r * l, q * l;
    assert p * ql == x * rl - rem * l by {
      assert p * ql == (p * q) * l == (r * x - rem) * l == x * rl - rem * l;
    }
    NotTooLarge(x, l, ql, rem, p, rl);
    NotTooSmall(x, l, ql, rem, p, rl);
  }

  lemma NotTooLarge(x: int, l: int, ql: int, rem: int, p: int, rl: int)
    requires 0 <= x && 0 < l && 0 <= rem && 0 < p && rl <= p && p * ql == x * rl - rem * l
    ensures ql <= x
  {
    assert x * rl <= x * p;
    assert rem * l >= 0;
    assert p * (x - ql) >= 0;
    Sign(p, x - ql);
  }

  lemma NotTooSmall(x: int, l: int, ql: int, rem: int, p: int, rl: int)
    requires 0 <= x < p && 0 < l && 0 <= rem < p && p < rl + l && p * ql == x * rl - rem * l
    ensures x - ql < 2 * l
  {
    assert x * rl >= x * (p - l);
    assert x * (p - l) == x * p - x * l;
    assert x * l < p * l && rem * l < p * l;
    assert p * (2 * l - (x - ql)) == 2 * (p * l) - p * x + p * ql;
    Sign(p, 2 * l - (x - ql));
  }

  lemma Sign(p: int, d: int)
    requires p > 0
    ensures p * d >= 0 ==> d >= 0
    ensures p * d > 0 ==> d > 0
  {
  }

  lemma TruncatedRow(low: seq<u32>, mid: seq<u32>, row: seq<u32>, carry: int, a: int, y: seq<u32>, done: int, done': int, lost: int, lost': int)
    requires |mid| == |row| <= |y| == |low| + |mid|
    requires Val(low + mid) + lost * Pow(|y|) == done * Val(y)
    requires Val(row) + carry * Pow(|row|) == Val(mid) + a * Val(y[..|mid|])
    requires done' == done + a * Pow(|low|) && lost' == lost + carry + a * Val(y[|mid|..])
    ensures Val(low + row) + lost' * Pow(|y|) == done' * Val(y)
  {
    hide Val, Pow;
    var n := |mid|;
    ValSplit(low, mid);
    ValSplit(low, row);
    ValSplit(y[..n], y[n..]);
    assert y[..n] + y[n..] == y;
    PowAdd(|low|, n);
    TruncatedSum(Val(low), Val(mid), Val(row), carry, a, Val(y[..n]), Val(y[n..]), Val(y), done, done', lost, lost', Pow(|low|), Pow(n), Pow(|y|));
  }

  lemma TruncatedSum(low: int, was: int, now: int, c: int, a: int, vl: int, vh: int, v: int, done: int, done': int, g: int, g': int, q: int, s: int, p: int)
    requires low + q * was + g * p == done * v && now + c * s == was + a * vl
    requires v == vl + s * vh && p == q * s && done' == done + a * q && g' == g + c + a * vh
    ensures low + q * now + g' * p == done' * v
  {
    assert q * now == q * was + q * (a * vl) - q * (c * s);
    assert c * p == q * (c * s);
    assert (a * vh) * p == (a * q) * (s * vh);
    assert (a * q) * v == (a * q) * vl + (a * q) * (s * vh);
    assert (a * q) * vl == q * (a * vl);
    assert done' * v == done * v + (a * q) * v;
    assert g' * p == g * p + c * p + (a * vh) * p;
  }

  /** The second loop of `mod_l`: the low eight words of the quotient times L, where every
      carry out of word 7 is dropped. What is lost is a multiple of 2^256. */
  method TimesLTruncated(xr: array<u32>) returns (ghost lost: int)
    requires xr.Length == 25
    modifies xr
    ensures Val(xr[..8]) + lost * Pow(8) == Val(old(xr[16..24])) * ORDER
  {
    hide Val, Pow;
    ghost var quotient := xr[16..24];
    for k := 0 to 8
      invariant forall i :: 0 <= i < k ==> xr[i] == 0
      invariant xr[16..24] == quotient
    {
      xr[k] := 0;
    }
    ValZero(xr[..8]);
    ValEmpty();
    OrderIsL();
    lost := 0;
    assert quotient[..0] == [];
    for i := 0 to 8
      invariant xr[16..24] == quotient
      invariant Val(xr[..8]) + lost * Pow(8) == Val(quotient[..i]) * Val(L)
    {
      ghost var was := xr[..8];
      assert xr[i + 16] == quotient[i];
      var carry := AddRow(xr, i, xr[i + 16], L[..8 - i]);
      assert was == xr[..i] + was[i..] && xr[..8] == xr[..i] + xr[i..8];
      assert quotient[..i + 1] == quotient[..i] + [quotient[i]];
      assert xr[i..i + (8 - i)] == xr[i..8];
      ValSnoc(quotient[..i], quotient[i]);
      ghost var more := lost + carry + quotient[i] * Val(L[8 - i..]);
      TruncatedRow(xr[..i], was[i..], xr[i..8], carry, quotient[i], L, Val(quotient[..i]), Val(quotient[..i + 1]), lost, more);
      lost := more;
    }
    assert quotient[..8] == quotient;
  }

  lemma {:induction false} ValZero(s: seq<u32>)
    requires forall i :: 0 <= i < |s| ==> s[i] == 0
    ensures Val(s) == 0
  {
    if s != [] {
      ValZero(s[..|s| - 1]);
    }
  }

  /** The third loop of `mod_l`: xr = x - xr, on 256 bits. */
  method SubtractFrom(xr: array<u32>, x: seq<u32>) returns (ghost carried: int)
    requires xr.Length == 25 && |x| == 16
    modifies xr
    ensures Val(xr[..8]) == Val(x[..8]) - old(Val(xr[..8])) + (1 - carried) * Pow(8)
  {
    hide Val, Pow;
    ghost var was := xr[..8];
    ValEmpty();
    assert x[..0] == [] && was[..0] == [] && xr[..0] == [];
    var carry: u64 := 1;
    for i := 0 to 8
      invariant carry <= 1
      invariant Val(xr[..i]) + carry * Pow(i) == Val(x[..i]) - Val(was[..i]) + Pow(i)
      invariant forall k :: i <= k < 8 ==> xr[k] == was[k]
    {
      ghost var done, before := xr[..i], carry;
      carry := carry + (x[i] + Not32(xr[i]));
      xr[i] := carry % B;
      SubtractStep(done, before, x[..i], x[i], was[..i], was[i], carry % B, carry / B);
      assert xr[..i + 1] == done + [xr[i]] && was[..i + 1] == was[..i] + [was[i]] && x[..i + 1] == x[..i] + [x[i]];
      carry := carry / B;
    }
    carried := carry;
    assert was[..8] == was;
  }

  lemma Residue(r: int, d: int, k: int, p: int)
    requires 0 <= r < p && 0 <= d < p && r == d + k * p
    ensures r == d
  {
    if k >= 1 {
      Scale(k, p);
      assert false;
    } else if k <= -1 {
      assert (-k) * p == -(k * p);
      Scale(-k, p);
      assert false;
    }
  }

  /** What is left of x after the quotient estimate is taken off is less than 2L, and it is
      the same whether computed in full or modulo 2^256. */
  lemma LeftOver(x: seq<u32>, product: seq<u32>, low: nat, lost: int, rest: nat, k: int)
    requires |x| == 16 && |product| == 25 && Val(product) == Val(R) * Val(x)
    requires low + lost * Pow(8) == Val(product[16..24]) * ORDER
    requires rest == Val(x[..8]) - low + k * Pow(8) && rest < Pow(8)
    ensures rest < 2 * ORDER && rest % ORDER == Val(x) % ORDER
  {
    hide Val, Pow, RECIPROCAL;
    ReciprocalIsR();
    OrderIsL();
    var lowest, q8, top := product[..16], product[16..24], product[24];
    ValSplit(lowest, q8 + [top]);
    ValSnoc(q8, top);
    assert product == lowest + (q8 + [top]);
    var q := Val(q8 + [top]);
    EstimateIsClose(Val(x), Val(R), ORDER, q, Val(lowest), Pow(16));
    ValSplit(x[..8], x[8..]);
    assert x == x[..8] + x[8..];
    var d := Val(x) - q * ORDER;
    assert rest == d + (k + lost + top * ORDER - Val(x[8..])) * Pow(8) by {
      Collect(Val(x[..8]), Val(x[8..]), Val(q8), top, q, low, lost, k, ORDER, Pow(8));
    }
    TwiceOrderFits();
    Residue(rest, d, k + lost + top * ORDER - Val(x[8..]), Pow(8));
    SameResidue(Val(x), q, ORDER);
  }

  lemma TwiceOrderFits()
    ensures 2 * ORDER < Pow(8)
  {
    hide Pow;
    SmallPowers();
  }

  lemma Collect(xl: int, xh: int, q8: int, top: int, q: int, low: int, lost: int, k: int, l: int, p: int)
    requires q == q8 + top * p && low + lost * p == q8 * l
    ensures xl - low + k * p == (xl + p * xh - q * l) + (k + lost + top * l - xh) * p
  {
    assert q * l == q8 * l + (top * l) * p;
  }

  lemma SameResidue(x: int, q: int, l: int)
    requires l > 0
    ensures (x - q * l) % l == x % l
  {
    var d := x - q * l;
    var k := d / l + q - x / l;
    assert d == l * (d / l) + d % l && x == l * (x / l) + x % l;
    assert k * l == l * (d / l) + q * l - l * (x / l);
    Residue(x % l, d % l, k, l);
  }

  /** `mod_l` up to its final store: the result is x mod L, for every 512-bit x. */
  method ModLWords(x: seq<u32>) returns (xr: array<u32>)
    requires |x| == 16
    ensures fresh(xr) && xr.Length == 25 && Val(xr[..8]) == Val(x) % ORDER
  {
    hide Val, Pow;
    xr := new u32[25](_ => 0);
    ValZero(xr[..16]);
    Multiply(xr, R, x);
    ghost var product := xr[..25];
    assert product[16..24] == xr[16..24];
    ghost var lost := TimesLTruncated(xr);
    ghost var low := Val(xr[..8]);
    ghost var carried := SubtractFrom(xr, x);
    LeftOver(x, product, low, lost, Val(xr[..8]), 1 - carried);
    ghost var rest := Val(xr[..8]);
    RemoveL(xr, xr);
  }

  // ----- bytes -----

  function WordsOf(s: seq<byte>): (w: seq<u32>)
    requires |s| % 4 == 0
    ensures |w| == |s| / 4
  {
    if s == [] then [] else [Le32(s[..4])] + WordsOf(s[4..])
  }

  lemma FourBytes(s: seq<byte>)
    requires |s| >= 4
    ensures ByteVal(s) == Le32(s[..4]) + B * ByteVal(s[4..])
  {
    assert s[1..][1..] == s[2..] && s[2..][1..] == s[3..] && s[3..][1..] == s[4..];
    assert ByteVal(s) == s[0] + 0x100 * ByteVal(s[1..]);
    assert ByteVal(s[1..]) == s[1] + 0x100 * ByteVal(s[2..]);
    assert ByteVal(s[2..]) == s[2] + 0x100 * ByteVal(s[3..]);
  }

  /** Words read from bytes stand for the same number. */
  lemma {:induction false} WordsKeepValue(s: seq<byte>)
    requires |s| % 4 == 0
    ensures Val(WordsOf(s)) == ByteVal(s)
  {
    hide Val;
    ValEmpty();
    if s != [] {
      WordsKeepValue(s[4..]);
      FourBytes(s);
      ValSnoc([], Le32(s[..4]));
      ValSplit([Le32(s[..4])], WordsOf(s[4..]));
      assert [] + [Le32(s[..4])] == [Le32(s[..4])];
    }
  }

  lemma {:induction false} WordsAt(s: seq<byte>, i: nat)
    requires |s| % 4 == 0 && 4 * i < |s|
    ensures WordsOf(s)[i] == Le32(s[4 * i..4 * i + 4])
  {
    if i > 0 {
      WordsAt(s[4..], i - 1);
      assert s[4..][4 * (i - 1)..4 * (i - 1) + 4] == s[4 * i..4 * i + 4];
    }
  }

  /** `store32_le_buf` */
  method Store32LeBuf(dst: array<byte>, src: seq<u32>)
    requires dst.Length == 4 * |src|
    modifies dst
    ensures WordsOf(dst[..]) == src && ByteVal(dst[..]) == Val(src)
  {
    for i := 0 to |src|
      invariant forall k :: 0 <= k < i ==> dst[4 * k..4 * k + 4] == ToLe32(src[k])
    {
      var word := ToLe32(src[i]);
      ghost var was := dst[..];
      dst[4 * i], dst[4 * i + 1], dst[4 * i + 2], dst[4 * i + 3] := word[0], word[1], word[2], word[3];
      assert dst[4 * i..4 * i + 4] == word;
      forall k | 0 <= k < i
        ensures dst[4 * k..4 * k + 4] == was[4 * k..4 * k + 4]
      {
      }
    }
    forall i | 0 <= i < |src|
      ensures WordsOf(dst[..])[i] == src[i]
    {
      WordsAt(dst[..], i);
      assert dst[..][4 * i..4 * i + 4] == dst[4 * i..4 * i + 4] == ToLe32(src[i]);
    }
    WordsKeepValue(dst[..]);
  }

  /** `load32_le_buf` */
  method Load32LeBuf(src: seq<byte>) returns (dst: array<u32>)
    requires |src| % 4 == 0
    ensures fresh(dst) && dst[..] == WordsOf(src)
  {
    dst := new u32[|src| / 4](_ => 0);
    for i := 0 to |src| / 4
      invariant dst[..i] == WordsOf(src)[..i]
    {
      WordsAt(src, i);
      dst[i] := Le32(src[4 * i..4 * i + 4]);
    }
  }

  /** `mod_l` */
  method ModL(reduced: array<byte>, x: seq<u32>)
    requires reduced.Length == 32 && |x| == 16
    modifies reduced
    ensures ByteVal(reduced[..]) == Val(x) % ORDER
  {
    var xr := ModLWords(x);
    Store32LeBuf(reduced, xr[..8]);
  }

  /** `crypto_eddsa_reduce`: 64 bytes to the 32 bytes of their residue mod L. */
  method Reduce(reduced: array<byte>, expanded: seq<byte>)
    requires reduced.Length == 32 && |expanded| == 64
    modifies reduced
    ensures ByteVal(reduced[..]) == ByteVal(expanded) % ORDER
  {
    hide Val, WordsOf, ByteVal;
    var x := Load32LeBuf(expanded);
    WordsKeepValue(expanded);
    ModL(reduced, x[..]);
  }
}

/** Signed sliding windows of monocypher.c: a scalar becomes a sparse sequence of odd digits,
    most significant first, that the verification ladder adds and subtracts. */
module Slide {
  import opened Bytes
  import Barrett

  type i8 = n: int | -0x80 <= n < 0x80
  type i16 = n: int | -0x8000 <= n < 0x8000

  const P_WIDTH := 3  // tables of 2 multiples of the public key
  const B_WIDTH := 5  // and of 8 multiples of the base point

  /** `scalar_bit`: bits at negative positions are zero. */
  function ScalarBit(s: seq<byte>, i: int): (b: int)
    requires |s| == 32 && i < 256
    ensures 0 <= b <= 1
  {
    if i < 0 then 0 else if Bit(s[i / 8], i % 8) then 1 else 0
  }

  /** The bits from position k on, as a number. */
  function Upper(s: seq<byte>, k: nat): nat
    requires |s| == 32 && k <= 256
    decreases 256 - k
  {
    if k == 256 then 0 else ScalarBit(s, k) + 2 * Upper(s, k + 1)
  }

  /** The same, rounded up if the bit below is set. */
  function Rounded(s: seq<byte>, k: nat): nat
    requires |s| == 32 && k <= 256
  {
    Upper(s, k) + ScalarBit(s, k - 1)
  }

  // ----- the bits make up the number -----

  function Shr(b: nat, k: nat): nat {
    if k == 0 then b else Shr(b / 2, k - 1)
  }

  lemma {:induction false} ShrNext(b: byte, k: nat)
    ensures Shr(b, k) == 2 * Shr(b, k + 1) + (if Bit(b, k) then 1 else 0)
  {
    if k > 0 {
      ShrNext(b / 2, k - 1);
    }
  }

  lemma {:induction false} ShrVanishes(b: nat, k: nat)
    requires b < Pow2(k)
    ensures Shr(b, k) == 0
  {
    if k > 0 {
      ShrVanishes(b / 2, k - 1);
    }
  }

  lemma {:induction false} UpperInByte(s: seq<byte>, m: nat, j: nat)
    requires |s| == 32 && m < 32 && j <= 8
    requires Upper(s, 8 * m + 8) == ByteVal(s[m + 1..])
    ensures Upper(s, 8 * m + j) == Shr(s[m], j) + Pow2(8 - j) * ByteVal(s[m + 1..])
    decreases 8 - j
  {
    if j == 8 {
      ShrVanishes(s[m], 8);
    } else {
      UpperInByte(s, m, j + 1);
      ShrNext(s[m], j);
      assert (8 * m + j) / 8 == m && (8 * m + j) % 8 == j;
      TwiceOf(Pow2(8 - j - 1), ByteVal(s[m + 1..]));
    }
  }

  lemma TwiceOf(p: int, v: int)
    ensures 2 * (p * v) == (2 * p) * v
  {
  }

  lemma {:induction false} UpperIsByteVal(s: seq<byte>, m: nat)
    requires |s| == 32 && m <= 32
    ensures Upper(s, 8 * m) == ByteVal(s[m..])
    decreases 32 - m
  {
    if m < 32 {
      UpperIsByteVal(s, m + 1);
      UpperInByte(s, m, 0);
      assert s[m..][1..] == s[m + 1..];
      assert Pow2(8) == 0x100;
    }
  }

  // ----- what a window is worth -----

  /** The bits from `lo` to `hi` - 1, as a number. */
  function Field(s: seq<byte>, lo: nat, hi: nat): nat
    requires |s| == 32 && lo <= hi <= 256
    decreases hi - lo
  {
    if lo == hi then 0 else ScalarBit(s, lo) + 2 * Field(s, lo + 1, hi)
  }

  lemma {:induction false} UpperSplits(s: seq<byte>, lo: nat, hi: nat)
    requires |s| == 32 && lo <= hi <= 256
    ensures Upper(s, lo) == Field(s, lo, hi) + Pow2(hi - lo) * Upper(s, hi)
    decreases hi - lo
  {
    if lo < hi {
      UpperSplits(s, lo + 1, hi);
      TwiceOf(Pow2(hi - lo - 1), Upper(s, hi));
    }
  }

  lemma {:induction false} FieldSnoc(s: seq<byte>, lo: nat, hi: nat)
    requires |s| == 32 && lo <= hi < 256
    ensures Field(s, lo, hi + 1) == Field(s, lo, hi) + ScalarBit(s, hi) * Pow2(hi - lo)
    decreases hi - lo
  {
    if lo < hi {
      FieldSnoc(s, lo + 1, hi);
      TwiceOf(ScalarBit(s, hi), Pow2(hi - lo - 1));
      assert 2 * (ScalarBit(s, hi) * Pow2(hi - lo - 1)) == ScalarBit(s, hi) * Pow2(hi - lo);
    }
  }

  lemma {:induction false} FieldBounds(s: seq<byte>, lo: nat, hi: nat)
    requires |s| == 32 && lo <= hi <= 256
    ensures 0 <= Field(s, lo, hi) < Pow2(hi - lo)
    decreases hi - lo
  {
    if lo < hi {
      FieldBounds(s, lo + 1, hi);
    }
  }

  /** The window of width w that ends at bit i: its top bit counts negative, and the bit below
      rounds it up. */
  function WindowValue(s: seq<byte>, i: nat, w: nat): int
    requires |s| == 32 && i < 256 && 0 < w <= i + 1
  {
    Field(s, i - (w - 1), i) - ScalarBit(s, i) * Pow2(w - 1) + ScalarBit(s, i - w)
  }

  lemma WindowIsWorth(s: seq<byte>, i: nat, w: nat)
    requires |s| == 32 && i < 255 && 0 < w <= i + 1
    ensures Rounded(s, i - (w - 1)) == WindowValue(s, i, w) + Pow2(w) * Rounded(s, i + 1)
  {
    hide Field, Upper, ScalarBit, Pow2;
    var lo := i - (w - 1);
    UpperSplits(s, lo, i + 1);
    FieldSnoc(s, lo, i);
    Pow2Next(w - 1);
    TopBitTwice(Upper(s, i + 1), ScalarBit(s, i), Pow2(w - 1), Pow2(w));
  }

  lemma Pow2Next(n: nat)
    ensures Pow2(n + 1) == 2 * Pow2(n) > 0
  {
    Pow2Grows(n, n);
  }

  lemma TopBitTwice(u: int, b: int, half: int, p: int)
    requires p == 2 * half
    ensures p * (u + b) == p * u + b * half + b * half
  {
    assert p * (u + b) == p * u + p * b && p * b == 2 * (half * b);
  }

  lemma SkipIsWorth(s: seq<byte>, i: nat)
    requires |s| == 32 && i < 255 && ScalarBit(s, i) == ScalarBit(s, i - 1)
    ensures Rounded(s, i) == 2 * Rounded(s, i + 1)
  {
    hide ScalarBit;
  }

  /** A window starts where two bits differ, so it is worth at least a quarter of its range
      and at most half of it, with the sign of its top bit. */
  lemma WindowBounds(s: seq<byte>, i: nat, w: nat)
    requires |s| == 32 && i < 256 && 0 < w <= i + 1
    requires ScalarBit(s, i) != ScalarBit(s, i - 1)
    ensures w >= 2 && ScalarBit(s, i) == 1 ==> 0 - Pow2(w - 1) <= WindowValue(s, i, w) <= 0 - Pow2(w - 2)
    ensures w >= 2 && ScalarBit(s, i) == 0 ==> Pow2(w - 2) <= WindowValue(s, i, w) <= Pow2(w - 1)
    ensures w == 1 ==> WindowValue(s, i, w) in {-1, 1}
  {
    hide Upper, ScalarBit, Pow2, Field;
    BitTimes(ScalarBit(s, i), Pow2(w - 1));
    if w >= 2 {
      var lo := i - (w - 1);
      FieldSnoc(s, lo, i - 1);
      FieldBounds(s, lo, i - 1);
      assert i - 1 - lo == w - 2;
      BitTimes(ScalarBit(s, i - 1), Pow2(w - 2));
      Pow2Doubles(w - 2);
    } else {
      FieldOfNone(s, i);
      Pow2Doubles(0);
    }
  }

  lemma BitTimes(bit: int, p: int)
    ensures bit == 0 ==> bit * p == 0
    ensures bit == 1 ==> bit * p == p
  {
  }

  lemma Pow2Doubles(n: nat)
    ensures Pow2(n + 1) == 2 * Pow2(n) && Pow2(0) == 1
  {
  }

  lemma FieldOfNone(s: seq<byte>, i: nat)
    requires |s| == 32 && i < 256
    ensures Field(s, i, i) == 0
  {
  }

  // ----- the digit of a window -----

  /** How often two divides v. */
  function Twos(v: int): nat
    requires v != 0
    decreases if v < 0 then -v else v
  {
    if v % 2 != 0 then 0 else 1 + Twos(v / 2)
  }

  /** Some bit is set in both. */
  predicate Common(a: byte, mask: byte) {
    exists k: nat :: k < 8 && Bit(a, k) && Bit(mask, k)
  }

  /** The three masks find the position of a single bit. */
  function LogOf(lsb: byte): nat {
    (if Common(lsb, 0xAA) then 1 else 0) + (if Common(lsb, 0xCC) then 2 else 0) + (if Common(lsb, 0xF0) then 4 else 0)
  }

  lemma {:induction false} BitOfPow2(n: nat, k: nat)
    requires n < 8 && k < 8
    ensures Pow2(n) < 0x100 && (Bit(Pow2(n), k) <==> k == n)
  {
    if n > 0 {
      BitOfPow2(n - 1, if k > 0 then k - 1 else 0);
      Pow2Grows(n, 7);
      assert Pow2(7) == 0x80;
    } else if k > 0 {
      ZeroBits(k - 1);
    }
  }

  lemma {:induction false} ZeroBits(k: nat)
    ensures !Bit(0, k)
  {
    if k > 0 {
      ZeroBits(k - 1);
    }
  }

  lemma {:induction false} Pow2Grows(m: nat, n: nat)
    requires m <= n
    ensures 0 < Pow2(m) <= Pow2(n)
  {
    if m < n {
      Pow2Grows(m, n - 1);
    } else if m > 0 {
      Pow2Grows(m - 1, n - 1);
    }
  }

  lemma MaskBits(n: nat)
    requires n < 8
    ensures Bit(0xAA, n) <==> n % 2 == 1
    ensures Bit(0xCC, n) <==> n / 2 % 2 == 1
    ensures Bit(0xF0, n) <==> n / 4 == 1
  {
    assert !Bit(0xAA, 0) && Bit(0xAA, 1) && !Bit(0xAA, 2) && Bit(0xAA, 3) && !Bit(0xAA, 4) && Bit(0xAA, 5) && !Bit(0xAA, 6) && Bit(0xAA, 7);
    assert !Bit(0xCC, 0) && !Bit(0xCC, 1) && Bit(0xCC, 2) && Bit(0xCC, 3) && !Bit(0xCC, 4) && !Bit(0xCC, 5) && Bit(0xCC, 6) && Bit(0xCC, 7);
    assert !Bit(0xF0, 0) && !Bit(0xF0, 1) && !Bit(0xF0, 2) && !Bit(0xF0, 3) && Bit(0xF0, 4) && Bit(0xF0, 5) && Bit(0xF0, 6) && Bit(0xF0, 7);
  }

  lemma MasksFindPosition(n: nat)
    requires n < 8
    ensures Pow2(n) < 0x100 && LogOf(Pow2(n)) == n
  {
    hide Bit;
    forall k: nat | k < 8
      ensures Pow2(n) < 0x100 && (Bit(Pow2(n), k) <==> k == n)
    {
      BitOfPow2(n, k);
    }
    assert Pow2(n) < 0x100 by { BitOfPow2(n, 0); }
    MaskBits(n);
  }

  /** What remains when all factors two are gone. */
  function OddOf(v: int): int
    requires v != 0
    decreases if v < 0 then -v else v
  {
    if v % 2 != 0 then v else OddOf(v / 2)
  }

  lemma {:induction false} OddPart(v: int)
    requires v != 0
    ensures v == OddOf(v) * Pow2(Twos(v)) && OddOf(v) % 2 == 1
    decreases if v < 0 then -v else v
  {
    if v % 2 == 0 {
      OddPart(v / 2);
      TwiceOf(Pow2(Twos(v / 2)), OddOf(v / 2));
    }
  }

  lemma ExactDiv(v: int, q: int, p: int)
    requires p > 0 && v == q * p
    ensures v / p == q
  {
    var d := v / p - q;
    assert v == p * (v / p) + v % p;
    assert d * p == -(v % p) && (-d) * p == -(d * p);
    if d >= 1 {
      Barrett.Scale(d, p);
      assert false;
    } else if d <= -1 {
      Barrett.Scale(-d, p);
      assert false;
    }
  }

  /** The digit of a window is odd, less than half of its range, and placed inside it. */
  lemma {:induction false} DigitBounds(v: int, w: nat)
    requires w >= 1 && v != 0 && 0 - Pow2(w - 1) <= v <= Pow2(w - 1)
    ensures Twos(v) <= w - 1
    ensures w >= 2 ==> 0 - Pow2(w - 1) < OddOf(v) < Pow2(w - 1)
    ensures w == 1 ==> -1 <= OddOf(v) <= 1
    decreases w
  {
    hide Pow2;
    if w >= 2 {
      Pow2Next(w - 2);
      if v % 2 == 0 {
        DigitBounds(v / 2, w - 1);
      }
    } else {
      assert Pow2(0) == 1 by { PowerOf0(); }
    }
  }

  lemma PowerOf0()
    ensures Pow2(0) == 1
  {
  }

  // ----- the incremental recoding -----

  /** The digits found so far, as a Horner sum over positions i and up, plus the digit that
      still waits below i, are worth the scalar's bits from `low` on. */
  ghost predicate Balanced(s: seq<byte>, sum: int, i: int, low: int, index: int, digit: int)
    requires |s| == 32
  {
    && -1 <= i - 1 && 0 <= low <= i && i <= 255
    && (index >= 0 ==> low <= index)
    && sum * Pow2(i) + (if 0 <= index < i then digit * Pow2(index) else 0) == Rounded(s, low) * Pow2(low)
  }

  lemma SkipBalances(s: seq<byte>, sum: int, i: nat, index: int, digit: int)
    requires |s| == 32 && i < 254 && Balanced(s, sum, i + 1, i + 1, index, digit)
    requires ScalarBit(s, i) == ScalarBit(s, i - 1)
    ensures Balanced(s, 2 * sum, i, i, index, digit)
  {
    hide ScalarBit, Rounded, Pow2;
    SkipIsWorth(s, i);
    Pow2Next(i);
    Cancel(sum, Rounded(s, i + 1), Pow2(i + 1));
  }

  lemma Cancel(a: int, b: int, p: int)
    requires p > 0 && a * p == b * p
    ensures a == b
  {
    if a > b {
      assert (a - b) * p == 0;
      Barrett.Scale(a - b, p);
      assert false;
    } else if a < b {
      assert (b - a) * p == 0;
      Barrett.Scale(b - a, p);
      assert false;
    }
  }

  lemma WindowBalances(s: seq<byte>, sum: int, i: nat, w: nat, index: int, digit: int, z: nat, d: int)
    requires |s| == 32 && i < 254 && 0 < w <= i + 1 && Balanced(s, sum, i + 1, i + 1, index, digit)
    requires z < w && WindowValue(s, i, w) == d * Pow2(z)
    ensures Balanced(s, 2 * sum + (if z == w - 1 then d else 0), i, i - (w - 1), i - (w - 1) + z, d)
  {
    hide ScalarBit, Rounded, Pow2, WindowValue;
    var lo := i - (w - 1);
    WindowIsWorth(s, i, w);
    Pow2Next(i);
    Cancel(sum, Rounded(s, i + 1), Pow2(i + 1));
    Pow2Sum(w, lo);
    Pow2Sum(z, lo);
    if z == w - 1 {
      Assemble(Rounded(s, lo), d, Pow2(z), Pow2(w), sum, Pow2(lo), Pow2(i), Pow2(i + 1));
    } else {
      Assemble(Rounded(s, lo), d, Pow2(z), Pow2(w), sum, Pow2(lo), Pow2(lo + z), Pow2(i + 1));
    }
  }

  lemma {:induction false} Pow2Sum(m: nat, n: nat)
    ensures Pow2(m + n) == Pow2(m) * Pow2(n)
  {
    if m > 0 {
      Pow2Sum(m - 1, n);
      TwiceOf(Pow2(m - 1), Pow2(n));
    }
  }

  lemma Assemble(r: int, d: int, pz: int, pw: int, sum: int, plo: int, pd: int, pi: int)
    requires r == d * pz + pw * sum && pd == pz * plo && pi == pw * plo
    ensures r * plo == d * pd + sum * pi
  {
    assert (d * pz) * plo == d * pd && (pw * sum) * plo == sum * pi;
  }

  lemma EmitBalances(s: seq<byte>, sum: int, i: nat, low: int, index: int, digit: int)
    requires |s| == 32 && Balanced(s, sum, i + 1, low, index, digit) && low <= i
    ensures Balanced(s, 2 * sum + (if index == i then digit else 0), i, low, index, digit)
  {
    hide ScalarBit, Rounded, Pow2;
    Pow2Next(i);
    assert (2 * sum + digit) * Pow2(i) == sum * Pow2(i + 1) + digit * Pow2(i) && (2 * sum) * Pow2(i) == sum * Pow2(i + 1);
  }

  class SlideCtx {
    var nextIndex: i16
    var nextDigit: i8
    var nextCheck: byte

    /** The bits below this position are still to be looked at; the u8 that holds the position
        minus one has wrapped to 255 when none are left. */
    ghost function Low(): int
      reads this
    {
      if nextCheck == 255 then 0 else nextCheck + 1
    }

    /** Before position i - 1 is handled. */
    ghost predicate Valid(s: seq<byte>, width: nat, sum: int, i: int)
      requires |s| == 32 && width >= 2
      reads this
    {
      && Balanced(s, sum, i, Low(), nextIndex, nextDigit)
      && nextCheck != 254
      && (nextIndex >= 0 ==> nextDigit % 2 == 1 && 0 - Pow2(width - 1) < nextDigit < Pow2(width - 1))
    }

    /** `slide_init` */
    constructor (scalar: seq<byte>, ghost width: nat)
      requires |scalar| == 32 && Upper(scalar, 253) == 0 && width >= 2
      ensures 1 <= nextCheck <= 253
      ensures forall i :: nextCheck < i <= 254 ==> Valid(scalar, width, 0, i)
    {
      hide ScalarBit;
      var i := 252;
      while i > 0 && ScalarBit(scalar, i) == 0
        invariant 0 <= i <= 252 && Upper(scalar, i + 1) == 0
      {
        i := i - 1;
      }
      nextCheck, nextIndex, nextDigit := i + 1, -1, -1;
      assert Rounded(scalar, i + 2) == 0;
    }

    /** The value of the window of width w that ends at bit i. */
    method Window(scalar: seq<byte>, i: nat, w: nat) returns (v: int)
      requires |scalar| == 32 && i < 256 && 0 < w <= i + 1
      ensures v == WindowValue(scalar, i, w)
    {
      hide ScalarBit;
      v := -(ScalarBit(scalar, i) * Pow2(w - 1));
      for j := 0 to w - 1
        invariant v == Field(scalar, i - (w - 1), i - (w - 1) + j) - ScalarBit(scalar, i) * Pow2(w - 1)
      {
        FieldSnoc(scalar, i - (w - 1), i - (w - 1) + j);
        v := v + ScalarBit(scalar, i - (w - 1) + j) * Pow2(j);
      }
      v := v + ScalarBit(scalar, i - w);
    }

    /** Position and value of the digit of the window that ends at bit i. */
    method Digit(width: nat, i: nat, scalar: seq<byte>, w: nat) returns (z: nat, d: i8)
      requires |scalar| == 32 && 2 <= width <= 5 && i < 254 && w == Min(width, i + 1)
      requires ScalarBit(scalar, i) != ScalarBit(scalar, i - 1)
      ensures z < w && WindowValue(scalar, i, w) == d * Pow2(z)
      ensures d % 2 == 1 && 0 - Pow2(width - 1) < d < Pow2(width - 1)
    {
      hide ScalarBit, Pow2, WindowValue;
      var v := Window(scalar, i, w);
      WindowNotZero(v, scalar, i, w, width);
      DigitBounds(v, w);
      SmallWidth(w, width);
      OddPart(v);
      MasksFindPosition(Twos(v));
      var lsb: byte := Pow2(Twos(v));  // v & -v
      z := LogOf(lsb);
      Pow2Grows(0, z);
      ExactDiv(v, OddOf(v), lsb);
      d := v / lsb;  // v >> z
    }

    /** `slide_step`. The digit is zero or odd, and its half indexes a table of 2^(width-2)
        odd multiples. */
    method SlideStep(width: nat, i: nat, scalar: seq<byte>, ghost sum: int) returns (digit: int)
      requires |scalar| == 32 && 2 <= width <= 5 && i < 254 && Valid(scalar, width, sum, i + 1)
      modifies this
      ensures Valid(scalar, width, 2 * sum + digit, i)
      ensures digit == 0 || (digit % 2 == 1 && 0 - Pow2(width - 1) < digit < Pow2(width - 1))
    {
      hide ScalarBit, Rounded, Pow2, WindowValue, Balanced, Upper, Field;
      BalancedMeans(scalar, sum, i + 1, Low(), nextIndex, nextDigit);
      if i == nextCheck {
        if ScalarBit(scalar, i) == ScalarBit(scalar, i - 1) {
          SkipBalances(scalar, sum, i, nextIndex, nextDigit);
          nextCheck := (nextCheck - 1) % 0x100;
        } else {
          OpenWindow(width, i, scalar, sum);
        }
      } else {
        EmitBalances(scalar, sum, i, Low(), nextIndex, nextDigit);
      }
      digit := if i == nextIndex then nextDigit else 0;
    }

    method OpenWindow(width: nat, i: nat, scalar: seq<byte>, ghost sum: int)
      requires |scalar| == 32 && 2 <= width <= 5 && i < 254 && Valid(scalar, width, sum, i + 1)
      requires i == nextCheck && ScalarBit(scalar, i) != ScalarBit(scalar, i - 1)
      modifies this
      ensures Valid(scalar, width, 2 * sum + (if nextIndex == i then nextDigit else 0), i) && nextIndex >= 0
    {
      hide ScalarBit, Rounded, Pow2, WindowValue, Balanced, Upper, Field;
      var w := Min(width, i + 1);
      var z, d := Digit(width, i, scalar, w);
      WindowBalances(scalar, sum, i, w, nextIndex, nextDigit, z, d);
      nextIndex := i - (w - 1) + z;
      nextDigit := d;
      nextCheck := (nextCheck - w) % 0x100;
      assert Low() == i - (w - 1);
    }
  }

  lemma BalancedMeans(s: seq<byte>, sum: int, i: int, low: int, index: int, digit: int)
    requires |s| == 32 && Balanced(s, sum, i, low, index, digit)
    ensures 0 <= low <= i && (index >= 0 ==> low <= index)
  {
  }

  lemma WindowNotZero(v: int, s: seq<byte>, i: nat, w: nat, width: nat)
    requires |s| == 32 && i < 256 && 0 < w <= i + 1 && ScalarBit(s, i) != ScalarBit(s, i - 1) && v == WindowValue(s, i, w)
    ensures v != 0 && 0 - Pow2(w - 1) <= v <= Pow2(w - 1)
  {
    hide WindowValue;
    WindowBounds(s, i, w);
    Pow2Grows(0, w - 1);
    if w >= 2 {
      Pow2Grows(w - 2, w - 1);
    }
  }

  lemma SmallWidth(w: nat, width: nat)
    requires 0 < w <= width && 2 <= width <= 5
    ensures Pow2(w - 1) <= Pow2(width - 1) <= 16 && Pow2(width - 1) >= 2
  {
    Pow2Grows(w - 1, width - 1);
    Pow2Grows(width - 1, 4);
    Pow2Grows(1, width - 1);
    assert Pow2(4) == 16 && Pow2(1) == 2;
  }

  // ----- the ladder -----

  /** A table entry for every odd multiple 1, 3, 5, ... */
  predicate OddMultiples(table: seq<int>, width: nat)
    requires width >= 2
  {
    |table| == Pow2(width - 2) && forall k :: 0 <= k < |table| ==> table[k] == 2 * k + 1
  }

  /** Adding or subtracting the table entry that a digit selects adds the digit. */
  method AddDigit(sum: int, digit: int, table: seq<int>, width: nat) returns (r: int)
    requires width >= 2 && OddMultiples(table, width)
    requires digit == 0 || (digit % 2 == 1 && 0 - Pow2(width - 1) < digit < Pow2(width - 1))
    ensures r == sum + digit
  {
    hide Pow2;
    Pow2Next(width - 2);
    r := sum;
    if digit > 0 {
      r := r + table[digit / 2];
    }
    if digit < 0 {
      r := r - table[-digit / 2];
    }
  }

  lemma BalancedAtEnd(s: seq<byte>, sum: int, low: int, index: int, digit: int)
    requires |s| == 32 && Balanced(s, sum, 0, low, index, digit)
    ensures sum == ByteVal(s)
  {
    hide Upper, ByteVal;
    assert Pow2(0) == 1;
    UpperIsByteVal(s, 0);
    assert s[0..] == s;
  }

  lemma TopBitsClear(s: seq<byte>, n: nat)
    requires |s| == 32 && n <= 256 && ByteVal(s) < Pow2(n)
    ensures Upper(s, n) == 0
  {
    hide Upper, ByteVal, Pow2;
    UpperIsByteVal(s, 0);
    assert s[0..] == s;
    UpperSplits(s, 0, n);
    FieldBounds(s, 0, n);
    if Upper(s, n) >= 1 {
      Barrett.Scale(Upper(s, n), Pow2(n));
      assert false;
    }
  }

  /** What `mod_l` returns and what passes `is_above_l` is in the range of the ladder. */
  lemma OrderFits()
    ensures Barrett.ORDER < Pow2(253)
  {
    hide Pow2;
    Pow2Of16();
    Pow2Sum(16, 16);
    Pow2Sum(32, 32);
    Pow2Sum(64, 64);
    Pow2Sum(3, 125);
    Pow2Sum(128, 125);
  }

  lemma Pow2Of16()
    ensures Pow2(16) == 0x1_0000 && Pow2(3) == 8
  {
  }

  /** The merged double-and-add loop of `crypto_eddsa_check_equation`, with a point written as
      the multiples a and b of the two points it combines: for scalars below 2^253 the loop
      arrives at exactly h and s. */
  method Ladder(h: seq<byte>, s: seq<byte>) returns (a: int, b: int)
    requires |h| == |s| == 32 && ByteVal(h) < Pow2(253) && ByteVal(s) < Pow2(253)
    ensures a == ByteVal(h) && b == ByteVal(s)
  {
    hide Pow2, ByteVal, Balanced, Upper;
    TopBitsClear(h, 253);
    TopBitsClear(s, 253);
    var lutA := [1, 1 + 2];
    var window := [1, 3, 5, 7, 9, 11, 13, 15];
    TableSizes();
    var hSlide := new SlideCtx(h, P_WIDTH);
    var sSlide := new SlideCtx(s, B_WIDTH);
    var i: int := if hSlide.nextCheck > sSlide.nextCheck then hSlide.nextCheck else sSlide.nextCheck;
    a, b := 0, 0;
    while i >= 0
      invariant -1 <= i < 254 && hSlide != sSlide && fresh(hSlide) && fresh(sSlide)
      invariant hSlide.Valid(h, P_WIDTH, a, i + 1) && sSlide.Valid(s, B_WIDTH, b, i + 1)
    {
      var hDigit := hSlide.SlideStep(P_WIDTH, i, h, a);
      var sDigit := sSlide.SlideStep(B_WIDTH, i, s, b);
      a := AddDigit(2 * a, hDigit, lutA, P_WIDTH);
      b := AddDigit(2 * b, sDigit, window, B_WIDTH);
      i := i - 1;
    }
    BalancedAtEnd(h, a, hSlide.Low(), hSlide.nextIndex, hSlide.nextDigit);
    BalancedAtEnd(s, b, sSlide.Low(), sSlide.nextIndex, sSlide.nextDigit);
  }

  lemma TableSizes()
    ensures Pow2(1) == 2 && Pow2(3) == 8
  {
  }
}

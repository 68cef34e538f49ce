/** Where the constants of Sha512Standard.dfy come from: sections 4.2.3 and 5.3.5 of FIPS 180-4. */
module Sha512Constants {
  import opened Sha512Standard

  function Times(d: nat, e: nat): nat {
    d * e
  }

  ghost predicate IsPrime(p: nat) {
    p >= 2 && forall d: nat, e: nat :: d >= 2 && e >= 2 ==> Times(d, e) != p
  }

  /** How many primes there are below `n`. */
  ghost function PrimesBelow(n: nat): nat {
    if n == 0 then 0 else PrimesBelow(n - 1) + (if IsPrime(n - 1) then 1 else 0)
  }

  function Square(n: nat): nat {
    n * n
  }

  function Cube(n: nat): nat {
    n * n * n
  }

  /** `k` is the first 64 bits of the fraction of the cube root of `p`, whose integer part is `c`. */
  predicate CubeRoot(p: nat, c: nat, k: word) {
    && Cube(c) <= p < Cube(c + 1)
    && Cube(c * TWO64 + k as int) <= p * Cube(TWO64) < Cube(c * TWO64 + k as int + 1)
  }

  /** The same of the square root. */
  predicate SquareRoot(p: nat, c: nat, k: word) {
    && Square(c) <= p < Square(c + 1)
    && Square(c * TWO64 + k as int) <= p * Square(TWO64) < Square(c * TWO64 + k as int + 1)
  }

  // ----- the first eighty primes -----

  /** The candidates, eight at a time. */
  function PrimeRow(i: nat): (row: seq<nat>)
    ensures |row| == 8
  {
    if i == 0 then [2, 3, 5, 7, 11, 13, 17, 19]
    else if i == 1 then [23, 29, 31, 37, 41, 43, 47, 53]
    else if i == 2 then [59, 61, 67, 71, 73, 79, 83, 89]
    else if i == 3 then [97, 101, 103, 107, 109, 113, 127, 131]
    else if i == 4 then [137, 139, 149, 151, 157, 163, 167, 173]
    else if i == 5 then [179, 181, 191, 193, 197, 199, 211, 223]
    else if i == 6 then [227, 229, 233, 239, 241, 251, 257, 263]
    else if i == 7 then [269, 271, 277, 281, 283, 293, 307, 311]
    else if i == 8 then [313, 317, 331, 337, 347, 349, 353, 359]
    else [367, 373, 379, 383, 389, 397, 401, 409]
  }

  function PrimeAt(t: nat): nat {
    PrimeRow(t / 8)[t % 8]
  }

  /** No prime below twenty divides `p`, unless it is `p`. */
  predicate Sieved(p: nat) {
    && p >= 2
    && (p == 2 || p % 2 != 0) && (p == 3 || p % 3 != 0) && (p == 5 || p % 5 != 0) && (p == 7 || p % 7 != 0)
    && (p == 11 || p % 11 != 0) && (p == 13 || p % 13 != 0) && (p == 17 || p % 17 != 0) && (p == 19 || p % 19 != 0)
  }

  predicate Multiple(p: nat, h: nat) {
    p == 2 * h || p == 3 * h || p == 5 * h || p == 7 * h || p == 11 * h || p == 13 * h || p == 17 * h || p == 19 * h
  }

  lemma MultipleOf(p: nat, h: nat)
    requires h >= 2 && Multiple(p, h)
    ensures !Sieved(p)
  {
    hide Sieved;
    Exact(h);
    Fails(p);
  }

  lemma Exact(h: nat)
    ensures 2 * h % 2 == 0
    ensures 3 * h % 3 == 0
    ensures 5 * h % 5 == 0
    ensures 7 * h % 7 == 0
    ensures 11 * h % 11 == 0
    ensures 13 * h % 13 == 0
    ensures 17 * h % 17 == 0
    ensures 19 * h % 19 == 0
  {
  }

  lemma Fails(p: nat)
    ensures p > 2 && p % 2 == 0 ==> !Sieved(p)
    ensures p > 3 && p % 3 == 0 ==> !Sieved(p)
    ensures p > 5 && p % 5 == 0 ==> !Sieved(p)
    ensures p > 7 && p % 7 == 0 ==> !Sieved(p)
    ensures p > 11 && p % 11 == 0 ==> !Sieved(p)
    ensures p > 13 && p % 13 == 0 ==> !Sieved(p)
    ensures p > 17 && p % 17 == 0 ==> !Sieved(p)
    ensures p > 19 && p % 19 == 0 ==> !Sieved(p)
  {
  }

  lemma ByCase(f: nat, h: nat)
    requires f == 2 || f == 3 || f == 5 || f == 7 || f == 11 || f == 13 || f == 17 || f == 19
    ensures Multiple(f * h, h)
  {
    if f == 2 || f == 3 || f == 5 || f == 7 {
      assert f * h == 2 * h || f * h == 3 * h || f * h == 5 * h || f * h == 7 * h;
    }
  }

  lemma ProductIsLarge(d: nat, e: nat)
    ensures d >= 23 && e >= 23 ==> Times(d, e) >= 529
    ensures d >= 2 && e >= 2 ==> Times(d, e) >= 4
  {
    if d >= 23 && e >= 23 {
      assert d * e >= 23 * e;
    } else if d >= 2 && e >= 2 {
      assert d * e >= 2 * e;
    }
  }

  lemma SmallFactor(p: nat, d: nat, e: nat)
    requires 2 <= d <= 22 && e >= 2 && p == Times(d, e)
    ensures !Sieved(p)
  {
    hide Sieved, Multiple;
    var f := if d % 2 == 0 then 2 else if d % 3 == 0 then 3 else if d % 5 == 0 then 5 else d;
    var g := d / f;
    assert d == f * g;
    Associates(f, g, e);
    ByCase(f, g * e);
    MultipleOf(p, g * e);
  }

  lemma Associates(f: nat, g: nat, e: nat)
    ensures f * (g * e) == Times(f * g, e)
    ensures g >= 1 && e >= 2 ==> g * e >= 2
  {
  }

  lemma Commutes(d: nat, e: nat)
    ensures Times(d, e) == Times(e, d)
  {
  }

  lemma SieveIsExact(p: nat)
    requires p < 529
    ensures IsPrime(p) <==> Sieved(p)
  {
    if Sieved(p) {
      forall d: nat, e: nat | d >= 2 && e >= 2
        ensures Times(d, e) != p
      {
        if Times(d, e) == p {
          Commutes(d, e);
          if d <= 22 {
            SmallFactor(p, d, e);
          } else if e <= 22 {
            SmallFactor(p, e, d);
          } else {
            ProductIsLarge(d, e);
          }
        }
      }
    } else if p >= 2 {
      assert p == Times(2, p / 2) || p == Times(3, p / 3) || p == Times(5, p / 5) || p == Times(7, p / 7)
        || p == Times(11, p / 11) || p == Times(13, p / 13) || p == Times(17, p / 17) || p == Times(19, p / 19);
    }
  }

  predicate NoneSieved(lo: nat, hi: nat)
    decreases hi - lo
  {
    lo >= hi || (!Sieved(lo) && NoneSieved(lo + 1, hi))
  }

  /** `q` comes next after `p`. */
  predicate Gap(p: nat, q: nat) {
    p < q < 529 && Sieved(q) && NoneSieved(p + 1, q)
  }

  lemma {:induction false} NoneBetween(lo: nat, hi: nat)
    requires lo <= hi < 529 && NoneSieved(lo, hi)
    ensures PrimesBelow(hi) == PrimesBelow(lo)
    decreases hi - lo
  {
    hide Sieved, IsPrime;
    if lo < hi {
      SieveIsExact(lo);
      NoneBetween(lo + 1, hi);
    }
  }

  lemma Gaps0()
    ensures Gap(2, 3) && Gap(3, 5) && Gap(5, 7) && Gap(7, 11)
    ensures Gap(11, 13) && Gap(13, 17) && Gap(17, 19) && Gap(19, 23)
  {
  }

  lemma Gaps1()
    ensures Gap(23, 29) && Gap(29, 31) && Gap(31, 37) && Gap(37, 41)
    ensures Gap(41, 43) && Gap(43, 47) && Gap(47, 53) && Gap(53, 59)
  {
  }

  lemma Gaps2()
    ensures Gap(59, 61) && Gap(61, 67) && Gap(67, 71) && Gap(71, 73)
    ensures Gap(73, 79) && Gap(79, 83) && Gap(83, 89) && Gap(89, 97)
  {
  }

  lemma Gaps3()
    ensures Gap(97, 101) && Gap(101, 103) && Gap(103, 107) && Gap(107, 109)
    ensures Gap(109, 113) && Gap(113, 127) && Gap(127, 131) && Gap(131, 137)
  {
  }

  lemma Gaps4()
    ensures Gap(137, 139) && Gap(139, 149) && Gap(149, 151) && Gap(151, 157)
    ensures Gap(157, 163) && Gap(163, 167) && Gap(167, 173) && Gap(173, 179)
  {
  }

  lemma Gaps5()
    ensures Gap(179, 181) && Gap(181, 191) && Gap(191, 193) && Gap(193, 197)
    ensures Gap(197, 199) && Gap(199, 211) && Gap(211, 223) && Gap(223, 227)
  {
  }

  lemma Gaps6()
    ensures Gap(227, 229) && Gap(229, 233) && Gap(233, 239) && Gap(239, 241)
    ensures Gap(241, 251) && Gap(251, 257) && Gap(257, 263) && Gap(263, 269)
  {
  }

  lemma Gaps7()
    ensures Gap(269, 271) && Gap(271, 277) && Gap(277, 281) && Gap(281, 283)
    ensures Gap(283, 293) && Gap(293, 307) && Gap(307, 311) && Gap(311, 313)
  {
  }

  lemma Gaps8()
    ensures Gap(313, 317) && Gap(317, 331) && Gap(331, 337) && Gap(337, 347)
    ensures Gap(347, 349) && Gap(349, 353) && Gap(353, 359) && Gap(359, 367)
  {
  }

  lemma Gaps9()
    ensures Gap(367, 373) && Gap(373, 379) && Gap(379, 383) && Gap(383, 389)
    ensures Gap(389, 397) && Gap(397, 401) && Gap(401, 409)
  {
  }

  lemma LowGap(t: nat)
    requires t < 24
    ensures Gap(PrimeAt(t), PrimeAt(t + 1))
  {
    hide Gap;
    match t / 8 {
      case 0 => Gaps0();
      case 1 => Gaps1();
      case _ => Gaps2();
    }
  }

  lemma MiddleGap(t: nat)
    requires 24 <= t < 56
    ensures Gap(PrimeAt(t), PrimeAt(t + 1))
  {
    hide Gap;
    match t / 8 {
      case 3 => Gaps3();
      case 4 => Gaps4();
      case 5 => Gaps5();
      case _ => Gaps6();
    }
  }

  lemma HighGap(t: nat)
    requires 56 <= t < 79
    ensures Gap(PrimeAt(t), PrimeAt(t + 1))
  {
    hide Gap;
    match t / 8 {
      case 7 => Gaps7();
      case 8 => Gaps8();
      case _ => Gaps9();
    }
  }

  lemma GapAt(t: nat)
    requires t < 79
    ensures Gap(PrimeAt(t), PrimeAt(t + 1))
  {
    hide Gap, PrimeAt;
    if t < 24 {
      LowGap(t);
    } else if t < 56 {
      MiddleGap(t);
    } else {
      HighGap(t);
    }
  }

  /** The table holds the first eighty primes and nothing else. */
  lemma {:induction false} PrimesInOrder(t: nat)
    requires t < 80
    ensures IsPrime(PrimeAt(t)) && PrimesBelow(PrimeAt(t)) == t && PrimeAt(t) < 529
  {
    hide Sieved, IsPrime, PrimeAt;
    if t == 0 {
      TwoIsFirst();
    } else {
      PrimesInOrder(t - 1);
      GapAt(t - 1);
      SieveIsExact(PrimeAt(t));
      NoneBetween(PrimeAt(t - 1) + 1, PrimeAt(t));
    }
  }

  lemma TwoIsFirst()
    ensures PrimeAt(0) == 2 && IsPrime(2) && PrimesBelow(2) == 0
  {
    SieveIsExact(0);
    SieveIsExact(1);
    SieveIsExact(2);
  }

  // ----- the constants -----

  lemma Roots0()
    ensures CubeRoot(2, 1, KAt(0)) && CubeRoot(3, 1, KAt(1)) && CubeRoot(5, 1, KAt(2)) && CubeRoot(7, 1, KAt(3))
    ensures CubeRoot(11, 2, KAt(4)) && CubeRoot(13, 2, KAt(5)) && CubeRoot(17, 2, KAt(6)) && CubeRoot(19, 2, KAt(7))
  {
  }

  lemma Roots1()
    ensures CubeRoot(23, 2, KAt(8)) && CubeRoot(29, 3, KAt(9)) && CubeRoot(31, 3, KAt(10)) && CubeRoot(37, 3, KAt(11))
    ensures CubeRoot(41, 3, KAt(12)) && CubeRoot(43, 3, KAt(13)) && CubeRoot(47, 3, KAt(14)) && CubeRoot(53, 3, KAt(15))
  {
  }

  lemma Roots2()
    ensures CubeRoot(59, 3, KAt(16)) && CubeRoot(61, 3, KAt(17)) && CubeRoot(67, 4, KAt(18)) && CubeRoot(71, 4, KAt(19))
    ensures CubeRoot(73, 4, KAt(20)) && CubeRoot(79, 4, KAt(21)) && CubeRoot(83, 4, KAt(22)) && CubeRoot(89, 4, KAt(23))
  {
  }

  lemma Roots3()
    ensures CubeRoot(97, 4, KAt(24)) && CubeRoot(101, 4, KAt(25)) && CubeRoot(103, 4, KAt(26)) && CubeRoot(107, 4, KAt(27))
    ensures CubeRoot(109, 4, KAt(28)) && CubeRoot(113, 4, KAt(29)) && CubeRoot(127, 5, KAt(30)) && CubeRoot(131, 5, KAt(31))
  {
  }

  lemma Roots4()
    ensures CubeRoot(137, 5, KAt(32)) && CubeRoot(139, 5, KAt(33)) && CubeRoot(149, 5, KAt(34)) && CubeRoot(151, 5, KAt(35))
    ensures CubeRoot(157, 5, KAt(36)) && CubeRoot(163, 5, KAt(37)) && CubeRoot(167, 5, KAt(38)) && CubeRoot(173, 5, KAt(39))
  {
  }

  lemma Roots5()
    ensures CubeRoot(179, 5, KAt(40)) && CubeRoot(181, 5, KAt(41)) && CubeRoot(191, 5, KAt(42)) && CubeRoot(193, 5, KAt(43))
    ensures CubeRoot(197, 5, KAt(44)) && CubeRoot(199, 5, KAt(45)) && CubeRoot(211, 5, KAt(46)) && CubeRoot(223, 6, KAt(47))
  {
  }

  lemma Roots6()
    ensures CubeRoot(227, 6, KAt(48)) && CubeRoot(229, 6, KAt(49)) && CubeRoot(233, 6, KAt(50)) && CubeRoot(239, 6, KAt(51))
    ensures CubeRoot(241, 6, KAt(52)) && CubeRoot(251, 6, KAt(53)) && CubeRoot(257, 6, KAt(54)) && CubeRoot(263, 6, KAt(55))
  {
  }

  lemma Roots7()
    ensures CubeRoot(269, 6, KAt(56)) && CubeRoot(271, 6, KAt(57)) && CubeRoot(277, 6, KAt(58)) && CubeRoot(281, 6, KAt(59))
    ensures CubeRoot(283, 6, KAt(60)) && CubeRoot(293, 6, KAt(61)) && CubeRoot(307, 6, KAt(62)) && CubeRoot(311, 6, KAt(63))
  {
  }

  lemma Roots8()
    ensures CubeRoot(313, 6, KAt(64)) && CubeRoot(317, 6, KAt(65)) && CubeRoot(331, 6, KAt(66)) && CubeRoot(337, 6, KAt(67))
    ensures CubeRoot(347, 7, KAt(68)) && CubeRoot(349, 7, KAt(69)) && CubeRoot(353, 7, KAt(70)) && CubeRoot(359, 7, KAt(71))
  {
  }

  lemma Roots9()
    ensures CubeRoot(367, 7, KAt(72)) && CubeRoot(373, 7, KAt(73)) && CubeRoot(379, 7, KAt(74)) && CubeRoot(383, 7, KAt(75))
    ensures CubeRoot(389, 7, KAt(76)) && CubeRoot(397, 7, KAt(77)) && CubeRoot(401, 7, KAt(78)) && CubeRoot(409, 7, KAt(79))
  {
  }

  function CubeFloor(p: nat): nat {
    if p < 8 then 1 else if p < 27 then 2 else if p < 64 then 3 else if p < 125 then 4 else if p < 216 then 5 else if p < 343 then 6 else 7
  }

  lemma RootsOfRows0(t: nat)
    requires 0 <= t < 16
    ensures CubeRoot(PrimeAt(t), CubeFloor(PrimeAt(t)), KAt(t))
  {
    hide CubeRoot, KAt;
    if t < 8 {
      Roots0();
    } else {
      Roots1();
    }
  }

  lemma RootsOfRows1(t: nat)
    requires 16 <= t < 32
    ensures CubeRoot(PrimeAt(t), CubeFloor(PrimeAt(t)), KAt(t))
  {
    hide CubeRoot, KAt;
    if t < 24 {
      Roots2();
    } else {
      Roots3();
    }
  }

  lemma RootsOfRows2(t: nat)
    requires 32 <= t < 48
    ensures CubeRoot(PrimeAt(t), CubeFloor(PrimeAt(t)), KAt(t))
  {
    hide CubeRoot, KAt;
    if t < 40 {
      Roots4();
    } else {
      Roots5();
    }
  }

  lemma RootsOfRows3(t: nat)
    requires 48 <= t < 64
    ensures CubeRoot(PrimeAt(t), CubeFloor(PrimeAt(t)), KAt(t))
  {
    hide CubeRoot, KAt;
    if t < 56 {
      Roots6();
    } else {
      Roots7();
    }
  }

  lemma RootsOfRows4(t: nat)
    requires 64 <= t < 80
    ensures CubeRoot(PrimeAt(t), CubeFloor(PrimeAt(t)), KAt(t))
  {
    hide CubeRoot, KAt;
    if t < 72 {
      Roots8();
    } else {
      Roots9();
    }
  }

  /** Section 4.2.3: the round constants are the first 64 bits of the fractions of the cube roots
      of the first eighty primes. */
  lemma RoundConstants(t: nat) returns (p: nat, c: nat)
    requires t < 80
    ensures IsPrime(p) && PrimesBelow(p) == t && CubeRoot(p, c, KAt(t))
  {
    hide CubeRoot, KAt, IsPrime, PrimeAt;
    PrimesInOrder(t);
    p := PrimeAt(t);
    c := CubeFloor(p);
    match t / 16 {
      case 0 => RootsOfRows0(t);
      case 1 => RootsOfRows1(t);
      case 2 => RootsOfRows2(t);
      case 3 => RootsOfRows3(t);
      case _ => RootsOfRows4(t);
    }
  }

  function InitialWord(i: nat): word {
    if i == 0 then H0.a else if i == 1 then H0.b else if i == 2 then H0.c else if i == 3 then H0.d
    else if i == 4 then H0.e else if i == 5 then H0.f else if i == 6 then H0.g else H0.h
  }

  /** Section 5.3.5: the initial hash value is the first 64 bits of the fractions of the square
      roots of the first eight primes. */
  lemma InitialValue(i: nat) returns (p: nat, c: nat)
    requires i < 8
    ensures IsPrime(p) && PrimesBelow(p) == i && SquareRoot(p, c, InitialWord(i))
  {
    hide SquareRoot, IsPrime;
    PrimesInOrder(i);
    p := PrimeAt(i);
    c := if p < 4 then 1 else if p < 9 then 2 else if p < 16 then 3 else 4;
    InitialRoots();
  }

  lemma InitialRoots()
    ensures SquareRoot(2, 1, H0.a) && SquareRoot(3, 1, H0.b) && SquareRoot(5, 2, H0.c) && SquareRoot(7, 2, H0.d)
    ensures SquareRoot(11, 3, H0.e) && SquareRoot(13, 3, H0.f) && SquareRoot(17, 4, H0.g) && SquareRoot(19, 4, H0.h)
  {
  }
}

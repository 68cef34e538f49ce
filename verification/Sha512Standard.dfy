/** SHA-512 as FIPS 180-4 defines it. */
module Sha512Standard {
  import opened Bytes
  import opened Crc32

  type word = bv64
  type u64 = n: int | 0 <= n < 0x1_0000_0000_0000_0000

  const TWO64 := 0x1_0000_0000_0000_0000

  // ----- bytes and words, big endian -----

  function Lift(b: byte): word {
    Bits(b) as bv64
  }

  function Or(x: word, y: word): word {
    x | y
  }

  /** `x << (8 * (7 - k))` */
  function InByte(x: word, k: nat): word
    requires k < 8
  {
    if k == 0 then x << 56 else if k == 1 then x << 48 else if k == 2 then x << 40 else if k == 3 then x << 32
    else if k == 4 then x << 24 else if k == 5 then x << 16 else if k == 6 then x << 8 else x
  }

  /** The first `n` bytes put in their places, the rest zero. */
  function Fill(s: seq<byte>, n: nat): word
    requires n <= |s| <= 8
    decreases n, s
  {
    if n == 0 then 0 else Or(Fill(s, n - 1), InByte(Lift(s[n - 1]), n - 1))
  }

  function Load64Be(s: seq<byte>): word
    requires |s| == 8
  {
    Fill(s, 8)
  }

  function Low8(x: word): byte {
    ((x & 0xFF) as bv8) as byte
  }

  function Store64Be(x: word): (s: seq<byte>)
    ensures |s| == 8
  {
    [Low8(x >> 56), Low8(x >> 48), Low8(x >> 40), Low8(x >> 32), Low8(x >> 24), Low8(x >> 16), Low8(x >> 8), Low8(x)]
  }

  /** The `k` low bytes of a number, most significant first. */
  function ToBe(n: nat, k: nat): (s: seq<byte>)
    ensures |s| == k
  {
    if k == 0 then [] else ToBe(n / 0x100, k - 1) + [n % 0x100]
  }

  function ToBe64(n: u64): (s: seq<byte>)
    ensures |s| == 8
  {
    ToBe(n, 8)
  }

  /** A 64-bit integer as a word. */
  function WordOf(n: u64): word {
    Load64Be(ToBe64(n))
  }

  // ----- section 4.1.3: functions on words -----

  function Rot1(x: word): word { (x >> 1) | (x << 63) }
  function Rot8(x: word): word { (x >> 8) | (x << 56) }
  function Rot14(x: word): word { (x >> 14) | (x << 50) }
  function Rot18(x: word): word { (x >> 18) | (x << 46) }
  function Rot19(x: word): word { (x >> 19) | (x << 45) }
  function Rot28(x: word): word { (x >> 28) | (x << 36) }
  function Rot34(x: word): word { (x >> 34) | (x << 30) }
  function Rot39(x: word): word { (x >> 39) | (x << 25) }
  function Rot41(x: word): word { (x >> 41) | (x << 23) }
  function Rot61(x: word): word { (x >> 61) | (x << 3) }

  function Ch(x: word, y: word, z: word): word { (x & y) ^ (!x & z) }
  function Maj(x: word, y: word, z: word): word { (x & y) ^ (x & z) ^ (y & z) }
  function BigSigma0(x: word): word { Rot28(x) ^ Rot34(x) ^ Rot39(x) }
  function BigSigma1(x: word): word { Rot14(x) ^ Rot18(x) ^ Rot41(x) }
  function LitSigma0(x: word): word { Rot1(x) ^ Rot8(x) ^ (x >> 7) }
  function LitSigma1(x: word): word { Rot19(x) ^ Rot61(x) ^ (x >> 6) }

  /** Addition modulo 2^64. Sums are written in the order in which the source adds. */
  function Plus(x: word, y: word): word {
    x + y
  }

  /** Section 4.2.3, eight words at a time. */
  function KRow(i: nat): (row: seq<word>)
    ensures |row| == 8
  {
    if i == 0 then [
      0x428a2f98d728ae22, 0x7137449123ef65cd, 0xb5c0fbcfec4d3b2f, 0xe9b5dba58189dbbc,
      0x3956c25bf348b538, 0x59f111f1b605d019, 0x923f82a4af194f9b, 0xab1c5ed5da6d8118]
    else if i == 1 then [
      0xd807aa98a3030242, 0x12835b0145706fbe, 0x243185be4ee4b28c, 0x550c7dc3d5ffb4e2,
      0x72be5d74f27b896f, 0x80deb1fe3b1696b1, 0x9bdc06a725c71235, 0xc19bf174cf692694]
    else if i == 2 then [
      0xe49b69c19ef14ad2, 0xefbe4786384f25e3, 0x0fc19dc68b8cd5b5, 0x240ca1cc77ac9c65,
      0x2de92c6f592b0275, 0x4a7484aa6ea6e483, 0x5cb0a9dcbd41fbd4, 0x76f988da831153b5]
    else if i == 3 then [
      0x983e5152ee66dfab, 0xa831c66d2db43210, 0xb00327c898fb213f, 0xbf597fc7beef0ee4,
      0xc6e00bf33da88fc2, 0xd5a79147930aa725, 0x06ca6351e003826f, 0x142929670a0e6e70]
    else if i == 4 then [
      0x27b70a8546d22ffc, 0x2e1b21385c26c926, 0x4d2c6dfc5ac42aed, 0x53380d139d95b3df,
      0x650a73548baf63de, 0x766a0abb3c77b2a8, 0x81c2c92e47edaee6, 0x92722c851482353b]
    else if i == 5 then [
      0xa2bfe8a14cf10364, 0xa81a664bbc423001, 0xc24b8b70d0f89791, 0xc76c51a30654be30,
      0xd192e819d6ef5218, 0xd69906245565a910, 0xf40e35855771202a, 0x106aa07032bbd1b8]
    else if i == 6 then [
      0x19a4c116b8d2d0c8, 0x1e376c085141ab53, 0x2748774cdf8eeb99, 0x34b0bcb5e19b48a8,
      0x391c0cb3c5c95a63, 0x4ed8aa4ae3418acb, 0x5b9cca4f7763e373, 0x682e6ff3d6b2b8a3]
    else if i == 7 then [
      0x748f82ee5defb2fc, 0x78a5636f43172f60, 0x84c87814a1f0ab72, 0x8cc702081a6439ec,
      0x90befffa23631e28, 0xa4506cebde82bde9, 0xbef9a3f7b2c67915, 0xc67178f2e372532b]
    else if i == 8 then [
      0xca273eceea26619c, 0xd186b8c721c0c207, 0xeada7dd6cde0eb1e, 0xf57d4f7fee6ed178,
      0x06f067aa72176fba, 0x0a637dc5a2c898a6, 0x113f9804bef90dae, 0x1b710b35131c471b]
    else [
      0x28db77f523047d84, 0x32caab7b40c72493, 0x3c9ebe0a15c9bebc, 0x431d67c49c100d4c,
      0x4cc5d4becb3e42b6, 0x597f299cfc657e2a, 0x5fcb6fab3ad6faec, 0x6c44198c4a475817]
  }

  function KAt(t: nat): word {
    KRow(t / 8)[t % 8]
  }

  // ----- section 6.4.2: hash computation -----

  datatype Regs = Regs(a: word, b: word, c: word, d: word, e: word, f: word, g: word, h: word)

  const H0 := Regs(
    0x6a09e667f3bcc908, 0xbb67ae8584caa73b, 0x3c6ef372fe94f82b, 0xa54ff53a5f1d36f1,
    0x510e527fade682d1, 0x9b05688c2b3e6c1f, 0x1f83d9abfb41bd6b, 0x5be0cd19137e2179)

  /** Step 1: the 80 words of the message schedule. */
  function Schedule(block: seq<word>, t: nat): word
    requires |block| == 16
    decreases t, block
  {
    if t < 16 then block[t]
    else Plus(Plus(Plus(Schedule(block, t - 16), LitSigma1(Schedule(block, t - 2))), LitSigma0(Schedule(block, t - 15))), Schedule(block, t - 7))
  }

  /** Step 3, for one `t`. */
  function Round(r: Regs, k: word, w: word): Regs {
    var t1 := Plus(Plus(Plus(BigSigma1(r.e), Ch(r.e, r.f, r.g)), r.h), Plus(k, w));
    var t2 := Plus(BigSigma0(r.a), Maj(r.a, r.b, r.c));
    Regs(Plus(t1, t2), r.a, r.b, r.c, Plus(r.d, t1), r.e, r.f, r.g)
  }

  function Rounds(r: Regs, block: seq<word>, t: nat): Regs
    requires |block| == 16
    decreases t, block
  {
    if t == 0 then r else Round(Rounds(r, block, t - 1), KAt(t - 1), Schedule(block, t - 1))
  }

  function AddRegs(r: Regs, s: Regs): Regs {
    Regs(Plus(r.a, s.a), Plus(r.b, s.b), Plus(r.c, s.c), Plus(r.d, s.d), Plus(r.e, s.e), Plus(r.f, s.f), Plus(r.g, s.g), Plus(r.h, s.h))
  }

  /** Steps 1 to 4 for one block. */
  function Compress(h: Regs, block: seq<word>): Regs
    requires |block| == 16
  {
    AddRegs(h, Rounds(h, block, 80))
  }

  function BlockWords(b: seq<byte>): (w: seq<word>)
    requires |b| == 128
    ensures |w| == 16
  {
    seq(16, i requires 0 <= i < 16 => Load64Be(b[8 * i..8 * i + 8]))
  }

  function HashBlocks(m: seq<byte>): Regs
    requires |m| % 128 == 0
  {
    if m == [] then H0 else Compress(HashBlocks(m[..|m| - 128]), BlockWords(m[|m| - 128..]))
  }

  // ----- section 5.1.2: padding -----

  function Zeros(n: nat): (s: seq<byte>)
    ensures |s| == n && forall i :: 0 <= i < n ==> s[i] == 0
  {
    seq(n, i => 0)
  }

  /** The length of the message in bits, as a 128-bit number. */
  function LengthField(m: seq<byte>): (s: seq<byte>)
    ensures |s| == 16
  {
    var bits := 8 * |m|;
    ToBe64(bits / TWO64 % TWO64) + ToBe64(bits % TWO64)
  }

  /** The least number of zero bytes that leaves room for exactly the length field. */
  function ZeroCount(n: nat): (z: nat)
    ensures z < 128 && (n + 1 + z + 16) % 128 == 0
  {
    (111 - n) % 128
  }

  function Pad(m: seq<byte>): (p: seq<byte>)
    ensures |p| % 128 == 0
  {
    m + [0x80] + Zeros(ZeroCount(|m|)) + LengthField(m)
  }

  function Concat(r: Regs): (s: seq<byte>)
    ensures |s| == 64
  {
    Store64Be(r.a) + Store64Be(r.b) + Store64Be(r.c) + Store64Be(r.d) + Store64Be(r.e) + Store64Be(r.f) + Store64Be(r.g) + Store64Be(r.h)
  }

  function Digest(m: seq<byte>): (s: seq<byte>)
    ensures |s| == 64
  {
    Concat(HashBlocks(Pad(m)))
  }
}

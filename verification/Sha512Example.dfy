/** Steps of the worked example that accompanies FIPS 180-4 for SHA-512, the message "abc": its padded
    block, its first rounds, the first new words of its schedule, its last addition and its digest's
    bytes. Together they fix byte order, padding, rotations and the order of the registers. */
module Sha512Example {
  import opened Bytes
  import opened Sha512Standard
  import Sha512

  const ABC: seq<byte> := [0x61, 0x62, 0x63]

  const BLOCK: seq<word> := [0x6162638000000000, 0, 0, 0, 0, 0, 0, 0, 0, 0, 0, 0, 0, 0, 0, 24]

  // ----- bytes to words -----

  lemma Padded()
    ensures var p := Pad(ABC);
      && |p| == 128 && p[..8] == [0x61, 0x62, 0x63, 0x80, 0, 0, 0, 0] && (forall i :: 8 <= i < 127 ==> p[i] == 0) && p[127] == 24
  {
    hide Zeros;
    assert ToBe64(0) == [0, 0, 0, 0, 0, 0, 0, 0] && ToBe64(24) == [0, 0, 0, 0, 0, 0, 0, 24];
  }

  lemma ByteValues()
    ensures Lift(0) == 0 && Lift(24) == 24 && Lift(0x61) == 0x61 && Lift(0x62) == 0x62 && Lift(0x63) == 0x63 && Lift(0x80) == 0x80
  {
    hide Lift;
    Byte0();
    Byte24();
    Byte61();
    Byte62();
    Byte63();
    Byte80();
  }

  lemma Byte0()
    ensures Lift(0) == 0
  {
    assert !Bit(0, 0) && !Bit(0, 1) && !Bit(0, 2) && !Bit(0, 3) && !Bit(0, 4) && !Bit(0, 5) && !Bit(0, 6) && !Bit(0, 7);
  }

  lemma Byte24()
    ensures Lift(24) == 24
  {
    assert !Bit(24, 0) && !Bit(24, 1) && !Bit(24, 2) && Bit(24, 3) && Bit(24, 4) && !Bit(24, 5) && !Bit(24, 6) && !Bit(24, 7);
  }

  lemma Byte61()
    ensures Lift(0x61) == 0x61
  {
    assert Bit(0x61, 0) && !Bit(0x61, 1) && !Bit(0x61, 2) && !Bit(0x61, 3) && !Bit(0x61, 4) && Bit(0x61, 5) && Bit(0x61, 6) && !Bit(0x61, 7);
  }

  lemma Byte62()
    ensures Lift(0x62) == 0x62
  {
    assert !Bit(0x62, 0) && Bit(0x62, 1) && !Bit(0x62, 2) && !Bit(0x62, 3) && !Bit(0x62, 4) && Bit(0x62, 5) && Bit(0x62, 6) && !Bit(0x62, 7);
  }

  lemma Byte63()
    ensures Lift(0x63) == 0x63
  {
    assert Bit(0x63, 0) && Bit(0x63, 1) && !Bit(0x63, 2) && !Bit(0x63, 3) && !Bit(0x63, 4) && Bit(0x63, 5) && Bit(0x63, 6) && !Bit(0x63, 7);
  }

  lemma Byte80()
    ensures Lift(0x80) == 0x80
  {
    assert !Bit(0x80, 0) && !Bit(0x80, 1) && !Bit(0x80, 2) && !Bit(0x80, 3) && !Bit(0x80, 4) && !Bit(0x80, 5) && !Bit(0x80, 6) && Bit(0x80, 7);
  }

  lemma FirstWord()
    ensures Load64Be([0x61, 0x62, 0x63, 0x80, 0, 0, 0, 0]) == 0x6162638000000000
  {
    hide Lift;
    ByteValues();
  }

  lemma LastWord()
    ensures Load64Be([0, 0, 0, 0, 0, 0, 0, 24]) == 24
  {
    hide Lift;
    ByteValues();
  }

  lemma ZeroWord(s: seq<byte>)
    requires |s| == 8 && forall i :: 0 <= i < 8 ==> s[i] == 0
    ensures Load64Be(s) == 0
  {
    Sha512.ZerosFillNothing(s, 0, 8);
  }

  /** The example's one block, from its bytes. */
  lemma PaddedBlock()
    ensures |Pad(ABC)| == 128 && BlockWords(Pad(ABC)) == BLOCK
  {
    hide Load64Be, Pad;
    Padded();
    var p := Pad(ABC);
    FirstWord();
    LastWord();
    assert p[120..128] == [0, 0, 0, 0, 0, 0, 0, 24];
    assert p[0..8] == p[..8];
    forall i | 1 <= i < 15
      ensures Load64Be(p[8 * i..8 * i + 8]) == 0
    {
      ZeroWord(p[8 * i..8 * i + 8]);
    }
  }

  // ----- schedule and rounds -----

  lemma FirstWords(t: nat)
    requires t < 16
    ensures Schedule(BLOCK, t) == BLOCK[t]
  {
    hide Plus, LitSigma0, LitSigma1;
  }

  /** The first two words that the schedule adds. */
  lemma NewWords()
    ensures Schedule(BLOCK, 16) == 0x6162638000000000 && Schedule(BLOCK, 17) == 0x00030000000000c0
  {
    hide Schedule, Plus, LitSigma0, LitSigma1;
    Sha512.ScheduleLaw(BLOCK, 16);
    Sha512.ScheduleLaw(BLOCK, 17);
    FirstWords(0);
    FirstWords(1);
    FirstWords(2);
    FirstWords(9);
    FirstWords(10);
    FirstWords(14);
    FirstWords(15);
    SumsOfNewWords();
  }

  lemma SumsOfNewWords()
    ensures Plus(Plus(Plus(0x6162638000000000, LitSigma1(0)), LitSigma0(0)), 0) == 0x6162638000000000
    ensures Plus(Plus(Plus(0, LitSigma1(24)), LitSigma0(0)), 0) == 0x00030000000000c0
  {
  }

  /** The law on words that are all there, at step 40. */
  lemma LaterWord()
    ensures Plus(Plus(Plus(0x7760dd475a538797, LitSigma1(0x3ec2257adca09a52)), LitSigma0(0xf1554b711c1c0003)),
              0xad289e2e0bd53186) == 0x04e33a75ce2be88a
  {
  }

  /** The first two rounds. */
  lemma FirstRounds()
    ensures Rounds(H0, BLOCK, 1) ==
      Regs(0xf6afceb8bcfcddf5, 0x6a09e667f3bcc908, 0xbb67ae8584caa73b, 0x3c6ef372fe94f82b,
           0x58cb02347ab51f91, 0x510e527fade682d1, 0x9b05688c2b3e6c1f, 0x1f83d9abfb41bd6b)
    ensures Rounds(H0, BLOCK, 2) ==
      Regs(0x1320f8c9fb872cc0, 0xf6afceb8bcfcddf5, 0x6a09e667f3bcc908, 0xbb67ae8584caa73b,
           0xc3d4ebfd48650ffa, 0x58cb02347ab51f91, 0x510e527fade682d1, 0x9b05688c2b3e6c1f)
  {
    hide Round, Schedule;
    FirstWords(0);
    FirstWords(1);
    RoundsNext();
    RoundValues();
  }

  lemma RoundsNext()
    ensures Rounds(H0, BLOCK, 1) == Round(H0, KAt(0), Schedule(BLOCK, 0))
    ensures Rounds(H0, BLOCK, 2) == Round(Rounds(H0, BLOCK, 1), KAt(1), Schedule(BLOCK, 1))
    ensures KAt(0) == 0x428a2f98d728ae22 && KAt(1) == 0x7137449123ef65cd
  {
    hide Round, Schedule;
  }

  lemma RoundValues()
    ensures Round(H0, 0x428a2f98d728ae22, 0x6162638000000000) ==
      Regs(0xf6afceb8bcfcddf5, 0x6a09e667f3bcc908, 0xbb67ae8584caa73b, 0x3c6ef372fe94f82b,
           0x58cb02347ab51f91, 0x510e527fade682d1, 0x9b05688c2b3e6c1f, 0x1f83d9abfb41bd6b)
    ensures Round(
      Regs(0xf6afceb8bcfcddf5, 0x6a09e667f3bcc908, 0xbb67ae8584caa73b, 0x3c6ef372fe94f82b,
           0x58cb02347ab51f91, 0x510e527fade682d1, 0x9b05688c2b3e6c1f, 0x1f83d9abfb41bd6b), 0x7137449123ef65cd, 0) ==
      Regs(0x1320f8c9fb872cc0, 0xf6afceb8bcfcddf5, 0x6a09e667f3bcc908, 0xbb67ae8584caa73b,
           0xc3d4ebfd48650ffa, 0x58cb02347ab51f91, 0x510e527fade682d1, 0x9b05688c2b3e6c1f)
  {
  }

  /** The last round. */
  lemma LastRound()
    ensures Round(
      Regs(0x10d9c4c4295599f6, 0xd67806db8b148677, 0x654ef9abec389ca9, 0xc8960e6be864b916,
           0x9bb4d39778c07f9e, 0x25c96a7768fb2aa3, 0xceb9fc3691ce8326, 0x995019a6ff3ba3de),
      0x6c44198c4a475817, 0x92aeeed1a7bcf7d2) ==
      Regs(0x73a54f399fa4b1b2, 0x10d9c4c4295599f6, 0xd67806db8b148677, 0x654ef9abec389ca9,
           0xd08446aa79693ed7, 0x9bb4d39778c07f9e, 0x25c96a7768fb2aa3, 0xceb9fc3691ce8326)
  {
  }

  /** What is added to the initial value in the end. */
  lemma LastAddition()
    ensures AddRegs(H0, Regs(0x73a54f399fa4b1b2, 0x10d9c4c4295599f6, 0xd67806db8b148677, 0x654ef9abec389ca9,
                 0xd08446aa79693ed7, 0x9bb4d39778c07f9e, 0x25c96a7768fb2aa3, 0xceb9fc3691ce8326)) ==
      Regs(0xddaf35a193617aba, 0xcc417349ae204131, 0x12e6fa4e89a97ea2, 0x0a9eeee64b55d39a,
           0x2192992a274fc1a8, 0x36ba3c23a3feebbd, 0x454d4423643ce80e, 0x2a9ac94fa54ca49f)
  {
  }

  // ----- words to bytes -----

  lemma DigestBytes()
    ensures Concat(Regs(0xddaf35a193617aba, 0xcc417349ae204131, 0x12e6fa4e89a97ea2, 0x0a9eeee64b55d39a,
           0x2192992a274fc1a8, 0x36ba3c23a3feebbd, 0x454d4423643ce80e, 0x2a9ac94fa54ca49f))[..16] ==
      [0xdd, 0xaf, 0x35, 0xa1, 0x93, 0x61, 0x7a, 0xba, 0xcc, 0x41, 0x73, 0x49, 0xae, 0x20, 0x41, 0x31]
  {
    hide Store64Be;
    FirstBytes();
    NextBytes();
  }

  lemma FirstBytes()
    ensures Store64Be(0xddaf35a193617aba) == [0xdd, 0xaf, 0x35, 0xa1, 0x93, 0x61, 0x7a, 0xba]
  {
  }

  lemma NextBytes()
    ensures Store64Be(0xcc417349ae204131) == [0xcc, 0x41, 0x73, 0x49, 0xae, 0x20, 0x41, 0x31]
  {
  }
}

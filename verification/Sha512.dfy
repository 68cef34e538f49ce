/** firmware/common/monocypher/monocypher-ed25519.c: streaming SHA-512, proved against the
    standard. */
module Sha512 {
  import opened Bytes
  import opened Sha512Standard

  // ----- the 16-word schedule kept in place -----

  /** In round `i`, before word `j`: the words below `j` are already this round's, the others
      still the previous round's. */
  ghost predicate Rolling(s: seq<word>, block: seq<word>, i: nat, j: nat) {
    && |s| == |block| == 16 && i >= 1 && j <= 16
    && forall x :: 0 <= x < 16 ==> s[x] == Schedule(block, if x < j then 16 * i + x else 16 * i + x - 16)
  }

  /** The sum that the source leaves in `input[j]`. */
  function NextWord(s: seq<word>, j: nat): word
    requires |s| == 16 && j < 16
  {
    Plus(Plus(Plus(s[j], LitSigma1(s[(j + 14) % 16])), LitSigma0(s[(j + 1) % 16])), s[(j + 9) % 16])
  }

  lemma ScheduleLaw(block: seq<word>, t: nat)
    requires |block| == 16 && t >= 16
    ensures Schedule(block, t) == Plus(Plus(Plus(Schedule(block, t - 16), LitSigma1(Schedule(block, t - 2))), LitSigma0(Schedule(block, t - 15))), Schedule(block, t - 7))
  {
    hide Plus, LitSigma0, LitSigma1;
  }

  /** One in-place update makes the next word of the standard's schedule. */
  lemma ScheduleStep(s: seq<word>, block: seq<word>, i: nat, j: nat)
    requires Rolling(s, block, i, j) && j < 16
    ensures NextWord(s, j) == Schedule(block, 16 * i + j)
    ensures Rolling(s[j := NextWord(s, j)], block, i, j + 1)
  {
    hide Plus, LitSigma0, LitSigma1, Schedule;
    ScheduleLaw(block, 16 * i + j);
    assert s[(j + 14) % 16] == Schedule(block, 16 * i + j - 2);
    assert s[(j + 1) % 16] == Schedule(block, 16 * i + j - 15);
    assert s[(j + 9) % 16] == Schedule(block, 16 * i + j - 7);
  }

  lemma RollingStarts(block: seq<word>)
    requires |block| == 16
    ensures Rolling(block, block, 1, 0)
  {
    hide Plus, LitSigma0, LitSigma1;
  }

  lemma RollingAgain(s: seq<word>, block: seq<word>, i: nat)
    requires Rolling(s, block, i, 16)
    ensures Rolling(s, block, i + 1, 0)
  {
    hide Schedule;
  }

  lemma RoundsStart(r: Regs, block: seq<word>)
    requires |block| == 16
    ensures Rounds(r, block, 0) == r
  {
  }

  lemma RoundsNext(r: Regs, block: seq<word>, t: nat)
    requires |block| == 16
    ensures Rounds(r, block, t + 1) == Round(Rounds(r, block, t), KAt(t), Schedule(block, t))
    ensures t < 16 ==> Schedule(block, t) == block[t]
  {
    hide Round, KAt, Plus, LitSigma0, LitSigma1;
  }

  // ----- packing bytes into words -----

  /** The word at index `w` of a block that starts with `tail` and is zero after it. */
  function WordAt(tail: seq<byte>, w: nat): word
    requires |tail| <= 128 && w < 16
  {
    Load64Be((tail + Zeros(128 - |tail|))[8 * w..8 * w + 8])
  }

  lemma ZeroByte(x: word, k: nat)
    requires k < 8
    ensures Or(x, InByte(0, k)) == x
  {
  }

  lemma LiftZero()
    ensures Lift(0) == 0
  {
    assert !Bit(0, 0) && !Bit(0, 1) && !Bit(0, 2) && !Bit(0, 3) && !Bit(0, 4) && !Bit(0, 5) && !Bit(0, 6) && !Bit(0, 7);
  }

  lemma {:induction false} FillSame(s: seq<byte>, s': seq<byte>, n: nat)
    requires n <= |s| == |s'| <= 8 && s[..n] == s'[..n]
    ensures Fill(s, n) == Fill(s', n)
  {
    if n > 0 {
      assert s[..n][..n - 1] == s[..n - 1] && s'[..n][..n - 1] == s'[..n - 1];
      assert s[n - 1] == s[..n][n - 1] == s'[n - 1];
      FillSame(s, s', n - 1);
    }
  }

  lemma {:induction false} ZerosFillNothing(s: seq<byte>, k: nat, n: nat)
    requires k <= n <= |s| <= 8 && forall i :: k <= i < n ==> s[i] == 0
    ensures Fill(s, n) == Fill(s, k)
  {
    hide Or, InByte, Lift;
    if k < n {
      ZerosFillNothing(s, k, n - 1);
      LiftZero();
      ZeroByte(Fill(s, n - 1), n - 1);
    }
  }

  /** Or-ing a byte into a word that is still zero from there on. */
  lemma WordGrows(s: seq<byte>, k: nat, b: byte)
    requires |s| == 8 && k < 8 && forall i :: k <= i < 8 ==> s[i] == 0
    ensures Or(Load64Be(s), InByte(Lift(b), k)) == Load64Be(s[k := b])
  {
    hide Or, InByte, Lift;
    var s' := s[k := b];
    ZerosFillNothing(s, k, 8);
    ZerosFillNothing(s', k + 1, 8);
    FillSame(s, s', k);
  }

  lemma ByteAppended(tail: seq<byte>, b: byte, w: nat)
    requires |tail| < 128 && w < 16
    ensures WordAt(tail + [b], w) ==
            if w == |tail| / 8 then Or(WordAt(tail, w), InByte(Lift(b), |tail| % 8)) else WordAt(tail, w)
  {
    hide Load64Be, Or, InByte, Lift;
    var before, after := tail + Zeros(128 - |tail|), tail + [b] + Zeros(127 - |tail|);
    assert after == before[|tail| := b];
    if w == |tail| / 8 {
      WordGrows(before[8 * w..8 * w + 8], |tail| % 8, b);
      assert before[8 * w..8 * w + 8][|tail| % 8 := b] == after[8 * w..8 * w + 8];
    } else {
      assert before[8 * w..8 * w + 8] == after[8 * w..8 * w + 8];
    }
  }

  lemma WordsAppended(tail: seq<byte>, bytes: seq<byte>, w: nat)
    requires |tail| + |bytes| <= 128 && |tail| % 8 == |bytes| % 8 == 0 && w < 16
    ensures WordAt(tail + bytes, w) ==
            if |tail| <= 8 * w < |tail| + |bytes| then Load64Be(bytes[8 * w - |tail|..8 * w - |tail| + 8]) else WordAt(tail, w)
  {
    hide Load64Be;
    var before, after := tail + Zeros(128 - |tail|), tail + bytes + Zeros(128 - |tail| - |bytes|);
    if |tail| <= 8 * w < |tail| + |bytes| {
      assert after[8 * w..8 * w + 8] == bytes[8 * w - |tail|..8 * w - |tail| + 8];
    } else {
      assert after[8 * w..8 * w + 8] == before[8 * w..8 * w + 8];
    }
  }

  lemma ModuloGrows(x: nat, y: nat)
    ensures (x % (TWO64 * TWO64) + y) % (TWO64 * TWO64) == (x + y) % (TWO64 * TWO64)
  {
    var m := TWO64 * TWO64;
    var q, r := x / m, x % m;
    var q', r' := (r + y) / m, (r + y) % m;
    assert x + y == m * (q + q') + r';
  }

  // ----- the context of the source -----

  /** The two halves of the 128-bit bit counter after `n` bytes. */
  ghost predicate CountsBits(hi: u64, lo: u64, n: nat) {
    hi * TWO64 + lo == 8 * n % (TWO64 * TWO64)
  }

  class Context {
    var hash: Regs
    const input: array<word>
    var sizeHi: u64
    var sizeLo: u64
    var idx: nat
    ghost var done: seq<byte>  // bytes already compressed
    ghost var tail: seq<byte>  // bytes waiting in `input`

    ghost function Message(): seq<byte>
      reads this
    {
      done + tail
    }

    /** What holds at every point of the streaming, also while a full block waits. */
    ghost predicate Consistent()
      reads this, input
    {
      && input.Length == 16
      && idx == |tail| <= 128 && |done| % 128 == 0
      && hash == HashBlocks(done)
      && (forall w :: 0 <= w < 16 ==> input[w] == WordAt(tail, w))
      && CountsBits(sizeHi, sizeLo, |done|)
    }

    ghost predicate Valid()
      reads this, input
    {
      Consistent() && idx < 128
    }

    constructor ()
      ensures Valid() && Message() == [] && fresh(input)
    {
      hide Load64Be;
      hash, sizeHi, sizeLo, idx, done, tail := H0, 0, 0, 0, [], [];
      input := new word[16](i requires 0 <= i < 16 => WordAt([], i));
      new;
    }

    /** The three in-place additions to one word of the schedule. */
    method ExpandWord(j: nat)
      requires input.Length == 16 && j < 16
      modifies input
      ensures input[..] == old(input[..])[j := NextWord(old(input[..]), j)]
    {
      hide Plus, LitSigma0, LitSigma1;
      input[j] := Plus(input[j], LitSigma1(input[(j + 14) % 16]));
      input[j] := Plus(input[j], LitSigma0(input[(j + 1) % 16]));
      input[j] := Plus(input[j], input[(j + 9) % 16]);
    }

    /** `sha512_compress`: the schedule overwrites `input` as the rounds consume it. */
    method CompressInput()
      requires input.Length == 16
      modifies this`hash, input
      ensures hash == Compress(old(hash), old(input[..]))
    {
      hide Plus, BigSigma0, BigSigma1, LitSigma0, LitSigma1, Ch, Maj, KAt, Rounds, Schedule, NextWord, Rolling;
      ghost var block := input[..];
      ghost var start := hash;
      var a, b, c, d := hash.a, hash.b, hash.c, hash.d;
      var e, f, g, h := hash.e, hash.f, hash.g, hash.h;
      RoundsStart(start, block);
      for j := 0 to 16
        invariant Regs(a, b, c, d, e, f, g, h) == Rounds(start, block, j)
        invariant input[..] == block && hash == start
      {
        RoundsNext(start, block, j);
        var in_ := Plus(KAt(j), input[j]);
        var t1 := Plus(Plus(Plus(BigSigma1(e), Ch(e, f, g)), h), in_);
        var t2 := Plus(BigSigma0(a), Maj(a, b, c));
        h := g; g := f; f := e; e := Plus(d, t1);
        d := c; c := b; b := a; a := Plus(t1, t2);
      }
      RollingStarts(block);
      for i := 1 to 5
        invariant Regs(a, b, c, d, e, f, g, h) == Rounds(start, block, 16 * i)
        invariant Rolling(input[..], block, i, 0) && hash == start
      {
        for j := 0 to 16
          invariant Regs(a, b, c, d, e, f, g, h) == Rounds(start, block, 16 * i + j)
          invariant Rolling(input[..], block, i, j) && hash == start
        {
          ghost var s := input[..];
          ScheduleStep(s, block, i, j);
          ExpandWord(j);
          RoundsNext(start, block, 16 * i + j);
          var in_ := Plus(KAt(16 * i + j), input[j]);
          var t1 := Plus(Plus(Plus(BigSigma1(e), Ch(e, f, g)), h), in_);
          var t2 := Plus(BigSigma0(a), Maj(a, b, c));
          h := g; g := f; f := e; e := Plus(d, t1);
          d := c; c := b; b := a; a := Plus(t1, t2);
        }
        RollingAgain(input[..], block, i);
      }
      hash := AddRegs(hash, Regs(a, b, c, d, e, f, g, h));
    }

    /** `sha512_incr` */
    method Increase(y: u64)
      modifies this`sizeHi, this`sizeLo
      ensures sizeHi * TWO64 + sizeLo == (old(sizeHi) * TWO64 + old(sizeLo) + y) % (TWO64 * TWO64)
    {
      sizeLo := (sizeLo + y) % TWO64;
      if sizeLo < y {
        sizeHi := (sizeHi + 1) % TWO64;
      }
    }

    method CountBytes(n: nat)
      requires CountsBits(sizeHi, sizeLo, |done|) && n <= 128
      modifies this`sizeHi, this`sizeLo
      ensures CountsBits(sizeHi, sizeLo, |done| + n)
    {
      ModuloGrows(8 * |done|, 8 * n);
      Increase(8 * n);
    }

    /** `sha512_set_input` and the increment that follows it. */
    method AddByte(b: byte)
      requires Consistent() && idx < 128
      modifies this`idx, this`tail, input
      ensures Consistent() && done == old(done) && tail == old(tail) + [b]
    {
      hide Or, InByte, Lift, WordAt, HashBlocks;
      forall w | 0 <= w < 16
        ensures WordAt(tail + [b], w) == if w == idx / 8 then Or(WordAt(tail, w), InByte(Lift(b), idx % 8)) else WordAt(tail, w)
      {
        ByteAppended(tail, b, w);
      }
      input[idx / 8] := Or(input[idx / 8], InByte(Lift(b), idx % 8));
      idx := idx + 1;
      tail := tail + [b];
    }

    method AddBytes(bytes: seq<byte>)
      requires Consistent() && idx + |bytes| <= 128
      modifies this`idx, this`tail, input
      ensures Consistent() && done == old(done) && tail == old(tail) + bytes
    {
      hide WordAt, HashBlocks;
      for i := 0 to |bytes|
        invariant Consistent() && done == old(done) && tail == old(tail) + bytes[..i]
      {
        AddByte(bytes[i]);
        assert bytes[..i + 1] == bytes[..i] + [bytes[i]];
      }
      assert bytes[..|bytes|] == bytes;
    }

    /** `load64_be_buf` into the words from `idx` on, and the step of `idx` that follows it. */
    method LoadWords(bytes: seq<byte>)
      requires Consistent() && |bytes| % 8 == 0 && idx + |bytes| <= 128
      requires |bytes| > 0 ==> idx % 8 == 0
      modifies this`idx, this`tail, input
      ensures Consistent() && done == old(done) && tail == old(tail) + bytes
    {
      hide WordAt, HashBlocks, Load64Be;
      var first, n := idx / 8, |bytes| / 8;
      for k := 0 to n
        modifies input
        invariant forall w :: 0 <= w < 16 ==>
          input[w] == if first <= w < first + k then Load64Be(bytes[8 * (w - first)..8 * (w - first) + 8]) else WordAt(tail, w)
      {
        input[first + k] := Load64Be(bytes[8 * k..8 * k + 8]);
      }
      forall w | 0 <= w < 16
        ensures WordAt(tail + bytes, w) == input[w]
      {
        if n > 0 {
          WordsAppended(tail, bytes, w);
        } else {
          assert tail + bytes == tail;
        }
      }
      idx := idx + |bytes|;
      tail := tail + bytes;
    }

    /** Counts the full block, compresses it and clears the buffer. */
    method CompressBlock()
      requires Consistent() && idx == 128
      modifies this, input
      ensures Valid() && done == old(done) + old(tail) && tail == []
    {
      hide *;
      BlockReady();
      NextBlock(done, tail);
      CountBytes(128);
      CompressInput();
      idx := 0;
      for w := 0 to 16
        modifies input
        invariant forall v :: 0 <= v < w ==> input[v] == 0
      {
        input[w] := 0;
      }
      EmptyBlock();
      done := done + tail;
      tail := [];
      Emptied();
    }

    lemma Emptied()
      requires input.Length == 16 && idx == 0 && tail == [] && |done| % 128 == 0 && hash == HashBlocks(done)
      requires forall w :: 0 <= w < 16 ==> input[w] == WordAt([], w)
      requires CountsBits(sizeHi, sizeLo, |done|)
      ensures Valid()
    {
      hide WordAt, HashBlocks;
    }

    lemma BlockReady()
      requires Consistent() && idx == 128
      ensures input.Length == 16 && |tail| == 128 && |done| % 128 == 0
      ensures input[..] == BlockWords(tail) && hash == HashBlocks(done)
      ensures CountsBits(sizeHi, sizeLo, |done|)
    {
      hide WordAt, HashBlocks, Compress, Load64Be;
      FullBlock(tail, input[..]);
    }

    /** First step of `crypto_sha512_update`: bytes up to the next word boundary. */
    method AlignWord(message: seq<byte>) returns (rest: seq<byte>)
      requires Valid()
      modifies this, input
      ensures Consistent() && Message() + rest == old(Message()) + message
      ensures |rest| > 0 ==> idx % 8 == 0
    {
      hide WordAt, HashBlocks;
      rest := message;
      if idx % 8 != 0 {
        var n := Min(8 - idx % 8, |rest|);
        AddBytes(rest[..n]);
        Regroup(old(Message()), old(done), old(tail), message, n);
        rest := rest[n..];
      }
    }

    /** Second and third step: words up to the next block boundary, and the block if it is full. */
    method AlignBlock(message: seq<byte>) returns (rest: seq<byte>)
      requires Consistent() && (|message| > 0 ==> idx % 8 == 0)
      modifies this, input
      ensures Valid() && Message() + rest == old(Message()) + message
      ensures idx == 0 || (|rest| < 8 && (|rest| > 0 ==> idx % 8 == 0))
    {
      hide WordAt, HashBlocks;
      rest := message;
      if idx % 128 != 0 {
        var n := 8 * (Min(128 - idx, |rest|) / 8);
        LoadWords(rest[..n]);
        Regroup(old(Message()), old(done), old(tail), message, n);
        rest := rest[n..];
      }
      if idx == 128 {
        ghost var before := Message();
        CompressBlock();
        assert Message() == before;
      }
    }

    /** `crypto_sha512_update`: however a message is cut into pieces, only what has been fed
        in so far matters. */
    method Update(message: seq<byte>)
      requires Valid()
      modifies this, input
      ensures Valid() && Message() == old(Message()) + message
    {
      hide WordAt, HashBlocks;
      if |message| == 0 {
        return;
      }
      ghost var wanted := Message() + message;
      var rest := AlignWord(message);
      rest := AlignBlock(rest);
      var blocks := |rest| / 128;
      for i := 0 to blocks
        invariant Valid() && Message() + rest == wanted
        invariant |rest| / 128 == blocks - i
        invariant idx == 0 || (|rest| < 8 && (|rest| > 0 ==> idx % 8 == 0))
      {
        rest := FullBlockOf(rest);
      }
      if |rest| != 0 {
        Remainder(rest);
      }
    }

    /** One turn of the loop over whole blocks. */
    method FullBlockOf(message: seq<byte>) returns (rest: seq<byte>)
      requires Valid() && idx == 0 && |message| >= 128
      modifies this, input
      ensures Valid() && idx == 0 && Message() + rest == old(Message()) + message && rest == message[128..]
    {
      hide WordAt, HashBlocks;
      LoadWords(message[..128]);
      Regroup(old(Message()), old(done), old(tail), message, 128);
      rest := message[128..];
      ghost var before := Message();
      CompressBlock();
      assert Message() == before;
    }

    /** The remaining words and bytes. */
    method Remainder(message: seq<byte>)
      requires Valid() && |message| < 128 && (idx == 0 || |message| < 8) && idx % 8 == 0
      modifies this, input
      ensures Valid() && Message() == old(Message()) + message
    {
      hide WordAt, HashBlocks;
      var n := 8 * (|message| / 8);
      LoadWords(message[..n]);
      AddBytes(message[n..]);
      Regroup(old(Message()), old(done), old(tail), message, n);
      assert tail == old(tail) + message[..n] + message[n..];
    }

    /** Clears the words from `from` on, as far as `to`. */
    method ZeroWords(to: nat)
      requires input.Length == 16 && to <= 16
      modifies input
      ensures forall w :: 0 <= w < 16 ==> input[w] == if w < to then 0 else old(input[w])
    {
      for w := 0 to to
        invariant forall v :: 0 <= v < 16 ==> input[v] == if v < w then 0 else old(input[v])
      {
        input[w] := 0;
      }
    }

    /** The length goes into the last two words of a block that starts with what is left of
        the padded message. */
    method LastCompress(ghost left: seq<byte>, ghost before: seq<byte>)
      requires input.Length == 16 && |left| <= 112 && |before| % 128 == 0
      requires forall w :: 0 <= w < 14 ==> input[w] == WordAt(left, w)
      requires hash == HashBlocks(before)
      modifies this`hash, input
      ensures hash == HashBlocks(before + (left + Zeros(112 - |left|) + ToBe64(sizeHi) + ToBe64(sizeLo)))
    {
      hide WordAt, HashBlocks, Compress, BlockWords, WordOf, ToBe64;
      input[14] := WordOf(sizeHi);
      input[15] := WordOf(sizeLo);
      LastBlock(left, sizeHi, sizeLo, input[..]);
      NextBlock(before, left + Zeros(112 - |left|) + ToBe64(sizeHi) + ToBe64(sizeLo));
      CompressInput();
    }

    /** The block before the last one, when the length no longer fits. */
    method PenultimateCompress()
      requires input.Length == 16 && |tail| <= 128 && |done| % 128 == 0 && hash == HashBlocks(done)
      requires forall w :: 0 <= w < 16 ==> input[w] == WordAt(tail, w)
      modifies this`hash, input
      ensures hash == HashBlocks(done + (tail + Zeros(128 - |tail|)))
      ensures forall w :: 0 <= w < 14 ==> input[w] == WordAt([], w)
    {
      hide WordAt, HashBlocks, Compress, BlockWords;
      FullBlock(tail, input[..]);
      NextBlock(done, tail + Zeros(128 - |tail|));
      CompressInput();
      ZeroWords(14);
      EmptyBlock();
    }

    /** `crypto_sha512_final`: the digest of everything that was fed in. The context is wiped. */
    method Final() returns (digest: seq<byte>)
      requires Valid()
      modifies this, input
      ensures digest == Digest(old(Message()))
    {
      hide WordAt, HashBlocks, Pad, Concat, ToBe64, CountsBits;
      ghost var m, d, t := Message(), done, tail;
      if idx == 0 {
        ZeroWords(16);
        EmptyBlock();
      }
      var start := idx;
      AddByte(0x80);
      CountBytes(start);
      CountedSize(|d| + start, sizeHi, sizeLo);
      if start > 111 {
        PadLong(m, d, t);
        PenultimateCompress();
        assert [] + Zeros(112) == Zeros(112);
        LastCompress([], d + (t + [0x80] + Zeros(127 - |t|)));
      } else {
        PadShort(m, d, t);
        LastCompress(tail, d);
      }
      digest := Concat(hash);
    }
  }

  lemma Regroup(m: seq<byte>, done: seq<byte>, tail: seq<byte>, message: seq<byte>, n: nat)
    requires n <= |message| && m == done + tail
    ensures done + (tail + message[..n]) + message[n..] == m + message
    ensures done + (tail + message[..n] + message[n..]) == m + message
  {
    assert message == message[..n] + message[n..];
  }

  lemma FullBlock(tail: seq<byte>, input: seq<word>)
    requires |tail| <= 128 && |input| == 16 && forall w :: 0 <= w < 16 ==> input[w] == WordAt(tail, w)
    ensures input == BlockWords(tail + Zeros(128 - |tail|))
    ensures |tail| == 128 ==> input == BlockWords(tail)
  {
    hide Load64Be;
    if |tail| == 128 {
      assert tail + Zeros(0) == tail;
    }
  }

  lemma NextBlock(done: seq<byte>, block: seq<byte>)
    requires |done| % 128 == 0 && |block| == 128
    ensures HashBlocks(done + block) == Compress(HashBlocks(done), BlockWords(block))
  {
    hide Load64Be, Compress;
    assert (done + block)[..|done + block| - 128] == done && (done + block)[|done + block| - 128..] == block;
  }

  lemma EmptyBlock()
    ensures forall w :: 0 <= w < 16 ==> WordAt([], w) == 0
  {
    forall w | 0 <= w < 16
      ensures WordAt([], w) == 0
    {
      ZerosFillNothing(([] + Zeros(128))[8 * w..8 * w + 8], 0, 8);
    }
  }

  lemma CountedSize(n: nat, hi: u64, lo: u64)
    requires CountsBits(hi, lo, n)
    ensures hi == 8 * n / TWO64 % TWO64 && lo == 8 * n % TWO64
  {
  }

  /** The last block: what is left of the padded message, zeros, and the length in the last
      two words. */
  lemma LastBlock(tail: seq<byte>, hi: u64, lo: u64, input: seq<word>)
    requires |tail| <= 112 && |input| == 16
    requires forall w :: 0 <= w < 14 ==> input[w] == WordAt(tail, w)
    requires input[14] == WordOf(hi) && input[15] == WordOf(lo)
    ensures input == BlockWords(tail + Zeros(112 - |tail|) + ToBe64(hi) + ToBe64(lo))
  {
    hide Load64Be, ToBe;
    var b := tail + Zeros(112 - |tail|) + ToBe64(hi) + ToBe64(lo);
    assert b[112..120] == ToBe64(hi) && b[120..128] == ToBe64(lo);
    forall w | 0 <= w < 14
      ensures input[w] == Load64Be(b[8 * w..8 * w + 8])
    {
      assert (tail + Zeros(128 - |tail|))[8 * w..8 * w + 8] == b[8 * w..8 * w + 8];
    }
  }

  lemma ZerosNeeded(done: nat, tail: nat)
    requires done % 128 == 0 && tail < 128
    ensures ZeroCount(done + tail) == if tail <= 111 then 111 - tail else 239 - tail
  {
  }

  lemma PadShort(m: seq<byte>, done: seq<byte>, tail: seq<byte>)
    requires m == done + tail && |done| % 128 == 0 && |tail| <= 111
    ensures Pad(m) == done + (tail + [0x80] + Zeros(111 - |tail|) + ToBe64(8 * |m| / TWO64 % TWO64) + ToBe64(8 * |m| % TWO64))
  {
    hide ToBe64, ZeroCount;
    ZerosNeeded(|done|, |tail|);
  }

  lemma PadLong(m: seq<byte>, done: seq<byte>, tail: seq<byte>)
    requires m == done + tail && |done| % 128 == 0 && 111 < |tail| < 128
    ensures Pad(m) == done + (tail + [0x80] + Zeros(127 - |tail|)) + (Zeros(112) + ToBe64(8 * |m| / TWO64 % TWO64) + ToBe64(8 * |m| % TWO64))
  {
    hide ToBe64, ZeroCount;
    ZerosNeeded(|done|, |tail|);
    assert Zeros(239 - |tail|) == Zeros(127 - |tail|) + Zeros(112);
  }

  /** Splitting a message over several updates does not change its digest. */
  method HashInPieces(pieces: seq<seq<byte>>) returns (digest: seq<byte>)
    ensures digest == Digest(Flatten(pieces))
  {
    var ctx := new Context();
    for i := 0 to |pieces|
      invariant ctx.Valid() && fresh(ctx) && fresh(ctx.input) && ctx.Message() == Flatten(pieces[..i])
    {
      ctx.Update(pieces[i]);
      assert pieces[..i + 1][..i] == pieces[..i];
    }
    assert pieces[..|pieces|] == pieces;
    digest := ctx.Final();
  }

  function Flatten(pieces: seq<seq<byte>>): seq<byte> {
    if pieces == [] then [] else Flatten(pieces[..|pieces| - 1]) + pieces[|pieces| - 1]
  }

  /** `crypto_sha512` */
  method Hash(message: seq<byte>) returns (digest: seq<byte>)
    ensures digest == Digest(message)
  {
    var ctx := new Context();
    ctx.Update(message);
    assert ctx.Message() == message;
    digest := ctx.Final();
  }
}

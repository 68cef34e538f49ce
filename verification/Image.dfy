/** firmware/common/image.c: the validation that bootloader and updater share. */
module Image {
  import opened Bytes
  import opened FlashMemory
  import Crc32
  import Sha512Standard
  import Sha512

  const MAGIC: u32 := 0x3241544F
  const HEADER_VERSION := 1
  const HEADER_SIZE := 0x200
  const SIGNED_PREFIX := 32
  const SLOT_SIZE: nat := 0x2_0000
  const FLASH_ORIGIN := 0x0800_0000
  const SRAM_BASE := 0x2000_0000
  const SRAM_END := 0x2002_0000

  datatype ImageResult = ImageOk | BadMagic | BadHeader | BadSize | WrongSlot | BadCrc | BadSignature | BadVectors

  /** Whether a 64-byte signature of a message verifies under the compiled-in public key. */
  type Verifier = (seq<byte>, seq<byte>) -> bool

  /** How the bytes of a slot are judged. The boot and update code is modelled for any such
      function; the firmware's is `Validation`. */
  type Checker = (seq<byte>, byte) -> ImageResult

  /** Slot A is sector 5, slot B sector 6; anything else counts as slot A. */
  function SlotBase(slot: byte): nat {
    if slot == 1 then 0x4_0000 else 0x2_0000
  }

  function SlotSector(slot: byte): nat {
    if slot == 1 then 6 else 5
  }

  function SlotBytes(m: seq<byte>, slot: byte): (s: seq<byte>)
    requires |m| == FLASH_SIZE
    ensures |s| == SLOT_SIZE
  {
    Window(m, SlotBase(slot), SLOT_SIZE)
  }

  /** The packed version of the header, compared as one number. */
  function Version(s: seq<byte>): u32
    requires |s| == SLOT_SIZE
  {
    0x1_0000 * s[12] as int + 0x100 * s[13] as int + s[14] as int
  }

  function BodySize(s: seq<byte>): u32
    requires |s| == SLOT_SIZE
  {
    Le32(s[8..12])
  }

  /** The checks of `image_validate`, in its order, on the bytes of a slot. */
  function Validate(s: seq<byte>, slot: byte, verify: Verifier): ImageResult
    requires |s| == SLOT_SIZE
  {
    var size, load := BodySize(s), Le32(s[24..28]);
    if Le32(s[..4]) != MAGIC then BadMagic
    else if Le16(s[4..6]) != HEADER_VERSION || Le16(s[6..8]) != HEADER_SIZE then BadHeader
    else if size == 0 || size > SLOT_SIZE - HEADER_SIZE || size % 4 != 0 then BadSize
    else if s[16] != slot || load != FLASH_ORIGIN + SlotBase(slot) + HEADER_SIZE then WrongSlot
    else
      var body := s[HEADER_SIZE..HEADER_SIZE + size];
      if Crc32.CrcBytes(body) != s[20..24] then BadCrc
      else if !verify(s[32..96], s[..SIGNED_PREFIX] + Sha512Standard.Digest(body)) then BadSignature
      else
        var sp, pc := Le32(s[HEADER_SIZE..HEADER_SIZE + 4]), Le32(s[HEADER_SIZE + 4..HEADER_SIZE + 8]);
        if sp < SRAM_BASE || sp > SRAM_END || sp % 4 != 0 then BadVectors
        else if pc % 2 == 0 || pc < load || pc >= load + size then BadVectors
        else ImageOk
  }

  /** What the signature signs: the first 32 bytes of the header and the SHA-512 of the body, as long as
      the header says. */
  function SignedMessage(s: seq<byte>): seq<byte>
    requires |s| == SLOT_SIZE && BodySize(s) <= BODY_MAX
  {
    s[..32] + Sha512Standard.Digest(s[0x200..0x200 + BodySize(s)])
  }

  /** The signature decides last but for the vectors: only with one that verifies is an image judged
      good, and one that any key would get as far as the signature is refused for it alone. */
  lemma SignatureDecides(s: seq<byte>, slot: byte, verify: Verifier)
    requires |s| == SLOT_SIZE
    ensures Validate(s, slot, verify) == ImageOk ==> 0 < BodySize(s) <= BODY_MAX && verify(s[32..96], SignedMessage(s))
    ensures Validate(s, slot, verify) == BadSignature <==>
      (Validate(s, slot, Nobody) == BadSignature && !verify(s[32..96], SignedMessage(s)))
    ensures Validate(s, slot, Nobody) != ImageOk
    ensures forall key :: Validate(s, slot, key) == ImageOk && !verify(s[32..96], SignedMessage(s)) ==> Validate(s, slot, verify) == BadSignature
  {
    hide Crc32.CrcBytes, Sha512Standard.Digest;
  }

  /** Verifies nothing. */
  function Nobody(signature: seq<byte>, message: seq<byte>): bool {
    false
  }

  /** What each result says: it names the first thing that is wrong. */
  lemma ResultNamesTheFault(s: seq<byte>, slot: byte, verify: Verifier)
    requires |s| == SLOT_SIZE && slot <= 1
    ensures var r, size := Validate(s, slot, verify), BodySize(s);
      var magic := s[..4] == [0x4F, 0x54, 0x41, 0x32];  // "OTA2"
      var header := s[4..8] == [1, 0, 0, 2];
      var sized := 0 < size <= 130_560 && size % 4 == 0;
      var placed := s[16] == slot && s[24..28] == [0, 2, if slot == 0 then 2 else 4, 8];
      && (r == BadMagic <==> !magic)
      && (r == BadHeader <==> magic && !header)
      && (r == BadSize <==> magic && header && !sized)
      && (r == WrongSlot <==> magic && header && sized && !placed)
      && (magic && header && sized && placed ==>
           var whole, signed := s[20..24] == Crc32.CrcBytes(s[0x200..0x200 + size]), verify(s[32..96], SignedMessage(s));
           && (r == BadCrc <==> !whole)
           && (r == BadSignature <==> whole && !signed)
           && (r == BadVectors <==> whole && signed && !StartsWell(s, slot))
           && (r == ImageOk <==> whole && signed && StartsWell(s, slot)))
  {
    hide Crc32.CrcBytes, Sha512Standard.Digest;
    Numbers(s);
  }

  /** The stack pointer is a word address of SRAM or its end, and the entry is a Thumb address inside
      the body. */
  predicate StartsWell(s: seq<byte>, slot: byte)
    requires |s| == SLOT_SIZE
  {
    var stack, entry, body := Le32(s[0x200..0x204]), Le32(s[0x204..0x208]), 0x0802_0200 + 0x2_0000 * slot;
    && 0x2000_0000 <= stack <= 0x2002_0000 && stack % 4 == 0
    && entry % 2 == 1 && body <= entry < body + BodySize(s)
  }

  lemma Numbers(s: seq<byte>)
    requires |s| == SLOT_SIZE
    ensures Le32(s[..4]) == MAGIC <==> s[..4] == [0x4F, 0x54, 0x41, 0x32]
    ensures Le16(s[4..6]) == HEADER_VERSION && Le16(s[6..8]) == HEADER_SIZE <==> s[4..8] == [1, 0, 0, 2]
    ensures Le32(s[24..28]) == 0x0802_0200 <==> s[24..28] == [0, 2, 2, 8]
    ensures Le32(s[24..28]) == 0x0804_0200 <==> s[24..28] == [0, 2, 4, 8]
  {
    assert s[..4] == [s[0], s[1], s[2], s[3]] && s[4..8] == [s[4], s[5], s[6], s[7]] && s[24..28] == [s[24], s[25], s[26], s[27]];
    assert s[4..6] == [s[4], s[5]] && s[6..8] == [s[6], s[7]];
  }

  /** Versions compare by major, then minor, then patch number. */
  lemma VersionOrder(s: seq<byte>, t: seq<byte>)
    requires |s| == |t| == SLOT_SIZE
    ensures Version(s) < Version(t) <==>
      s[12] < t[12] || (s[12] == t[12] && (s[13] < t[13] || (s[13] == t[13] && s[14] < t[14])))
  {
  }

  function Validation(verify: Verifier): Checker {
    (s: seq<byte>, slot: byte) => if |s| == SLOT_SIZE then Validate(s, slot, verify) else BadMagic
  }

  predicate RefusesErased(check: Checker) {
    forall slot: byte :: check(Blank(SLOT_SIZE), slot) != ImageOk
  }

  lemma ValidationRefusesErased(verify: Verifier)
    ensures RefusesErased(Validation(verify))
  {
    hide Validate;
    forall slot: byte
      ensures Validation(verify)(Blank(SLOT_SIZE), slot) != ImageOk
    {
      ErasedNeverValid(Blank(SLOT_SIZE), slot, verify);
    }
  }

  /** A slot whose first word is erased never validates. */
  lemma ErasedNeverValid(s: seq<byte>, slot: byte, verify: Verifier)
    requires |s| == SLOT_SIZE && AllFF(s[..4])
    ensures Validate(s, slot, verify) == BadMagic
  {
    hide Crc32.CrcBytes, Sha512Standard.Digest;
  }

  const BODY_MAX: u32 := SLOT_SIZE - HEADER_SIZE

  /** The body of an image that fills its slot: two vectors, and the rest erased. */
  function SampleBody(slot: byte): (s: seq<byte>)
    requires slot <= 1
    ensures |s| == BODY_MAX
  {
    ToLe32(SRAM_END) + ToLe32(FLASH_ORIGIN + SlotBase(slot) + HEADER_SIZE + 1) + Blank(BODY_MAX - 8)
  }

  /** An image that fills its slot, of version 0.0.`patch`. */
  function SampleImage(slot: byte, patch: byte): (s: seq<byte>)
    requires slot <= 1
    ensures |s| == SLOT_SIZE
  {
    ToLe32(MAGIC) + (ToLe16(HEADER_VERSION) + ToLe16(HEADER_SIZE)) + ToLe32(BODY_MAX) + [0, 0, patch, 0] + [slot, FF, FF, FF]
    + Crc32.CrcBytes(SampleBody(slot)) + ToLe32(FLASH_ORIGIN + SlotBase(slot) + HEADER_SIZE) + Blank(HEADER_SIZE - 28) + SampleBody(slot)
  }

  lemma SampleLayout(slot: byte, patch: byte)
    requires slot <= 1
    ensures var s := SampleImage(slot, patch);
      && s[..4] == ToLe32(MAGIC) && s[4..6] == ToLe16(HEADER_VERSION) && s[6..8] == ToLe16(HEADER_SIZE) && s[8..12] == ToLe32(BODY_MAX)
      && s[12..16] == [0, 0, patch, 0] && s[16] == slot && s[20..24] == Crc32.CrcBytes(SampleBody(slot))
      && s[24..28] == ToLe32(FLASH_ORIGIN + SlotBase(slot) + HEADER_SIZE) && s[HEADER_SIZE..] == SampleBody(slot)
  {
    hide Crc32.CrcBytes, SampleBody, ToLe32;
  }

  /** There are images that validate, as far as the signature check lets them. */
  lemma SampleIsValid(slot: byte, patch: byte, verify: Verifier)
    requires slot <= 1 && forall signature, message :: verify(signature, message)
    ensures Validate(SampleImage(slot, patch), slot, verify) == ImageOk
    ensures Version(SampleImage(slot, patch)) == patch && BodySize(SampleImage(slot, patch)) == BODY_MAX
    ensures SampleImage(slot, patch)[0] != FF
  {
    hide Crc32.CrcBytes, Sha512Standard.Digest, SampleImage;
    var s, body := SampleImage(slot, patch), SampleBody(slot);
    var load: u32 := FLASH_ORIGIN + SlotBase(slot) + HEADER_SIZE;
    SampleLayout(slot, patch);
    assert s[12..16][0] == s[12] && s[12..16][1] == s[13] && s[12..16][2] == s[14];
    assert s[..4][0] == s[0];
    assert s[HEADER_SIZE..HEADER_SIZE + BODY_MAX] == body;
    assert body[..4] == ToLe32(SRAM_END) && body[4..8] == ToLe32(load + 1);
    SliceOfSlice(s, HEADER_SIZE, HEADER_SIZE + BODY_MAX, 0, 4);
    SliceOfSlice(s, HEADER_SIZE, HEADER_SIZE + BODY_MAX, 4, 8);
  }

  /** An image that validates in one slot does not validate in the other. */
  lemma ValidInOneSlotOnly(s: seq<byte>, verify: Verifier)
    requires |s| == SLOT_SIZE
    ensures Validate(s, 0, verify) != ImageOk || Validate(s, 1, verify) != ImageOk
  {
    hide Crc32.CrcBytes, Sha512Standard.Digest;
  }

  method ImageValidate(flash: Flash, slot: byte, verify: Verifier) returns (r: ImageResult)
    requires |flash.mem| == FLASH_SIZE
    ensures r == Validate(SlotBytes(flash.mem, slot), slot, verify)
  {
    hide Crc32.CrcBytes, Sha512Standard.Digest;
    var h := SlotBytes(flash.mem, slot);
    if Le32(h[..4]) != MAGIC {
      return BadMagic;
    }
    if Le16(h[4..6]) != HEADER_VERSION || Le16(h[6..8]) != HEADER_SIZE {
      return BadHeader;
    }
    var size := BodySize(h);
    if size == 0 || size > SLOT_SIZE - HEADER_SIZE || size % 4 != 0 {
      return BadSize;
    }
    var load := Le32(h[24..28]);
    if h[16] != slot || load != FLASH_ORIGIN + SlotBase(slot) + HEADER_SIZE {
      return WrongSlot;
    }
    var body := h[HEADER_SIZE..HEADER_SIZE + size];
    if Crc32.CrcBytes(body) != h[20..24] {
      return BadCrc;
    }
    var message := [];
    for i := 0 to SIGNED_PREFIX
      invariant message == h[..i]
    {
      message := message + [h[i]];
    }
    var digest := Sha512.Hash(body);
    if !verify(h[32..96], message + digest) {
      return BadSignature;
    }
    var sp, pc := Le32(h[HEADER_SIZE..HEADER_SIZE + 4]), Le32(h[HEADER_SIZE + 4..HEADER_SIZE + 8]);
    if sp < SRAM_BASE || sp > SRAM_END || sp % 4 != 0 {
      return BadVectors;
    }
    if pc % 2 == 0 || pc < load || pc >= load + size {
      return BadVectors;
    }
    r := ImageOk;
  }
}

/** tools/otaimg.py: how images are built and signed on the host, what the firmware makes of them, and
    how the host's own check differs from it. */
module HostImage {
  import opened Bytes
  import opened Options
  import opened Image
  import Crc32
  import Sha512Standard
  import Session

  type Signer = seq<byte> -> seq<byte>

  datatype Faults = Faults(corruptCrc: bool, badSignature: bool, wrongSlot: bool, corruptBody: bool)

  const NoFaults := Faults(false, false, false, false)

  /** `pad_body` */
  function PadBody(body: seq<byte>): (r: seq<byte>)
    ensures |r| % 4 == 0 && |body| <= |r| < |body| + 4 && r[..|body|] == body
  {
    if |body| % 4 == 0 then body else body + Blank(4 - |body| % 4)
  }

  /** `_PREFIX.pack` with the format "<IHHIBBBBB3xIII" */
  function Prefix(size: u32, major: byte, minor: byte, patch: byte, slot: byte, crc: u32, load: u32): (r: seq<byte>)
    ensures |r| == 32
  {
    ToLe32(0x3241544F) + ToLe16(1) + ToLe16(512) + ToLe32(size) + [major, minor, patch, 0, slot, 0, 0, 0]
    + ToLe32(crc) + ToLe32(load) + ToLe32(0)
  }

  function BodyCrc(body: seq<byte>): u32 {
    Le32(Crc32.CrcBytes(body))
  }

  /** `crc ^ 1` */
  function CrcTurned(crc: u32): u32 {
    if crc % 2 == 0 then crc + 1 else crc - 1
  }

  function FirstTurned(s: seq<byte>): (r: seq<byte>)
    requires s != []
    ensures |r| == |s|
  {
    [Session.Turned(s[0])] + s[1..]
  }

  /** One byte in the middle turned over. */
  function MiddleTurned(s: seq<byte>): (r: seq<byte>)
    requires s != []
    ensures |r| == |s|
  {
    s[|s| / 2 := 255 - s[|s| / 2]]
  }

  function PrefixOf(body: seq<byte>, major: byte, minor: byte, patch: byte, slot: byte, faults: Faults): (r: seq<byte>)
    requires slot <= 1 && |body| < 0x1_0000_0000
    ensures |r| == 32
  {
    var crc := BodyCrc(body);
    Prefix(|body|, major, minor, patch, if faults.wrongSlot then 1 - slot else slot,
           if faults.corruptCrc then CrcTurned(crc) else crc, (if slot == 0 then 0x0802_0000 else 0x0804_0000) + 512)
  }

  function SignatureOf(body: seq<byte>, prefix: seq<byte>, key: Signer, faults: Faults): (r: seq<byte>)
    requires forall m :: |key(m)| == 64
    ensures |r| == 64
  {
    var signature := key(prefix + Sha512Standard.Digest(body));
    if faults.badSignature then FirstTurned(signature) else signature
  }

  /** `build_image`; None is the exception: the body is too long, or it is empty and has no byte to
      corrupt. */
  function BuildImage(raw: seq<byte>, major: byte, minor: byte, patch: byte, slot: byte, key: Signer, faults: Faults): (r: Option<seq<byte>>)
    requires slot <= 1 && forall m :: |key(m)| == 64
    ensures r.Some? ==> |r.value| == 512 + |PadBody(raw)| <= SLOT_SIZE
  {
    var body := PadBody(raw);
    if |body| > 0x2_0000 - 512 || (faults.corruptBody && body == []) then None
    else
      var prefix := PrefixOf(body, major, minor, patch, slot, faults);
      var header := prefix + SignatureOf(body, prefix, key, faults);
      Some(header + Blank(512 - |header|) + (if faults.corruptBody then MiddleTurned(body) else body))
  }

  /** What the fields of a built image read as in the slot. */
  lemma BuiltFields(raw: seq<byte>, major: byte, minor: byte, patch: byte, slot: byte, key: Signer, faults: Faults, s: seq<byte>)
    requires slot <= 1 && (forall m :: |key(m)| == 64) && |s| == SLOT_SIZE
    requires var image := BuildImage(raw, major, minor, patch, slot, key, faults); image.Some? && s[..|image.value|] == image.value
    ensures var body := PadBody(raw);
      var prefix := PrefixOf(body, major, minor, patch, slot, faults);
      && s[..32] == prefix && s[32..96] == SignatureOf(body, prefix, key, faults)
      && s[512..512 + |body|] == if faults.corruptBody then MiddleTurned(body) else body
  {
    hide PadBody, PrefixOf, SignatureOf, MiddleTurned;
    var body := PadBody(raw);
    var prefix := PrefixOf(body, major, minor, patch, slot, faults);
    var signature := SignatureOf(body, prefix, key, faults);
    var image := BuildImage(raw, major, minor, patch, slot, key, faults).value;
    assert image[..32] == prefix && image[32..96] == signature && image[512..] == if faults.corruptBody then MiddleTurned(body) else body;
    assert s[..32] == s[..|image|][..32] && s[32..96] == s[..|image|][32..96] && s[512..512 + |body|] == s[..|image|][512..];
  }

  lemma PrefixFields(body: seq<byte>, major: byte, minor: byte, patch: byte, slot: byte, faults: Faults)
    requires slot <= 1 && |body| < 0x1_0000_0000
    ensures var p := PrefixOf(body, major, minor, patch, slot, faults);
      && p[..4] == [0x4F, 0x54, 0x41, 0x32] && p[4..8] == [1, 0, 0, 2] && Le32(p[8..12]) == |body|
      && p[12] == major && p[13] == minor && p[14] == patch && p[16] == (if faults.wrongSlot then 1 - slot else slot)
      && p[20..24] == ToLe32(if faults.corruptCrc then CrcTurned(BodyCrc(body)) else BodyCrc(body))
      && p[24..28] == [0, 2, if slot == 0 then 2 else 4, 8]
  {
    hide BodyCrc, CrcTurned, ToLe32;
    PrefixLayout(|body|, major, minor, patch, if faults.wrongSlot then 1 - slot else slot,
      if faults.corruptCrc then CrcTurned(BodyCrc(body)) else BodyCrc(body), (if slot == 0 then 0x0802_0000 else 0x0804_0000) + 512);
    Numerals();
  }

  lemma Numerals()
    ensures ToLe32(0x3241544F) == [0x4F, 0x54, 0x41, 0x32] && ToLe16(1) + ToLe16(512) == [1, 0, 0, 2]
    ensures ToLe32(0x0802_0200) == [0, 2, 2, 8] && ToLe32(0x0804_0200) == [0, 2, 4, 8]
  {
  }

  lemma PrefixLayout(size: u32, major: byte, minor: byte, patch: byte, slot: byte, crc: u32, load: u32)
    ensures var p := Prefix(size, major, minor, patch, slot, crc, load);
      && p[..4] == ToLe32(0x3241544F) && p[4..8] == ToLe16(1) + ToLe16(512) && p[8..12] == ToLe32(size)
      && p[12] == major && p[13] == minor && p[14] == patch && p[16] == slot && p[20..24] == ToLe32(crc) && p[24..28] == ToLe32(load)
  {
    hide ToLe32, ToLe16;
  }

  lemma StoredCrc(body: seq<byte>)
    ensures ToLe32(BodyCrc(body)) == Crc32.CrcBytes(body)
    ensures ToLe32(CrcTurned(BodyCrc(body))) != Crc32.CrcBytes(body)
  {
    hide Crc32.CrcBytes;
    SameBytes(ToLe32(BodyCrc(body)), Crc32.CrcBytes(body));
  }

  lemma SameBytes(a: seq<byte>, b: seq<byte>)
    requires |a| == |b| == 4 && Le32(a) == Le32(b)
    ensures a == b
  {
    var a1: int, a2: int, a3: int, b1: int, b2: int, b3: int := a[1], a[2], a[3], b[1], b[2], b[3];
    Digits(a[0], a1 + 0x100 * a2 + 0x1_0000 * a3, b[0], b1 + 0x100 * b2 + 0x1_0000 * b3);
    Digits(a[1], a2 + 0x100 * a3, b[1], b2 + 0x100 * b3);
    Digits(a[2], a3, b[2], b3);
  }

  lemma Digits(x: byte, high: nat, y: byte, high': nat)
    requires x + 0x100 * high == y + 0x100 * high'
    ensures x == y && high == high'
  {
  }

  lemma TurnedBodyTells(body: seq<byte>)
    requires body != []
    ensures Crc32.CrcBytes(MiddleTurned(body)) != Crc32.CrcBytes(body)
  {
    hide Crc32.CrcBytes, Crc32.Crc;
    var body' := MiddleTurned(body);
    assert body'[|body| / 2] != body[|body| / 2];
    Crc32.BurstDetected(body, body', |body| / 2);
    if Crc32.CrcBytes(body') == Crc32.CrcBytes(body) {
      Crc32.CrcBytesTell(body', body);
    }
  }

  /** What the firmware makes of an image that the host has built, whatever lies behind it in the slot:
      each fault that the host can build in has its own answer, and without one only the key and the
      vectors of the body decide. */
  lemma BuiltImageIsJudged(raw: seq<byte>, major: byte, minor: byte, patch: byte, slot: byte, key: Signer, faults: Faults, s: seq<byte>, verify: Verifier)
    requires slot <= 1 && (forall m :: |key(m)| == 64) && |s| == SLOT_SIZE && !(faults.corruptCrc && faults.corruptBody)
    requires var image := BuildImage(raw, major, minor, patch, slot, key, faults); image.Some? && s[..|image.value|] == image.value
    ensures var body := PadBody(raw);
      var prefix := PrefixOf(body, major, minor, patch, slot, faults);
      && Validate(s, slot, verify) == (
           if raw == [] then BadSize
           else if faults.wrongSlot then WrongSlot
           else if faults.corruptCrc || faults.corruptBody then BadCrc
           else if !verify(SignatureOf(body, prefix, key, faults), prefix + Sha512Standard.Digest(body)) then BadSignature
           else if !StartsWell(s, slot) then BadVectors
           else ImageOk)
      && Version(s) == 0x1_0000 * major + 0x100 * minor + patch && BodySize(s) == |body|
  {
    hide Validate, Crc32.CrcBytes, Sha512Standard.Digest, BuildImage, PrefixOf, SignatureOf, MiddleTurned, StartsWell;
    var body := PadBody(raw);
    BuiltFields(raw, major, minor, patch, slot, key, faults, s);
    PrefixFields(body, major, minor, patch, slot, faults);
    PrefixInSlot(s);
    StoredCrc(body);
    if body != [] {
      TurnedBodyTells(body);
    }
    ResultNamesTheFault(s, slot, verify);
  }

  lemma PrefixInSlot(s: seq<byte>)
    requires |s| == SLOT_SIZE
    ensures var p := s[..32];
      && s[..4] == p[..4] && s[4..8] == p[4..8] && s[8..12] == p[8..12] && s[12] == p[12] && s[13] == p[13] && s[14] == p[14]
      && s[16] == p[16] && s[20..24] == p[20..24] && s[24..28] == p[24..28]
  {
  }

  // ----- the host's own check -----

  /** `verify_image`, on the bytes of a slot. */
  function VerifyImage(s: seq<byte>, verify: Verifier): ImageResult
    requires |s| == SLOT_SIZE
  {
    var size := Le32(s[8..12]);
    if Le32(s[..4]) != 0x3241544F then BadMagic
    else if Le16(s[4..6]) != 1 || Le16(s[6..8]) != 512 then BadHeader
    else if size == 0 || size > 0x2_0000 - 512 || size % 4 != 0 then BadSize
    else
      var body := s[512..512 + size];
      if BodyCrc(body) != Le32(s[20..24]) then BadCrc
      else if !verify(s[32..96], s[..32] + Sha512Standard.Digest(body)) then BadSignature
      else ImageOk
  }

  /** The host checks the same as the firmware, in the same order, but for the slot and the vectors: so
      it agrees exactly on the slots that are not refused for these, and bad vectors are all that it
      lets pass of the rest. */
  lemma HostCheckDiffers(s: seq<byte>, slot: byte, verify: Verifier)
    requires |s| == SLOT_SIZE
    ensures var firmware := Validate(s, slot, verify);
      && (VerifyImage(s, verify) == firmware <==> firmware != WrongSlot && firmware != BadVectors)
      && (firmware == BadVectors ==> VerifyImage(s, verify) == ImageOk)
  {
    hide Crc32.CrcBytes, Sha512Standard.Digest;
    var size := BodySize(s);
    if size <= BODY_MAX {
      var body := s[512..512 + size];
      if BodyCrc(body) == Le32(s[20..24]) {
        SameBytes(Crc32.CrcBytes(body), s[20..24]);
      }
    }
  }
}

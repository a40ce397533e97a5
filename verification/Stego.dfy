/**
 Contact cards hidden in the least significant bits of an image
 (nodex-messenger/src/stego.rs). An image is its buffer of RGBA bytes, four per pixel, row by
 row. The cipher, the key derivation, the checksum and the card's text form are abstract.
 */
module Stego {
  import opened Bytes

  const STEGO_MAGIC: seq<byte> := [0x4E, 0x58, 0x53, 0x54, 0x47, 0x31]
  const MAX_PAYLOAD_LEN: nat := 1_000_000
  const HEADER_LEN: nat := 10
  const OVERHEAD: nat := 58

  // ----- bits and bytes -----

  function SetLsb(b: byte, bit: byte): byte {
    (b & 0xFE) | bit
  }

  function Lsb(b: byte): (bit: byte)
    ensures bit == 0 || bit == 1
  {
    b & 1
  }

  lemma SetLsbMeaning(b: byte, bit: byte)
    requires bit == 0 || bit == 1
    ensures Lsb(SetLsb(b, bit)) == bit
    ensures Val(b) - 1 <= Val(SetLsb(b, bit)) <= Val(b) + 1
  {
  }

  /** Bit `j` of a byte, the most significant first. */
  function BitOf(b: byte, j: nat): (bit: byte)
    requires j < 8
    ensures bit == 0 || bit == 1
  {
    (b >> (7 - j)) & 1
  }

  function WithBit(b: byte, bit: byte, j: nat): byte
    requires j < 8
  {
    b | (bit << (7 - j))
  }

  lemma NoBit(b: byte, j: nat)
    requires j < 8
    ensures WithBit(b, 0, j) == b
  {
  }

  /** The first `j` bits of a byte, the others cleared. */
  function Top(b: byte, j: nat): byte
    requires j <= 8
  {
    if j == 0 then 0 else WithBit(Top(b, j - 1), BitOf(b, j - 1), j - 1)
  }

  lemma TopIsAll(b: byte)
    ensures Top(b, 8) == b
  {
    assert Top(b, 1) == WithBit(0, BitOf(b, 0), 0);
    assert Top(b, 2) == WithBit(Top(b, 1), BitOf(b, 1), 1);
    assert Top(b, 4) == WithBit(WithBit(Top(b, 2), BitOf(b, 2), 2), BitOf(b, 3), 3);
    assert Top(b, 6) == WithBit(WithBit(Top(b, 4), BitOf(b, 4), 4), BitOf(b, 5), 5);
    assert Top(b, 8) == WithBit(WithBit(Top(b, 6), BitOf(b, 6), 6), BitOf(b, 7), 7);
  }

  // ----- where the bits live -----

  /** The place of bit `k` in the buffer: three bits a pixel, alpha skipped. */
  function Slot(k: nat): nat {
    4 * (k / 3) + k % 3
  }

  /** The bit a colour channel carries. */
  function BitAt(i: nat): nat {
    3 * (i / 4) + i % 4
  }

  lemma SlotOfPixel(pixel: nat, c: nat)
    requires c < 3
    ensures Slot(3 * pixel + c) == 4 * pixel + c
  {
  }

  lemma SlotUnique(i: nat, k: nat)
    ensures i == Slot(k) <==> i % 4 < 3 && BitAt(i) == k
  {
  }

  lemma SlotInBuffer(k: nat, pixels: nat)
    ensures Slot(k) < 4 * pixels <==> k < 3 * pixels
  {
  }

  /** Pixels are numbered row by row. */
  function PixelIndex(x: nat, y: nat, width: nat): nat {
    y * width + x
  }

  lemma RowMajor(x: nat, y: nat, width: nat, height: nat)
    requires x < width && y < height
    ensures PixelIndex(x, y, width) < width * height
    ensures PixelIndex(x + 1, y, width) == PixelIndex(x, y, width) + 1
  {
    assert (y + 1) * width <= height * width;
  }

  lemma RowEnds(y: nat, width: nat)
    ensures PixelIndex(width, y, width) == PixelIndex(0, y + 1, width)
  {
  }

  lemma AllPixels(width: nat, height: nat)
    ensures PixelIndex(0, 0, width) == 0 && PixelIndex(0, height, width) == width * height
  {
  }

  // ----- embedding -----

  function PayloadBit(payload: seq<byte>, k: nat): byte
    requires k < 8 * |payload|
  {
    BitOf(payload[k / 8], k % 8)
  }

  /** The buffer after its first `bits` bits have been overwritten. */
  function Stamped(pixels: seq<byte>, payload: seq<byte>, bits: nat): (r: seq<byte>)
    requires bits <= 8 * |payload|
    ensures |r| == |pixels|
  {
    seq(|pixels|, i requires 0 <= i < |pixels| =>
      if i % 4 < 3 && BitAt(i) < bits then SetLsb(pixels[i], PayloadBit(payload, BitAt(i))) else pixels[i])
  }

  lemma StampOneMore(pixels: seq<byte>, payload: seq<byte>, k: nat)
    requires k < 8 * |payload| && Slot(k) < |pixels|
    ensures var s := Stamped(pixels, payload, k);
            s[Slot(k)] == pixels[Slot(k)]
            && Stamped(pixels, payload, k + 1) == s[Slot(k) := SetLsb(pixels[Slot(k)], PayloadBit(payload, k))]
  {
    hide SetLsb, PayloadBit, Slot, BitAt;
    forall i: nat ensures i == Slot(k) <==> i % 4 < 3 && BitAt(i) == k {
      SlotUnique(i, k);
    }
  }

  lemma NothingStamped(pixels: seq<byte>, payload: seq<byte>)
    ensures Stamped(pixels, payload, 0) == pixels
  {
  }

  method WriteBits(img: array<byte>, width: nat, height: nat, payload: seq<byte>)
    requires img.Length == 4 * (width * height) && 8 * |payload| <= 3 * (width * height)
    modifies img
    ensures img[..] == Stamped(old(img[..]), payload, 8 * |payload|)
  {
    hide Stamped, PixelIndex;
    var bitIdx, full := 0, false;
    ghost var before, total := img[..], 8 * |payload|;
    AllPixels(width, height);
    NothingStamped(before, payload);
    label Outer:
    for y := 0 to height
      invariant bitIdx == 3 * PixelIndex(0, y, width) && bitIdx <= total
      invariant img[..] == Stamped(before, payload, bitIdx)
    {
      for x := 0 to width
        invariant bitIdx == 3 * PixelIndex(x, y, width) && bitIdx <= total
        invariant img[..] == Stamped(before, payload, bitIdx)
      {
        RowMajor(x, y, width, height);
        bitIdx, full := WritePixel(img, PixelIndex(x, y, width), payload, before);
        if full {
          break Outer;
        }
      }
      RowEnds(y, width);
    }
  }

  /** The three channels of one pixel; `full` once the payload is exhausted. */
  method WritePixel(img: array<byte>, pixel: nat, payload: seq<byte>, ghost before: seq<byte>)
    returns (bitIdx: nat, full: bool)
    requires 4 * pixel + 3 < img.Length && 3 * pixel <= 8 * |payload|
    requires img[..] == Stamped(before, payload, 3 * pixel)
    modifies img
    ensures bitIdx <= 8 * |payload| && img[..] == Stamped(before, payload, bitIdx)
    ensures if full then bitIdx == 8 * |payload| else bitIdx == 3 * pixel + 3
  {
    hide Stamped, Slot, SetLsb, PayloadBit;
    bitIdx := 3 * pixel;
    for c := 0 to 3
      invariant bitIdx == 3 * pixel + c && bitIdx <= 8 * |payload|
      invariant img[..] == Stamped(before, payload, bitIdx)
    {
      if bitIdx >= 8 * |payload| {
        return bitIdx, true;
      }
      SlotOfPixel(pixel, c);
      StampOneMore(before, payload, bitIdx);
      WriteBit(img, 4 * pixel + c, payload, bitIdx);
      bitIdx := bitIdx + 1;
    }
    full := false;
  }

  method WriteBit(img: array<byte>, channel: nat, payload: seq<byte>, bitIdx: nat)
    requires channel < img.Length && bitIdx < 8 * |payload|
    modifies img
    ensures img[..] == old(img[..])[channel := SetLsb(old(img[channel]), PayloadBit(payload, bitIdx))]
  {
    var byteIdx := bitIdx / 8;
    var bitOffset := 7 - bitIdx % 8;
    var bit := (payload[byteIdx] >> bitOffset) & 1;
    img[channel] := (img[channel] & 0xFE) | bit;
  }

  // ----- reading back -----

  /** Bit `k` as the reader sees it; past the end of the image its buffer keeps the zeros. */
  function HiddenBit(pixels: seq<byte>, k: nat): (bit: byte)
    ensures bit == 0 || bit == 1
  {
    if Slot(k) < |pixels| then Lsb(pixels[Slot(k)]) else 0
  }

  /** The first `j` hidden bits of byte `i`. */
  function HiddenTop(pixels: seq<byte>, i: nat, j: nat): byte
    requires j <= 8
  {
    if j == 0 then 0 else WithBit(HiddenTop(pixels, i, j - 1), HiddenBit(pixels, 8 * i + j - 1), j - 1)
  }

  function Clamp(n: int): (j: nat)
    ensures j <= 8
  {
    if n < 0 then 0 else Min(n, 8)
  }

  /** The `n` hidden bytes as far as their first `bits` bits have been read. */
  function HiddenPrefix(pixels: seq<byte>, n: nat, bits: nat): (r: seq<byte>)
    ensures |r| == n
  {
    seq(n, i requires 0 <= i < n => HiddenTop(pixels, i, Clamp(bits - 8 * i)))
  }

  function Hidden(pixels: seq<byte>, n: nat): seq<byte> {
    HiddenPrefix(pixels, n, 8 * n)
  }

  lemma OneBitMore(pixels: seq<byte>, i: nat, j: nat)
    requires j < 8
    ensures HiddenTop(pixels, i, j + 1) == WithBit(HiddenTop(pixels, i, j), HiddenBit(pixels, 8 * i + j), j)
  {
    hide HiddenBit, WithBit;
  }

  lemma ReadOneMore(pixels: seq<byte>, n: nat, k: nat)
    requires k < 8 * n
    ensures var r := HiddenPrefix(pixels, n, k);
            HiddenPrefix(pixels, n, k + 1) == r[k / 8 := WithBit(r[k / 8], HiddenBit(pixels, k), k % 8)]
  {
    hide HiddenBit, HiddenTop, WithBit;
    var r := HiddenPrefix(pixels, n, k);
    OneBitMore(pixels, k / 8, k % 8);
    assert Clamp(k - 8 * (k / 8)) == k % 8 && Clamp(k + 1 - 8 * (k / 8)) == k % 8 + 1;
    forall i | 0 <= i < n && i != k / 8 ensures Clamp(k - 8 * i) == Clamp(k + 1 - 8 * i) {
    }
  }

  lemma NothingRead(pixels: seq<byte>, n: nat)
    ensures HiddenPrefix(pixels, n, 0) == seq(n, _ => 0)
  {
  }

  lemma ZeroBeyond(pixels: seq<byte>, k: nat, area: nat)
    requires |pixels| == 4 * area && k >= 3 * area
    ensures HiddenBit(pixels, k) == 0
  {
  }

  /** The bits past the end of the image are zeros, so stopping there changes nothing. */
  lemma {:induction false} NothingBeyond(pixels: seq<byte>, i: nat, j: nat, area: nat)
    requires |pixels| == 4 * area && j <= 8
    ensures HiddenTop(pixels, i, j) == HiddenTop(pixels, i, Min(j, Clamp(3 * area - 8 * i)))
  {
    hide Slot, Lsb, HiddenBit, WithBit;
    if j > 0 && 8 * i + j - 1 >= 3 * area {
      ZeroBeyond(pixels, 8 * i + j - 1, area);
      NothingBeyond(pixels, i, j - 1, area);
      NoBit(HiddenTop(pixels, i, j - 1), j - 1);
    }
  }

  lemma AllRead(pixels: seq<byte>, n: nat, area: nat)
    requires |pixels| == 4 * area && 3 * area <= 8 * n
    ensures HiddenPrefix(pixels, n, 3 * area) == Hidden(pixels, n)
  {
    hide HiddenTop;
    forall i | 0 <= i < n
      ensures HiddenTop(pixels, i, Clamp(3 * area - 8 * i)) == HiddenTop(pixels, i, Clamp(8 * n - 8 * i))
    {
      NothingBeyond(pixels, i, 8, area);
    }
  }

  lemma SeenBit(pixels: seq<byte>, k: nat)
    requires Slot(k) < |pixels|
    ensures HiddenBit(pixels, k) == Lsb(pixels[Slot(k)])
  {
  }

  method ReadBytes(img: array<byte>, width: nat, height: nat, n: nat) returns (bytes: seq<byte>)
    requires img.Length == 4 * (width * height)
    ensures bytes == Hidden(img[..], n)
  {
    hide HiddenPrefix, PixelIndex;
    var buffer := new byte[n](_ => 0);
    var bitIdx, full := 0, false;
    AllPixels(width, height);
    NothingRead(img[..], n);
    label Outer:
    for y := 0 to height
      invariant bitIdx == 3 * PixelIndex(0, y, width) && bitIdx <= 8 * n
      invariant buffer[..] == HiddenPrefix(img[..], n, bitIdx)
    {
      for x := 0 to width
        invariant bitIdx == 3 * PixelIndex(x, y, width) && bitIdx <= 8 * n
        invariant buffer[..] == HiddenPrefix(img[..], n, bitIdx)
      {
        RowMajor(x, y, width, height);
        bitIdx, full := ReadPixel(img, PixelIndex(x, y, width), buffer);
        if full {
          return buffer[..];
        }
      }
      RowEnds(y, width);
    }
    AllRead(img[..], n, width * height);
    return buffer[..];
  }

  /** The three channels of one pixel; `full` once the buffer is. */
  method ReadPixel(img: array<byte>, pixel: nat, buffer: array<byte>) returns (bitIdx: nat, full: bool)
    requires img != buffer && 4 * pixel + 3 < img.Length && 3 * pixel <= 8 * buffer.Length
    requires buffer[..] == HiddenPrefix(img[..], buffer.Length, 3 * pixel)
    modifies buffer
    ensures bitIdx <= 8 * buffer.Length && buffer[..] == HiddenPrefix(img[..], buffer.Length, bitIdx)
    ensures if full then bitIdx == 8 * buffer.Length else bitIdx == 3 * pixel + 3
  {
    hide HiddenPrefix, Slot, HiddenBit, WithBit, Lsb;
    bitIdx := 3 * pixel;
    for c := 0 to 3
      invariant bitIdx == 3 * pixel + c && bitIdx <= 8 * buffer.Length
      invariant buffer[..] == HiddenPrefix(img[..], buffer.Length, bitIdx)
    {
      if bitIdx >= 8 * buffer.Length {
        return bitIdx, true;
      }
      SlotOfPixel(pixel, c);
      ReadOneMore(img[..], buffer.Length, bitIdx);
      SeenBit(img[..], bitIdx);
      ReadBit(img, 4 * pixel + c, buffer, bitIdx);
      bitIdx := bitIdx + 1;
    }
    full := false;
  }

  method ReadBit(img: array<byte>, channel: nat, buffer: array<byte>, bitIdx: nat)
    requires img != buffer && channel < img.Length && bitIdx < 8 * buffer.Length
    modifies buffer
    ensures buffer[..] == old(buffer[..])[bitIdx / 8 := WithBit(old(buffer[bitIdx / 8]), Lsb(img[channel]), bitIdx % 8)]
  {
    var byteIdx := bitIdx / 8;
    var bitOffset := 7 - bitIdx % 8;
    var bit := img[channel] & 1;
    buffer[byteIdx] := buffer[byteIdx] | (bit << bitOffset);
  }

  // ----- reading undoes writing -----

  lemma StampedBit(pixels: seq<byte>, payload: seq<byte>, k: nat, area: nat)
    requires |pixels| == 4 * area && 8 * |payload| <= 3 * area && k < 8 * |payload|
    ensures HiddenBit(Stamped(pixels, payload, 8 * |payload|), k) == PayloadBit(payload, k)
  {
    hide Slot, BitOf, SetLsb, Lsb, BitAt;
    SlotInBuffer(k, area);
    SlotUnique(Slot(k), k);
    SetLsbMeaning(pixels[Slot(k)], PayloadBit(payload, k));
  }

  lemma {:induction false} StampedByte(pixels: seq<byte>, payload: seq<byte>, i: nat, j: nat, area: nat)
    requires |pixels| == 4 * area && 8 * |payload| <= 3 * area && i < |payload| && j <= 8
    ensures HiddenTop(Stamped(pixels, payload, 8 * |payload|), i, j) == Top(payload[i], j)
  {
    hide BitOf, Stamped, HiddenBit, WithBit;
    if j > 0 {
      StampedByte(pixels, payload, i, j - 1, area);
      StampedBit(pixels, payload, 8 * i + j - 1, area);
    }
  }

  /** What was written is what is read, byte for byte. */
  lemma HiddenIsPayload(pixels: seq<byte>, payload: seq<byte>, n: nat, area: nat)
    requires |pixels| == 4 * area && 8 * |payload| <= 3 * area && n <= |payload|
    ensures Hidden(Stamped(pixels, payload, 8 * |payload|), n) == payload[..n]
  {
    hide Stamped, HiddenTop, Top;
    forall i | 0 <= i < n
      ensures HiddenTop(Stamped(pixels, payload, 8 * |payload|), i, Clamp(8 * n - 8 * i)) == payload[i]
    {
      StampedByte(pixels, payload, i, 8, area);
      TopIsAll(payload[i]);
    }
  }

  /** The picture hardly changes: colours by at most one, alpha and the rest not at all. */
  lemma StampIsGentle(pixels: seq<byte>, payload: seq<byte>, i: nat)
    requires i < |pixels|
    ensures var r := Stamped(pixels, payload, 8 * |payload|);
            && |r| == |pixels|
            && Val(pixels[i]) - 1 <= Val(r[i]) <= Val(pixels[i]) + 1
            && (i % 4 == 3 || BitAt(i) >= 8 * |payload| ==> r[i] == pixels[i])
  {
    hide SetLsb, BitOf;
    if i % 4 < 3 && BitAt(i) < 8 * |payload| {
      SetLsbMeaning(pixels[i], PayloadBit(payload, BitAt(i)));
    }
  }

  // ----- packets -----

  datatype Crypto = Crypto(
    deriveKey: (Option<string>, seq<byte>) -> seq<byte>,
    encrypt: (seq<byte>, seq<byte>, seq<byte>) -> seq<byte>,
    decrypt: (seq<byte>, seq<byte>, seq<byte>) -> Option<seq<byte>>,
    crc: seq<byte> -> nat)
  {
    ghost predicate Lawful() {
      && (forall key, nonce, plain :: decrypt(key, nonce, encrypt(key, nonce, plain)) == Some(plain))
      && (forall s :: crc(s) < Pow256(4))
    }
  }

  /** `as u32`. */
  function Truncated(n: nat): (r: nat)
    ensures r <= n && r < 0x1_0000_0000
    ensures n < 0x1_0000_0000 ==> r == n
  {
    n % 0x1_0000_0000
  }

  /** Magic, length as 32 bits, salt, nonce, ciphertext. */
  function Body(salt: seq<byte>, nonce: seq<byte>, ciphertext: seq<byte>): (r: seq<byte>)
    ensures |r| == HEADER_LEN + |salt| + |nonce| + |ciphertext|
  {
    STEGO_MAGIC + ToBE(Truncated(|ciphertext|), 4) + salt + nonce + ciphertext
  }

  function Packet(crypto: Crypto, salt: seq<byte>, nonce: seq<byte>, ciphertext: seq<byte>): (r: seq<byte>)
    ensures |r| == HEADER_LEN + |salt| + |nonce| + |ciphertext| + 4
  {
    var body := Body(salt, nonce, ciphertext);
    body + ToBE(crypto.crc(body) % 0x1_0000_0000, 4)
  }

  datatype Extraction =
    | Extracted(plaintext: seq<byte>)
    | NoSignature
    | BadLength
    | ExceedsCapacity
    | ChecksumMismatch
    | DecryptionFailed

  /** What a packet read from an image yields. */
  function Open(crypto: Crypto, passphrase: Option<string>, packet: seq<byte>): Extraction
    requires |packet| >= OVERHEAD
  {
    var n := |packet| - 4;
    if crypto.crc(packet[..n]) != FromBE(packet[n..]) then ChecksumMismatch
    else
      match crypto.decrypt(crypto.deriveKey(passphrase, packet[10..42]), packet[42..54], packet[54..n])
      case None => DecryptionFailed
      case Some(plain) => Extracted(plain)
  }

  function ExtractFrom(crypto: Crypto, passphrase: Option<string>, pixels: seq<byte>): Extraction {
    var header := Hidden(pixels, HEADER_LEN);
    if header[..6] != STEGO_MAGIC then NoSignature
    else
      var len := FromBE(header[6..]);
      if len > MAX_PAYLOAD_LEN then BadLength
      else if 8 * (OVERHEAD + len) > 3 * (|pixels| / 4) then ExceedsCapacity
      else Open(crypto, passphrase, Hidden(pixels, OVERHEAD + len))
  }

  method Embed(img: array<byte>, width: nat, height: nat, crypto: Crypto, passphrase: Option<string>,
               salt: seq<byte>, nonce: seq<byte>, plain: seq<byte>)
    returns (ok: bool)
    requires img.Length == 4 * (width * height)
    modifies img
    ensures var packet := Packet(crypto, salt, nonce, crypto.encrypt(crypto.deriveKey(passphrase, salt), nonce, plain));
            && ok == (8 * |packet| <= 3 * (width * height))
            && img[..] == if ok then Stamped(old(img[..]), packet, 8 * |packet|) else old(img[..])
  {
    hide Stamped, ToBE;
    var key := crypto.deriveKey(passphrase, salt);
    var ciphertext := crypto.encrypt(key, nonce, plain);
    var payloadLen := Truncated(|ciphertext|);
    var rawPayload := STEGO_MAGIC + ToBE(payloadLen, 4);
    rawPayload := rawPayload + salt;
    rawPayload := rawPayload + nonce;
    rawPayload := rawPayload + ciphertext;
    rawPayload := rawPayload + ToBE(crypto.crc(rawPayload) % 0x1_0000_0000, 4);
    if |rawPayload| * 8 > width * height * 3 {
      return false;
    }
    WriteBits(img, width, height, rawPayload);
    return true;
  }

  method Extract(img: array<byte>, width: nat, height: nat, crypto: Crypto, passphrase: Option<string>)
    returns (r: Extraction)
    requires img.Length == 4 * (width * height)
    ensures r == ExtractFrom(crypto, passphrase, img[..])
  {
    hide HiddenPrefix, FromBE;
    var header := ReadBytes(img, width, height, 10);
    if header[..6] != STEGO_MAGIC {
      return NoSignature;
    }
    var payloadLen := FromBE(header[6..]);
    if payloadLen > 1_000_000 {
      return BadLength;
    }
    var totalPacketSize := 6 + 4 + 32 + 12 + payloadLen + 4;
    if totalPacketSize * 8 > width * height * 3 {
      return ExceedsCapacity;
    }
    var full := ReadBytes(img, width, height, totalPacketSize);
    var dataPart := full[..totalPacketSize - 4];
    var expectedCrc := FromBE(full[totalPacketSize - 4..]);
    if crypto.crc(dataPart) != expectedCrc {
      return ChecksumMismatch;
    }
    var key := crypto.deriveKey(passphrase, full[10..42]);
    var plaintext := crypto.decrypt(key, full[42..54], full[54..54 + payloadLen]);
    if plaintext.None? {
      return DecryptionFailed;
    }
    return Extracted(plaintext.value);
  }

  lemma BodyParts(salt: seq<byte>, nonce: seq<byte>, ciphertext: seq<byte>)
    requires |salt| == 32 && |nonce| == 12
    ensures var b := Body(salt, nonce, ciphertext);
            && |b| == 54 + |ciphertext|
            && b[..6] == STEGO_MAGIC && b[6..10] == ToBE(Truncated(|ciphertext|), 4)
            && b[10..42] == salt && b[42..54] == nonce && b[54..] == ciphertext
  {
    hide ToBE;
  }

  lemma OpenPacket(crypto: Crypto, passphrase: Option<string>, salt: seq<byte>, nonce: seq<byte>, plain: seq<byte>)
    requires crypto.Lawful() && |salt| == 32 && |nonce| == 12
    ensures var ciphertext := crypto.encrypt(crypto.deriveKey(passphrase, salt), nonce, plain);
            Open(crypto, passphrase, Packet(crypto, salt, nonce, ciphertext)) == Extracted(plain)
  {
    hide ToBE, FromBE, Body, Pow256;
    var ciphertext := crypto.encrypt(crypto.deriveKey(passphrase, salt), nonce, plain);
    var body, packet := Body(salt, nonce, ciphertext), Packet(crypto, salt, nonce, ciphertext);
    BodyParts(salt, nonce, ciphertext);
    Pow256Values();
    BERoundTrip(crypto.crc(body), 4);
    assert packet[..|packet| - 4] == body;
    assert packet[10..42] == body[10..42] && packet[42..54] == body[42..54] && packet[54..|packet| - 4] == body[54..];
  }

  /**
   A card embedded in an image that has room for it comes back under the same passphrase if its
   ciphertext is at most 1,000,000 bytes. A longer one is embedded all the same; what extraction
   does with it depends on the length as 32 bits can hold it: refused if that is too large,
   otherwise the packet is read as if it ended there.
   */
  lemma EmbedThenExtract(crypto: Crypto, passphrase: Option<string>, pixels: seq<byte>, area: nat,
                         salt: seq<byte>, nonce: seq<byte>, plain: seq<byte>)
    requires crypto.Lawful() && |salt| == 32 && |nonce| == 12 && |pixels| == 4 * area
    requires var ciphertext := crypto.encrypt(crypto.deriveKey(passphrase, salt), nonce, plain);
             8 * |Packet(crypto, salt, nonce, ciphertext)| <= 3 * area
    ensures var ciphertext := crypto.encrypt(crypto.deriveKey(passphrase, salt), nonce, plain);
            var packet := Packet(crypto, salt, nonce, ciphertext);
            var marked := Stamped(pixels, packet, 8 * |packet|);
            var length := Truncated(|ciphertext|);
            && (|ciphertext| <= MAX_PAYLOAD_LEN ==> ExtractFrom(crypto, passphrase, marked) == Extracted(plain))
            && ExtractFrom(crypto, passphrase, marked)
               == (if length > MAX_PAYLOAD_LEN then BadLength
                   else Open(crypto, passphrase, packet[..OVERHEAD + length]))
  {
    hide ToBE, FromBE, Body, Pow256, Stamped, Hidden, Open, Crypto.Lawful, Truncated;
    var ciphertext := crypto.encrypt(crypto.deriveKey(passphrase, salt), nonce, plain);
    var body, packet := Body(salt, nonce, ciphertext), Packet(crypto, salt, nonce, ciphertext);
    BodyParts(salt, nonce, ciphertext);
    OpenPacket(crypto, passphrase, salt, nonce, plain);
    HiddenIsPayload(pixels, packet, HEADER_LEN, area);
    var length := Truncated(|ciphertext|);
    if length <= MAX_PAYLOAD_LEN {
      HiddenIsPayload(pixels, packet, OVERHEAD + length, area);
    }
    Pow256Values();
    BERoundTrip(length, 4);
    assert packet[..10][..6] == body[..6] && packet[..10][6..] == body[6..10];
    assert packet[..|packet|] == packet;
  }
}

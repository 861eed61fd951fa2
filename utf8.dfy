/**
 * `encode_utf8` (include/cstring.c) and the UTF-8 byte-sequence rules of
 * section 3 of RFC 3629 it follows, with a decoder as its reference partner.
 */
module Utf8 {

  /** `UTF8MAX`: the largest Unicode codepoint. */
  const UTF8MAX: bv32 := 0x10FFFF

  /** The `(uint8_t)` cast: the low eight bits. */
  function Byte(x: bv32): bv8 {
    (x & 0xFF) as bv8
  }

  /**
   * `encode_utf8`: the bytes it writes to `out`, as many as it returns.
   * One branch per range, each writing the lead byte, then the six-bit
   * continuation chunks from the most significant down.
   */
  function EncodeUtf8(ch: bv32): (out: seq<bv8>)
    ensures 1 <= |out| <= 4
  {
    if ch < 0x80 then
      [Byte(ch)]
    else if ch < 0x800 then
      [Byte(0xC0 | (ch >> 6)), Byte(0x80 | (ch & 0x3F))]
    else if ch < 0x10000 then
      [Byte(0xE0 | (ch >> 12)), Byte(0x80 | ((ch >> 6) & 0x3F)), Byte(0x80 | (ch & 0x3F))]
    else
      [Byte(0xF0 | (ch >> 18)), Byte(0x80 | ((ch >> 12) & 0x3F)),
       Byte(0x80 | ((ch >> 6) & 0x3F)), Byte(0x80 | (ch & 0x3F))]
  }

  /** The number of octets RFC 3629 section 3 assigns to a codepoint. */
  function OctetCount(ch: bv32): nat {
    if ch <= 0x7F then 1
    else if ch <= 0x7FF then 2
    else if ch <= 0xFFFF then 3
    else 4
  }

  /**
   * The length of the sequence a lead byte announces (RFC 3629 section 3:
   * `0xxxxxxx`, `110xxxxx`, `1110xxxx`, `11110xxx`), 0 for a byte that
   * cannot lead.
   */
  function AnnouncedLength(lead: bv8): nat {
    if lead & 0x80 == 0x00 then 1
    else if lead & 0xE0 == 0xC0 then 2
    else if lead & 0xF0 == 0xE0 then 3
    else if lead & 0xF8 == 0xF0 then 4
    else 0
  }

  /** A continuation byte: `10xxxxxx`. */
  predicate IsContinuation(b: bv8) {
    b & 0xC0 == 0x80
  }

  /** One well-formed sequence: a lead byte announcing the length, then continuation bytes. */
  predicate WellFormed(b: seq<bv8>) {
    && 1 <= |b| <= 4
    && AnnouncedLength(b[0]) == |b|
    && forall i :: 1 <= i < |b| ==> IsContinuation(b[i])
  }

  /** The payload bits of a two-byte sequence: five from the lead, six from the continuation. */
  function Payload2(b0: bv8, b1: bv8): bv32 {
    ((b0 & 0x1F) as bv32 << 6) | (b1 & 0x3F) as bv32
  }

  /** The payload bits of a three-byte sequence. */
  function Payload3(b0: bv8, b1: bv8, b2: bv8): bv32 {
    ((b0 & 0x0F) as bv32 << 12) | ((b1 & 0x3F) as bv32 << 6) | (b2 & 0x3F) as bv32
  }

  /** The payload bits of a four-byte sequence. */
  function Payload4(b0: bv8, b1: bv8, b2: bv8, b3: bv8): bv32 {
    ((b0 & 0x07) as bv32 << 18) | ((b1 & 0x3F) as bv32 << 12)
      | ((b2 & 0x3F) as bv32 << 6) | (b3 & 0x3F) as bv32
  }

  /** The codepoint a well-formed sequence stands for: its payload bits, concatenated. */
  function Decode(b: seq<bv8>): bv32
    requires WellFormed(b)
  {
    if |b| == 1 then b[0] as bv32
    else if |b| == 2 then Payload2(b[0], b[1])
    else if |b| == 3 then Payload3(b[0], b[1], b[2])
    else Payload4(b[0], b[1], b[2], b[3])
  }

  /** `encode_utf8` returns 1, 2, 3 or 4 for codepoints below 0x80, 0x800, 0x10000, or above. */
  lemma EncodedLength(ch: bv32)
    ensures |EncodeUtf8(ch)| == OctetCount(ch)
  {
  }

  /** An ASCII codepoint encodes to the single byte of the same value. */
  lemma AsciiIsItself(ch: bv32)
    requires ch < 0x80
    ensures EncodeUtf8(ch) == [ch as bv8]
  {
  }

  /**
   * Up to 21 bits the output is one well-formed sequence: the lead byte has
   * the pattern of its length and every further byte is `10xxxxxx`.
   */
  lemma EncodeWellFormed(ch: bv32)
    requires ch <= 0x1F_FFFF
    ensures WellFormed(EncodeUtf8(ch))
  {
    var out := EncodeUtf8(ch);
    if ch < 0x80 {
    } else if ch < 0x800 {
      assert AnnouncedLength(out[0]) == 2 && IsContinuation(out[1]);
    } else if ch < 0x10000 {
      assert AnnouncedLength(out[0]) == 3;
      assert IsContinuation(out[1]) && IsContinuation(out[2]);
    } else {
      assert AnnouncedLength(out[0]) == 4;
      assert IsContinuation(out[1]) && IsContinuation(out[2]) && IsContinuation(out[3]);
    }
  }

  lemma Payload2OfEncoded(ch: bv32)
    requires 0x80 <= ch < 0x800
    ensures Payload2(Byte(0xC0 | (ch >> 6)), Byte(0x80 | (ch & 0x3F))) == ch
  {
  }

  lemma Payload3OfEncoded(ch: bv32)
    requires 0x800 <= ch < 0x10000
    ensures Payload3(Byte(0xE0 | (ch >> 12)), Byte(0x80 | ((ch >> 6) & 0x3F)), Byte(0x80 | (ch & 0x3F))) == ch
  {
  }

  lemma Payload4OfEncoded(ch: bv32)
    requires 0x10000 <= ch <= UTF8MAX
    ensures Payload4(Byte(0xF0 | (ch >> 18)), Byte(0x80 | ((ch >> 12) & 0x3F)),
                     Byte(0x80 | ((ch >> 6) & 0x3F)), Byte(0x80 | (ch & 0x3F))) == ch
  {
  }

  /** For every codepoint, the payload bits of the output give the codepoint back. */
  lemma DecodeEncode(ch: bv32)
    requires ch <= UTF8MAX
    ensures WellFormed(EncodeUtf8(ch)) && Decode(EncodeUtf8(ch)) == ch
  {
    EncodeWellFormed(ch);
    if ch < 0x80 {
    } else if ch < 0x800 {
      Payload2OfEncoded(ch);
    } else if ch < 0x10000 {
      Payload3OfEncoded(ch);
    } else {
      Payload4OfEncoded(ch);
    }
  }

  lemma EncodedOfPayload2(b0: bv8, b1: bv8)
    requires AnnouncedLength(b0) == 2 && IsContinuation(b1)
    requires 0x80 <= Payload2(b0, b1)
    ensures var ch := Payload2(b0, b1);
      ch < 0x800 && Byte(0xC0 | (ch >> 6)) == b0 && Byte(0x80 | (ch & 0x3F)) == b1
  {
  }

  lemma EncodedOfPayload3(b0: bv8, b1: bv8, b2: bv8)
    requires AnnouncedLength(b0) == 3 && IsContinuation(b1) && IsContinuation(b2)
    requires 0x800 <= Payload3(b0, b1, b2)
    ensures var ch := Payload3(b0, b1, b2);
      && ch < 0x10000 && Byte(0xE0 | (ch >> 12)) == b0
      && Byte(0x80 | ((ch >> 6) & 0x3F)) == b1 && Byte(0x80 | (ch & 0x3F)) == b2
  {
  }

  lemma EncodedOfPayload4(b0: bv8, b1: bv8, b2: bv8, b3: bv8)
    requires AnnouncedLength(b0) == 4 && IsContinuation(b1) && IsContinuation(b2) && IsContinuation(b3)
    requires 0x10000 <= Payload4(b0, b1, b2, b3)
    ensures var ch := Payload4(b0, b1, b2, b3);
      && Byte(0xF0 | (ch >> 18)) == b0 && Byte(0x80 | ((ch >> 12) & 0x3F)) == b1
      && Byte(0x80 | ((ch >> 6) & 0x3F)) == b2 && Byte(0x80 | (ch & 0x3F)) == b3
  {
  }

  lemma ThreeByteForm(ch: bv32, b0: bv8, b1: bv8, b2: bv8)
    requires 0x800 <= ch < 0x10000
    requires Byte(0xE0 | (ch >> 12)) == b0 && Byte(0x80 | ((ch >> 6) & 0x3F)) == b1
    requires Byte(0x80 | (ch & 0x3F)) == b2
    ensures EncodeUtf8(ch) == [b0, b1, b2]
  {
  }

  lemma FourByteForm(ch: bv32, b0: bv8, b1: bv8, b2: bv8, b3: bv8)
    requires 0x10000 <= ch
    requires Byte(0xF0 | (ch >> 18)) == b0 && Byte(0x80 | ((ch >> 12) & 0x3F)) == b1
    requires Byte(0x80 | ((ch >> 6) & 0x3F)) == b2 && Byte(0x80 | (ch & 0x3F)) == b3
    ensures EncodeUtf8(ch) == [b0, b1, b2, b3]
  {
  }

  /**
   * Conversely, a well-formed, shortest-form sequence for a codepoint is
   * exactly what `encode_utf8` produces for it.
   */
  lemma EncodeDecode(b: seq<bv8>)
    requires WellFormed(b) && Decode(b) <= UTF8MAX
    requires OctetCount(Decode(b)) == |b|
    ensures EncodeUtf8(Decode(b)) == b
  {
    if |b| == 2 {
      EncodeDecodeTwo(b);
    } else if |b| == 3 {
      EncodeDecodeThree(b);
    } else if |b| == 4 {
      EncodeDecodeFour(b);
    }
  }

  lemma EncodeDecodeTwo(b: seq<bv8>)
    requires |b| == 2 && WellFormed(b) && OctetCount(Decode(b)) == 2
    ensures EncodeUtf8(Decode(b)) == b
  {
    assert IsContinuation(b[1]);
    EncodedOfPayload2(b[0], b[1]);
  }

  lemma EncodeDecodeThree(b: seq<bv8>)
    requires |b| == 3 && WellFormed(b) && OctetCount(Decode(b)) == 3
    ensures EncodeUtf8(Decode(b)) == b
  {
    var b0, b1, b2 := b[0], b[1], b[2];
    assert AnnouncedLength(b0) == 3 && IsContinuation(b1) && IsContinuation(b2);
    assert Decode(b) == Payload3(b0, b1, b2);
    EncodeThree(b0, b1, b2);
    assert b == [b0, b1, b2];
  }

  lemma EncodeThree(b0: bv8, b1: bv8, b2: bv8)
    requires AnnouncedLength(b0) == 3 && IsContinuation(b1) && IsContinuation(b2)
    requires OctetCount(Payload3(b0, b1, b2)) == 3
    ensures EncodeUtf8(Payload3(b0, b1, b2)) == [b0, b1, b2]
  {
    EncodedOfPayload3(b0, b1, b2);
    ThreeByteForm(Payload3(b0, b1, b2), b0, b1, b2);
  }

  lemma EncodeDecodeFour(b: seq<bv8>)
    requires |b| == 4 && WellFormed(b) && OctetCount(Decode(b)) == 4
    ensures EncodeUtf8(Decode(b)) == b
  {
    var b0, b1, b2, b3 := b[0], b[1], b[2], b[3];
    assert AnnouncedLength(b0) == 4 && IsContinuation(b1) && IsContinuation(b2) && IsContinuation(b3);
    assert Decode(b) == Payload4(b0, b1, b2, b3);
    EncodeFour(b0, b1, b2, b3);
    assert b == [b0, b1, b2, b3];
  }

  lemma EncodeFour(b0: bv8, b1: bv8, b2: bv8, b3: bv8)
    requires AnnouncedLength(b0) == 4 && IsContinuation(b1) && IsContinuation(b2) && IsContinuation(b3)
    requires OctetCount(Payload4(b0, b1, b2, b3)) == 4
    ensures EncodeUtf8(Payload4(b0, b1, b2, b3)) == [b0, b1, b2, b3]
  {
    EncodedOfPayload4(b0, b1, b2, b3);
    FourByteForm(Payload4(b0, b1, b2, b3), b0, b1, b2, b3);
  }
}

/**
 * The bit framer: bytes to bits and back (`to_bits`, `from_bits`), and the
 * length-prefixed frame the tool embeds: the envelope's byte length written as
 * a 32-digit big-endian binary number, then every envelope byte as 8 bits,
 * most-significant bit first. `Unframe` is the decoder's reading of that frame
 * from the carrier's bitstream.
 */
module Framer {
  import opened Bits
  import opened Slicing
  import opened Results

  /** Width of the length prefix, as in `format(data_len, '032b')`. */
  const LengthWidth: nat := 32

  /** `''.join(format(byte, '08b') for byte in data)`. */
  function ToBits(data: seq<Byte>): (bits: seq<Bit>)
    ensures |bits| == 8 * |data|
  {
    if data == [] then []
    else
      assert Pow2(8) == 256;
      BigEndian(data[0], 8) + ToBits(data[1..])
  }

  /**
   * `bytes(int(bits[i:i+8], 2) for i in range(0, len(bits), 8))`: consecutive
   * groups of 8 bits, the last one possibly shorter, each parsed big-endian.
   */
  function FromBits(bits: seq<Bit>): (data: seq<Byte>)
    ensures |data| == (|bits| + 7) / 8
    decreases |bits|
  {
    if bits == [] then []
    else
      var chunk := bits[..Min(8, |bits|)];
      Pow2Monotone(|chunk|, 8);
      [ParseBits(chunk) as Byte] + FromBits(bits[|chunk|..])
  }

  /** Bits 8i .. 8i+7 of `ToBits(data)` are byte i written at width 8. */
  lemma {:induction false} ToBitsChunk(data: seq<Byte>, i: nat)
    requires i < |data|
    ensures ToBits(data)[8 * i .. 8 * i + 8] == BigEndian(data[i], 8)
  {
    assert Pow2(8) == 256;
    var head := BigEndian(data[0], 8);
    assert ToBits(data) == head + ToBits(data[1..]);
    if i > 0 {
      ToBitsChunk(data[1..], i - 1);
      assert ToBits(data)[8 * i .. 8 * i + 8] == ToBits(data[1..])[8 * (i - 1) .. 8 * (i - 1) + 8];
    }
  }

  /**
   * `to_bits` writes each byte most-significant bit first: bit 8i+j of the
   * result is bit 7-j of byte i.
   */
  lemma ToBitsAt(data: seq<Byte>, i: nat, j: nat)
    requires i < |data| && j < 8
    ensures ToBits(data)[8 * i + j] == (data[i] / Pow2(7 - j)) % 2
  {
    assert Pow2(8) == 256;
    ToBitsChunk(data, i);
    assert ToBits(data)[8 * i + j] == ToBits(data)[8 * i .. 8 * i + 8][j];
    BigEndianBitAt(data[i], 8, j);
  }

  /** `from_bits(to_bits(d)) == d` for every byte string d. */
  lemma {:induction false} FromBitsToBits(data: seq<Byte>)
    ensures FromBits(ToBits(data)) == data
  {
    if data != [] {
      assert Pow2(8) == 256;
      var bits := ToBits(data);
      var head := BigEndian(data[0], 8);
      assert bits == head + ToBits(data[1..]);
      assert bits[..8] == head;
      assert bits[8..] == ToBits(data[1..]);
      ParseBigEndian(data[0], 8);
      FromBitsToBits(data[1..]);
    }
  }

  /** `to_bits(from_bits(b)) == b` for every bit string whose length is a multiple of 8. */
  lemma {:induction false} ToBitsFromBits(bits: seq<Bit>)
    requires |bits| % 8 == 0
    ensures ToBits(FromBits(bits)) == bits
    decreases |bits|
  {
    if bits != [] {
      var chunk := bits[..8];
      BigEndianParse(chunk);
      ToBitsFromBits(bits[8..]);
      assert bits == chunk + bits[8..];
    }
  }

  /**
   * `format(len(env), '032b') + to_bits(env)`. The prefix is exactly 32 bits,
   * and the frame exactly 32 + 8 |env| bits, precisely when |env| < 2^32;
   * a longer envelope gets a longer prefix that the decoder cannot read back.
   */
  function Frame(env: seq<Byte>): (bits: seq<Bit>)
    ensures |bits| == LengthWidth + 8 * |env| <==> |env| < Pow2(LengthWidth)
    ensures |bits| >= LengthWidth + 8 * |env|
  {
    BigEndian(|env|, LengthWidth) + ToBits(env)
  }

  /**
   * The decoder's reading of the carrier bitstream: `bits[:32]` parsed as
   * the byte length n, then `from_bits(bits[32:32 + 8n])`. Python's slices
   * clamp, so a short carrier yields a short envelope rather than an error;
   * the only failure is `int('', 2)` on an empty carrier.
   */
  function Unframe(bits: seq<Bit>): (env: Option<seq<Byte>>)
    ensures env.None? <==> bits == []
    ensures |bits| >= LengthWidth && |bits| >= LengthWidth + 8 * ParseBits(bits[..LengthWidth]) ==>
              env.Some? && |env.value| == ParseBits(bits[..LengthWidth])
  {
    var lenBits := PySlice(bits, 0, LengthWidth);
    if lenBits == [] then None
    else
      var n := ParseBits(lenBits);
      Some(FromBits(PySlice(bits, LengthWidth, LengthWidth + 8 * n)))
  }

  /** The 32-bit length prefix of an envelope under 2^32 bytes reads back as its length. */
  lemma LengthPrefix(env: seq<Byte>)
    requires |env| < Pow2(LengthWidth)
    ensures Frame(env)[..LengthWidth] == BigEndian(|env|, LengthWidth)
    ensures Frame(env)[LengthWidth..] == ToBits(env)
    ensures ParseBits(Frame(env)[..LengthWidth]) == |env|
  {
    var prefix := BigEndian(|env|, LengthWidth);
    assert |prefix| == LengthWidth;
    assert Frame(env) == prefix + ToBits(env);
    ParseBigEndian(|env|, LengthWidth);
  }

  /**
   * Unframing any bitstream that starts with the frame of an envelope of fewer
   * than 2^32 bytes returns that envelope, whatever bits follow the frame.
   */
  lemma UnframeFrame(env: seq<Byte>, bits: seq<Bit>)
    requires |env| < Pow2(LengthWidth)
    requires |Frame(env)| <= |bits| && bits[..|Frame(env)|] == Frame(env)
    ensures Unframe(bits) == Some(env)
  {
    var frame := Frame(env);
    LengthPrefix(env);
    assert |frame| == LengthWidth + 8 * |env|;
    var lenBits := PySlice(bits, 0, LengthWidth);
    assert lenBits == frame[..LengthWidth];
    assert ParseBits(lenBits) == |env|;
    var payload := PySlice(bits, LengthWidth, LengthWidth + 8 * |env|);
    assert payload == frame[LengthWidth..];
    FromBitsToBits(env);
    assert FromBits(payload) == env;
  }

  /**
   * Framing is determined by its payload: a bitstream made of a 32-bit length
   * prefix and exactly that many bytes of payload unframes to an envelope
   * whose frame is the bitstream itself.
   */
  lemma FrameUnframe(bits: seq<Bit>)
    requires |bits| >= LengthWidth
    requires |bits| == LengthWidth + 8 * ParseBits(bits[..LengthWidth])
    ensures Unframe(bits).Some? && Frame(Unframe(bits).value) == bits
  {
    var lenBits := bits[..LengthWidth];
    var n := ParseBits(lenBits);
    var payload := bits[LengthWidth..];
    assert PySlice(bits, 0, LengthWidth) == lenBits;
    assert PySlice(bits, LengthWidth, LengthWidth + 8 * n) == payload;
    var env := FromBits(payload);
    assert Unframe(bits) == Some(env);
    ToBitsFromBits(payload);
    BigEndianParse(lenBits);
    assert |env| == n;
    assert Frame(env) == lenBits + payload;
    assert bits == lenBits + payload;
  }
}

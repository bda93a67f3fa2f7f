/**
 * The pixel carrier: an image as the ordered sequence of its RGB pixels in
 * raster order, seen as a flat sequence of 3 x |pixels| channels (channel 3j
 * is pixel j's red, 3j+1 its green, 3j+2 its blue). The embedder overwrites
 * the least-significant bit of the first channels with the frame's bits; the
 * extractor reads back the least-significant bit of every channel.
 */
module Carrier {
  import opened Bits

  datatype Pixel = Pixel(r: Byte, g: Byte, b: Byte)

  /** Flat channel k of the pixel sequence, R, G, B within each pixel. */
  function Channel(pixels: seq<Pixel>, k: nat): Byte
    requires k < 3 * |pixels|
  {
    var p := pixels[k / 3];
    if k % 3 == 0 then p.r else if k % 3 == 1 then p.g else p.b
  }

  /**
   * `(c & ~1) | bit`: the channel with its lowest bit replaced by `bit`.
   * On a non-negative c, `c & ~1` clears bit 0, which is c - c % 2, and OR-ing
   * a 0/1 bit into that even number adds it.
   */
  function SetLsb(c: Byte, bit: Bit): (r: Byte)
    ensures r % 2 == bit
    ensures r / 2 == c / 2
  {
    c - c % 2 + bit
  }

  /**
   * `stego` is `orig` with `bits` embedded: the same number of pixels, every
   * channel keeps its upper seven bits, the first |bits| channels carry the
   * bits in order in their lowest bit, and every later channel is unchanged.
   */
  ghost predicate Carries(orig: seq<Pixel>, stego: seq<Pixel>, bits: seq<Bit>)
  {
    |stego| == |orig| &&
    forall k :: 0 <= k < 3 * |orig| ==>
      Channel(stego, k) / 2 == Channel(orig, k) / 2 &&
      (k < |bits| ==> Channel(stego, k) % 2 == bits[k]) &&
      (k >= |bits| ==> Channel(stego, k) == Channel(orig, k))
  }

  /**
   * The embedding loop of `hide_message_in_image_obj`: pixels are visited in
   * order and, within each, R then G then B; while `bitIdx` is short of
   * |bits| the visited channel takes the next bit. The capacity check is the
   * caller's; bits beyond the last channel are simply not embedded.
   */
  method EmbedBits(pixels: seq<Pixel>, bits: seq<Bit>) returns (newPixels: seq<Pixel>)
    ensures |bits| <= 3 * |pixels| ==> Carries(pixels, newPixels, bits)
    ensures |newPixels| == |pixels|
    ensures forall k :: 0 <= k < 3 * |pixels| ==>
      Channel(newPixels, k) == if k < |bits| then SetLsb(Channel(pixels, k), bits[k]) else Channel(pixels, k)
  {
    newPixels := [];
    var bitIdx := 0;
    for i := 0 to |pixels|
      invariant |newPixels| == i
      invariant bitIdx == if 3 * i <= |bits| then 3 * i else |bits|
      invariant forall k :: 0 <= k < 3 * i ==>
        Channel(newPixels, k) == if k < |bits| then SetLsb(Channel(pixels, k), bits[k]) else Channel(pixels, k)
    {
      var r, g, b := pixels[i].r, pixels[i].g, pixels[i].b;
      if bitIdx < |bits| {
        r := SetLsb(r, bits[bitIdx]);
        bitIdx := bitIdx + 1;
      }
      if bitIdx < |bits| {
        g := SetLsb(g, bits[bitIdx]);
        bitIdx := bitIdx + 1;
      }
      if bitIdx < |bits| {
        b := SetLsb(b, bits[bitIdx]);
        bitIdx := bitIdx + 1;
      }
      newPixels := newPixels + [Pixel(r, g, b)];
    }
  }

  /** The least-significant bit of every channel, in channel order. */
  function Lsbs(pixels: seq<Pixel>): seq<Bit>
  {
    seq(3 * |pixels|, k requires 0 <= k < 3 * |pixels| => Channel(pixels, k) % 2)
  }

  /**
   * The extraction loops of `extract_message_from_image_obj`: `channel & 1`
   * appended for every channel of every pixel.
   */
  method ExtractBits(pixels: seq<Pixel>) returns (bits: seq<Bit>)
    ensures |bits| == 3 * |pixels|
    ensures forall k :: 0 <= k < 3 * |pixels| ==> bits[k] == Channel(pixels, k) % 2
    ensures bits == Lsbs(pixels)
  {
    bits := [];
    for i := 0 to |pixels|
      invariant |bits| == 3 * i
      invariant forall k :: 0 <= k < 3 * i ==> bits[k] == Channel(pixels, k) % 2
    {
      var channels := [pixels[i].r, pixels[i].g, pixels[i].b];
      for j := 0 to 3
        invariant |bits| == 3 * i + j
        invariant forall k :: 0 <= k < 3 * i + j ==> bits[k] == Channel(pixels, k) % 2
      {
        bits := bits + [channels[j] % 2];
      }
    }
  }

  /** The extracted bitstream of a carrier that carries `bits` begins with `bits`. */
  lemma LsbsCarried(orig: seq<Pixel>, stego: seq<Pixel>, bits: seq<Bit>)
    requires Carries(orig, stego, bits) && |bits| <= 3 * |orig|
    ensures Lsbs(stego)[..|bits|] == bits
  {
  }

  /** Embedding is deterministic: at most one pixel sequence carries given bits in a given image. */
  lemma CarriesUnique(orig: seq<Pixel>, s1: seq<Pixel>, s2: seq<Pixel>, bits: seq<Bit>)
    requires Carries(orig, s1, bits) && Carries(orig, s2, bits)
    ensures s1 == s2
  {
    forall j | 0 <= j < |s1|
      ensures s1[j] == s2[j]
    {
      assert Channel(s1, 3 * j) == Channel(s2, 3 * j);
      assert Channel(s1, 3 * j + 1) == Channel(s2, 3 * j + 1);
      assert Channel(s1, 3 * j + 2) == Channel(s2, 3 * j + 2);
    }
  }
}

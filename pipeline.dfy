/**
 * The decode side of the payload pipeline as one function of the carrier,
 * shared by both entry points, and the end-to-end round trip: a carrier that
 * carries the frame of an envelope decodes, under the same password, to the
 * message that was sealed in it.
 */
module Pipeline {
  import opened Bits
  import opened Results
  import opened Framer
  import opened Envelope
  import opened Carrier

  /**
   * Read every channel's lowest bit, unframe the envelope, decrypt it.
   * The only failures are an empty carrier (`int('', 2)` on the length
   * prefix) and the cipher rejecting the token.
   */
  function Decoded(pixels: seq<Pixel>, password: string, c: Crypto): (r: Result<seq<Byte>, Error>)
    ensures r.Failure? ==> r.error == EmptyLength || r.error == InvalidToken
    ensures r.Failure? && r.error == EmptyLength <==> pixels == []
  {
    match Unframe(Lsbs(pixels))
    case None => Failure(EmptyLength)
    case Some(env) => DecryptMessage(env, password, c)
  }

  /**
   * Round trip: if `stego` carries the frame of the envelope sealing `message`
   * under `password` and the frame fitted, decoding `stego` with `password`
   * returns `message`. The envelope must be shorter than 2^32 bytes so that
   * its length prefix is 32 bits wide.
   */
  lemma {:induction false} EncodeDecode(pixels: seq<Pixel>, stego: seq<Pixel>, message: seq<Byte>,
                                        password: string, salt: seq<Byte>, c: Crypto)
    requires Sound(c) && |salt| == SaltLength
    requires |EncryptMessage(message, password, salt, c)| < Pow2(LengthWidth)
    requires |Frame(EncryptMessage(message, password, salt, c))| <= 3 * |pixels|
    requires Carries(pixels, stego, Frame(EncryptMessage(message, password, salt, c)))
    ensures Decoded(stego, password, c) == Success(message)
  {
    var env := EncryptMessage(message, password, salt, c);
    var frame := Frame(env);
    LsbsCarried(pixels, stego, frame);
    UnframeFrame(env, Lsbs(stego));
    DecryptEncrypt(message, password, salt, c);
  }
}

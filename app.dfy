/**
 * The HTTP entry point's encode and decode functions, on in-memory pixels:
 * encoding raises ValueError when the frame does not fit (no image is
 * produced), decoding lets every failure propagate to the endpoint.
 */
module App {
  import opened Bits
  import opened Results
  import opened Framer
  import opened Envelope
  import opened Carrier
  import opened Pipeline

  /**
   * `hide_message_in_image_obj`: seal the message, frame it, refuse a frame
   * longer than 3 x |pixels| before touching any pixel, otherwise embed it.
   */
  method HideMessageInImageObj(pixels: seq<Pixel>, message: seq<Byte>, password: string,
                               salt: seq<Byte>, c: Crypto)
    returns (r: Result<seq<Pixel>, Error>)
    requires |salt| == SaltLength
    ensures r.Failure? <==> |Frame(EncryptMessage(message, password, salt, c))| > 3 * |pixels|
    ensures r.Failure? ==> r.error == CapacityError
    ensures r.Success? ==> Carries(pixels, r.value, Frame(EncryptMessage(message, password, salt, c)))
  {
    var encryptedData := EncryptMessage(message, password, salt, c);
    var dataBits := Frame(encryptedData);
    var totalChannels := 3 * |pixels|;
    if |dataBits| > totalChannels {
      return Failure(CapacityError);
    }
    var newPixels := EmbedBits(pixels, dataBits);
    return Success(newPixels);
  }

  /**
   * `extract_message_from_image_obj`: collect every channel's lowest bit,
   * unframe, decrypt.
   */
  method ExtractMessageFromImageObj(pixels: seq<Pixel>, password: string, c: Crypto)
    returns (r: Result<seq<Byte>, Error>)
    ensures r == Decoded(pixels, password, c)
  {
    var bits := ExtractBits(pixels);
    var unframed := Unframe(bits);
    if unframed.None? {
      return Failure(EmptyLength);
    }
    r := DecryptMessage(unframed.value, password, c);
  }
}

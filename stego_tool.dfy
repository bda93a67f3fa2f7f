/**
 * The command-line entry point's encode and decode functions, on in-memory
 * pixels. They differ from the HTTP ones only in how they fail: encoding
 * reports a too-small image and returns without producing an image, and
 * decoding catches a decryption failure and reports it instead of raising.
 */
module StegoTool {
  import opened Bits
  import opened Results
  import opened Framer
  import opened Envelope
  import opened Carrier
  import opened Pipeline

  /** What the decoder reports once it has read an envelope. */
  datatype Report = HiddenMessage(message: seq<Byte>) | DecryptFailed

  /**
   * `hide_message_in_image`: None when the frame does not fit (the error is
   * printed and nothing is saved), otherwise the pixels to save.
   */
  method HideMessageInImage(pixels: seq<Pixel>, message: seq<Byte>, password: string,
                            salt: seq<Byte>, c: Crypto)
    returns (saved: Option<seq<Pixel>>)
    requires |salt| == SaltLength
    ensures saved.None? <==> |Frame(EncryptMessage(message, password, salt, c))| > 3 * |pixels|
    ensures saved.Some? ==> Carries(pixels, saved.value, Frame(EncryptMessage(message, password, salt, c)))
  {
    var encryptedData := EncryptMessage(message, password, salt, c);
    var dataBits := Frame(encryptedData);
    var totalChannels := 3 * |pixels|;
    if |dataBits| > totalChannels {
      return None;
    }
    var newPixels := EmbedBits(pixels, dataBits);
    return Some(newPixels);
  }

  /**
   * `extract_message_from_image`: the length prefix is parsed outside the
   * `try`, so an empty carrier still raises; a rejected token is caught and
   * reported as a failed decryption.
   */
  method ExtractMessageFromImage(pixels: seq<Pixel>, password: string, c: Crypto)
    returns (r: Result<Report, Error>)
    ensures r.Failure? <==> pixels == []
    ensures r.Failure? ==> r.error == EmptyLength
    ensures r.Success? ==>
      (r.value.HiddenMessage? <==> Decoded(pixels, password, c).Success?)
    ensures r.Success? && r.value.HiddenMessage? ==> r.value.message == Decoded(pixels, password, c).value
  {
    var bits := ExtractBits(pixels);
    var unframed := Unframe(bits);
    if unframed.None? {
      return Failure(EmptyLength);
    }
    var decrypted := DecryptMessage(unframed.value, password, c);
    if decrypted.Failure? {
      return Success(DecryptFailed);
    }
    return Success(HiddenMessage(decrypted.value));
  }
}

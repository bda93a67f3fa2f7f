/**
 * The authenticated envelope: a 16-byte salt followed by the cipher's token.
 * The key derivation (PBKDF2-HMAC-SHA256 with 100000 iterations and a 32-byte
 * output, then base64url text) and the Fernet cipher are library code; they
 * are the function-valued fields of a `Crypto` value, and the one property the
 * tool relies on, that decryption undoes encryption under the same key, is the
 * predicate `Sound`. The byte layout around them is modelled exactly.
 */
module Envelope {
  import opened Bits
  import opened Slicing
  import opened Results

  /** `os.urandom(16)`: the salt is 16 bytes long. */
  const SaltLength: nat := 16

  /**
   * `deriveKey(password, salt)` is the encoded key; `encrypt(key, plain)` is a
   * Fernet token (its IV and timestamp are folded into the function chosen);
   * `decrypt(key, token)` is None where Fernet raises InvalidToken.
   */
  datatype Crypto = Crypto(
    deriveKey: (string, seq<Byte>) -> seq<Byte>,
    encrypt: (seq<Byte>, seq<Byte>) -> seq<Byte>,
    decrypt: (seq<Byte>, seq<Byte>) -> Option<seq<Byte>>)

  /** Decrypting a token under the key that produced it gives back the plaintext. */
  ghost predicate Sound(c: Crypto)
  {
    forall key, plain :: c.decrypt(key, c.encrypt(key, plain)) == Some(plain)
  }

  /** `salt + token`. */
  function Seal(salt: seq<Byte>, token: seq<Byte>): (env: seq<Byte>)
    requires |salt| == SaltLength
    ensures |env| == SaltLength + |token|
    ensures Split(env) == (salt, token)
  {
    salt + token
  }

  /**
   * `(encrypted_data[:16], encrypted_data[16:])`. With Python's slices this
   * never fails: an envelope shorter than 16 bytes is all salt and no token.
   */
  function Split(env: seq<Byte>): (parts: (seq<Byte>, seq<Byte>))
    ensures parts.0 + parts.1 == env
    ensures |parts.0| == Min(SaltLength, |env|)
  {
    SplitJoin(env, SaltLength);
    (PySlice(env, 0, SaltLength), PySlice(env, SaltLength, |env|))
  }

  /** `encrypt_message`, with the random salt passed in. */
  function EncryptMessage(message: seq<Byte>, password: string, salt: seq<Byte>, c: Crypto): (env: seq<Byte>)
    requires |salt| == SaltLength
    ensures Split(env) == (salt, c.encrypt(c.deriveKey(password, salt), message))
  {
    var key := c.deriveKey(password, salt);
    Seal(salt, c.encrypt(key, message))
  }

  /**
   * `decrypt_message`: the key is re-derived from the salt found in the first
   * 16 bytes and the remainder is handed to the cipher, which alone decides
   * whether the envelope is acceptable.
   */
  function DecryptMessage(env: seq<Byte>, password: string, c: Crypto): (r: Result<seq<Byte>, Error>)
    ensures r.Failure? ==> r.error == InvalidToken
    ensures r.Success? <==> c.decrypt(c.deriveKey(password, Split(env).0), Split(env).1).Some?
  {
    var (salt, token) := Split(env);
    match c.decrypt(c.deriveKey(password, salt), token)
    case None => Failure(InvalidToken)
    case Some(plain) => Success(plain)
  }

  /** With a sound cipher, an envelope decrypts under the password it was made with. */
  lemma DecryptEncrypt(message: seq<Byte>, password: string, salt: seq<Byte>, c: Crypto)
    requires Sound(c) && |salt| == SaltLength
    ensures DecryptMessage(EncryptMessage(message, password, salt, c), password, c) == Success(message)
  {
  }
}

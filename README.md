# LSB steganography payload pipeline, in Dafny

This project models the encode/decode payload pipeline of a small steganography tool. The tool hides a
password-protected message in the least-significant bits (LSBs) of an RGB image. Encoding takes five steps:

- It derives a key from the password and a fresh 16-byte salt.
- It encrypts the message and prepends the salt, which gives the *envelope*.
- It frames the envelope: the envelope's byte length as 32 binary digits, then each envelope byte as 8 bits,
  most-significant bit first.
- It refuses the frame if it is longer than the image has channels (3 per pixel).
- Otherwise it writes the frame's bits, one per channel, into the lowest bit of the channels. Channels are visited
  pixel by pixel in raster order, and R, G, B within each pixel.

Decoding reads every channel's lowest bit and parses the first 32 as the length n. It regroups the next 8n bits into
bytes, splits off the salt, and decrypts.

The same pipeline appears twice in the source: once behind the HTTP endpoints in `app.py` and once behind the
command-line prompt in `stego_tool.py` (`stego_tool.py:9-44` repeats `app.py:26-60` line for line). It is modelled
once, in these modules:

- `Bits` (`bits.dfy`): bytes and bits as integer subset types. `BigEndian` is Python's `format(n, '0Wb')`, which pads
  but never truncates. `ParseBits` is `int(s, 2)`.
- `Slicing` (`slicing.dfy`): Python's clamping slice `s[lo:hi]`.
- `Framer` (`framer.dfy`): `to_bits`, `from_bits`, the length-prefixed frame and the decoder's reading of it.
- `Envelope` (`envelope.dfy`): the salt/token layout. The key derivation and the cipher are opaque functions.
- `Carrier` (`carrier.dfy`): pixels, the flat channel view, the embedding loop and the extraction loop.
- `Pipeline` (`pipeline.dfy`): decoding as one function, and the end-to-end round trip.
- `App` (`app.dfy`) and `StegoTool` (`stego_tool.dfy`): the two entry points. Each has its own error behaviour.

The embedding and extraction loops are methods with loop invariants. Like the source, they build a new pixel list
and a new bit list rather than updating anything in place. The conversions are functions.

Behaviour of the code worth knowing:

- The decoder never reports truncated data. It slices leniently, so a short carrier yields a short envelope, which
  the cipher then rejects. The only framing failure is `int('', 2)` on an empty carrier
  (`EmptyLength`).
- The length prefix is 32 bits only for envelopes shorter than 2^32 bytes, because `format` does not truncate.
  `Frame` states this as an if-and-only-if. The round trip requires it.
- A capacity failure is a `ValueError` in `app.py` and a printed message plus a bare `return` in `stego_tool.py`.
- A decryption failure is Fernet's `InvalidToken`. `app.py` lets it propagate. `stego_tool.py` catches it and
  reports it.

## Model

| member | source | states |
|---|---|---|
| `Bits.BigEndian` | app.py:67 | `format(n, '0Wb')` is never shorter than W digits, and is exactly W digits iff n < 2^W |
| `Bits.ParseBits` | app.py:108 | `int(s, 2)` of a digit string is below 2^len(s) |
| `Bits.ParseBigEndian` | app.py:67-68 | parsing what `format` wrote returns the number, at any width |
| `Bits.BigEndianParse` | app.py:60 | writing a parsed digit string at its own width reproduces it exactly |
| `Bits.BigEndianBitAt` | app.py:56 | digit j of an in-range number written at width W is bit W-1-j: most-significant bit first |
| `Framer.ToBits` | app.py:54-56 | `to_bits` emits exactly 8 bits per byte |
| `Framer.ToBitsChunk` | app.py:56 | bits 8i..8i+7 of `to_bits(d)` are byte i written as 8 binary digits |
| `Framer.ToBitsAt` | stego_tool.py:37-39 | bit 8i+j of `to_bits(d)` is bit 7-j of byte i |
| `Framer.FromBits` | app.py:58-60 | `from_bits` yields one byte per group of 8 bits, with a shorter last group counting as one |
| `Framer.FromBitsToBits` | app.py:54-60 | `from_bits(to_bits(d)) == d` for every byte string |
| `Framer.ToBitsFromBits` | stego_tool.py:37-44 | `to_bits(from_bits(b)) == b` for every bit string whose length is a multiple of 8 |
| `Framer.Frame` | app.py:66-68 | the frame is exactly 32 + 8 len(env) bits iff len(env) < 2^32, and never shorter |
| `Framer.LengthPrefix` | app.py:67 | for an envelope under 2^32 bytes, the frame's first 32 bits are its length written big-endian and parse back to that length, and the rest is `to_bits(env)` |
| `Framer.Unframe` | app.py:107-111 | decoding fails only on an empty bitstream; when the bitstream holds the declared n bytes, exactly n bytes come out |
| `Framer.UnframeFrame` | app.py:107-111 | any bitstream that starts with the frame of an envelope under 2^32 bytes unframes to that envelope, whatever follows |
| `Framer.FrameUnframe` | stego_tool.py:98-103 | a bitstream of a 32-bit prefix n and exactly 8n payload bits unframes to an envelope whose frame is that bitstream |
| `Slicing.PySlice` | app.py:110 | a Python slice agrees with an exact slice when in range, has the clamped length, and holds the elements from `lo` on |
| `Slicing.SplitJoin` | app.py:46-47 | `s[:k] + s[k:] == s` for every k |
| `Envelope.Seal` | app.py:42 | `salt + token` has length 16 + len(token), and splitting it at 16 gives back salt and token |
| `Envelope.Split` | stego_tool.py:30-31 | the two parts rejoin to the envelope, and the salt part is min(16, len) bytes |
| `Envelope.EncryptMessage` | app.py:36-42 | the envelope splits into the salt and the token of the message under the key derived from password and salt |
| `Envelope.DecryptMessage` | app.py:44-51 | decryption succeeds iff the cipher accepts the token under the key derived from the first 16 bytes; otherwise it is `InvalidToken` |
| `Envelope.DecryptEncrypt` | stego_tool.py:19-35 | with a sound cipher, decrypting an envelope with the password it was made with returns the message |
| `Carrier.SetLsb` | app.py:83 | `(c & ~1) \| bit` has lowest bit `bit` and the same upper seven bits as c |
| `Carrier.EmbedBits` | app.py:78-91 | same pixel count; channel k < len(bits) has its LSB replaced by bits[k]; every later channel is unchanged; this is `Carries` when the bits fit |
| `Carrier.ExtractBits` | app.py:102-105 | exactly 3 len(pixels) bits; bit k is the LSB of flat channel k (R, G, B within each pixel, pixels in order) |
| `Carrier.LsbsCarried` | stego_tool.py:93-96 | the extracted bits of a carrier holding `bits` begin with `bits` |
| `Carrier.CarriesUnique` | stego_tool.py:66-79 | at most one pixel sequence carries given bits in a given image, so the embedding contract fixes the output |
| `Pipeline.Decoded` | app.py:97-113 | decoding fails with `EmptyLength` iff the carrier is empty, and otherwise only with `InvalidToken` |
| `Pipeline.EncodeDecode` | app.py:63-113 | a carrier holding the frame of a sealed message decodes, with the same password, to that message |
| `App.HideMessageInImageObj` | app.py:63-95 | fails with `CapacityError` iff the frame exceeds 3 len(pixels) channels; otherwise the result carries the frame |
| `App.ExtractMessageFromImageObj` | app.py:97-113 | the result is the decoding of the carrier |
| `StegoTool.HideMessageInImage` | stego_tool.py:47-84 | produces no pixels iff the frame exceeds 3 len(pixels) channels; otherwise the pixels to save carry the frame |
| `StegoTool.ExtractMessageFromImage` | stego_tool.py:86-110 | raises only on an empty carrier; reports the message iff decoding succeeds, and reports a decryption failure otherwise |

## Left out

- Key derivation (PBKDF2-HMAC-SHA256, section 5.2 of RFC 8018, then base64url, section 5 of RFC 4648) is an opaque
  field `deriveKey` of `Crypto`. It is library code.
- Fernet encryption and decryption are opaque fields of `Crypto`. Fernet's own randomness (IV, timestamp) is folded
  into the function chosen. The only property used is `Sound`: decryption undoes encryption under the same key. This
  is a precondition of the round-trip lemmas. It is never assumed.
- Wrong-password and tamper detection cannot be stated without the cipher's internals.
- UTF-8 encoding and decoding of the message are left out. The plaintext is bytes, so a `UnicodeDecodeError` after
  decryption is not modelled.
- Image I/O is left out: opening, converting to RGB, `getdata`, `Image.new`, `putdata`, `save`. The model takes and
  returns pixel sequences.
- `os.urandom(16)` is randomness. The salt is a parameter.
- The FastAPI endpoints, CORS set-up and the fixed `stego.png` path are HTTP and file plumbing.
- The interactive `main()` menu and all `print` output are console I/O. A printed capacity error is modelled as
  `None`, and a printed decryption failure as `DecryptFailed`.
- The React front end has no modellable logic.
- Bits.BigEndian: for n = 0 at width 0 it gives the empty string where Python writes "0". The tool only uses widths 8
  and 32.
- Bits.ParseBits: it gives 0 for the empty string where Python raises. The only place the tool can meet an empty
  string is the length prefix, and `Unframe` handles that case itself.

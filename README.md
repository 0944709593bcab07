# StegoSolve core, modelled in Dafny

StegoSolve is a web tool for analysing images for hidden content. This
project models the four parts of `steg_app/views.py` that compute something
rather than call out to a tool or render a page:

- **The LSB bit-stream reader** (`extract_lsb`). It visits the pixels row by
  row and keeps the parity of each red component. It stops once it has
  8 × `num_bytes` bits, then packs them eight at a time into bytes, most
  significant bit first. `Lsb.ExtractLsb` keeps the source's two loops: the
  nested scan with its two `break`s, then the packing loop, which is the
  method `Lsb.PackBits`. Both are proved against the function
  `Lsb.LsbBytes`. The matching writer `Lsb.Embed` is not in the source. It
  exists so that the round-trip lemmas can be stated.
- **The hidden-payload codec** (`key_from_passphrase`, `decrypt_message`,
  `reveal_with_passphrase`). A frame is three parts: a 4-byte big-endian
  length L, a 16-byte IV, and L bytes of AES-256-CBC ciphertext. The
  plaintext inside is PKCS#7-padded UTF-8 text. The following are modelled
  as library behaviour:
  - UTF-8 encoding and decoding, per RFC 3629 (module `Utf8`);
  - CBC decryption, per section 6.2 of NIST SP 800-38A (module `Cipher`);
  - PKCS#7 unpadding, in the order PyCryptodome checks it (module `Cipher`).

  SHA-256 and the AES block function are function-typed parameters.
- **The layer decomposition** (`get_color_channels`, `extract_bit_plane`,
  `get_all_bit_planes`, `invert_image`, `to_grayscale`, `steg_layers`).
  - An image is a row-major `Raster` of pixels.
  - A Python dict, which keeps insertion order, is a sequence of
    (key, value) pairs with distinct keys (module `OrderedMaps`).
  - `get_all_bit_planes` and `steg_layers` fill their dicts step by step.
    They are methods (`Layers.GetAllBitPlanes`, `Layers.StegLayers`).
- **The printable-string scanner** (`extract_strings_from_bytes`). The regex
  search `re.findall(b"[ -~]{n,}", data)` is an explicit left-to-right scan,
  `Strings.Matches`. It follows `re.findall`'s rules: greedy matching, and
  resuming after each match or after a failed attempt.

Files:

| file | contents |
|---|---|
| `common.dfy` | bytes, bits, big-endian u32, the exceptions, `Result` |
| `raster.dfy` | images and planes |
| `lsb.dfy` | the reader |
| `utf8.dfy` | UTF-8 |
| `cipher.dfy` | CBC, padding |
| `payload.dfy` | key, frame, reveal |
| `ordered_maps.dfy` | dicts |
| `layers.dfy` | the layer decomposition |
| `strings.dfy` | the scanner |

The exceptions are modelled as values. `ValueError` carries its reason, and
`struct.error` is a separate case. `reveal_with_passphrase` replaces every
such error raised inside its `try` with one fixed `ValueError`.

Two behaviours of the code that the model keeps:

- **The image may be 1 to 7 bits short of the requested bytes.** The code
  does not report this. It builds the last byte from the bits that remain,
  as if they were its low-order digits. Only a shortfall of 8 or more bits
  leaves some slice empty, and then `int('', 2)` raises `ValueError`.
  `Lsb.LsbShortfall` states both cases.
- **An image short of the frame by 8 or more bits has no error of its own.**
  It fails inside the `try`, so the caller sees the same fixed "wrong
  passphrase or no hidden message" error as for every other failure. An image
  only 1 to 7 bits short of the frame is read with a truncated last byte, and
  the reveal can still succeed; `Payload.RevealFrame` bounds the shortfall of
  every successful reveal at 7 bits.

## Model

| member | source | states |
|---|---|---|
| `Lsb.ExtractLsb` | steg_app/views.py:112-134 | The two-loop reader returns exactly `LsbBytes(img, numBytes)`. That is: the first min(8·numBytes, w·h) red parities in row-major order, packed into numBytes bytes; or the ValueError when some byte gets no bit at all. The scan never indexes outside the pixel grid. |
| `Lsb.LsbBytes` | steg_app/views.py:112-134 | No contract of its own: it is the specification `Lsb.ExtractLsb` is proved equal to. Its properties are stated by `Lsb.LsbLayout`, `Lsb.LsbBitOf`, `Lsb.LsbPrefix`, `Lsb.LsbShortfall`, `Lsb.LsbReadsOnlyRed` and `Lsb.LsbReadsEmbedded`. |
| `Lsb.PackBits` | steg_app/views.py:130-133 | The packing loop fails with ValueError exactly when the bit list holds 8·(numBytes−1) bits or fewer. Otherwise it returns numBytes bytes, byte i being the binary value of `bits[8i:8i+8]`. |
| `Lsb.LsbLayout` | steg_app/views.py:119-134 | With w·h ≥ 8·n, the read succeeds with exactly n bytes. Digit j (MSB first) of byte i is `r & 1` of pixel 8i+j. |
| `Lsb.LsbBitOf` | steg_app/views.py:121-133 | The same layout stated with shift and mask: bit 7−j of byte i is the red parity of pixel 8i+j. |
| `Lsb.LsbReadsOnlyRed` | steg_app/views.py:125-126 | Two images of the same size whose red components agree give the same result, whatever their green and blue. |
| `Lsb.LsbPrefix` | steg_app/views.py:121-128 | If a read of m bytes succeeds and n ≤ m, the read of n bytes succeeds and is its first n bytes. This is why the re-read from the start agrees with the header. |
| `Lsb.LsbShortfall` | steg_app/views.py:121-133 | The read fails, with the empty-digit-string ValueError, if and only if n > 0 and the image lacks 8 or more of the 8n bits. A success always has n bytes. When 1-7 bits are missing, the last byte is the value of the remaining bits. |
| `Lsb.LsbReadsEmbedded` | steg_app/views.py:112-134 | Reading any prefix of a payload written into the red parities by `Embed` returns that prefix. |
| `Common.UnpackU32` | steg_app/views.py:106 | `struct.unpack(">I", b)` succeeds if and only if b has exactly 4 bytes, with their big-endian value. Otherwise it raises struct.error. |
| `Utf8.Encode` | steg_app/views.py:103 | No contract of its own. `Utf8.DecodeEncode` proves that decoding inverts it, and `Utf8.EncodeInjective` that it is injective. |
| `Utf8.Decode` | steg_app/views.py:144 | No contract of its own. `Utf8.EncodeDecode` proves that it succeeds only on well-formed UTF-8, which re-encodes to itself, and `Utf8.DecodeEncode` that it inverts `Encode`. |
| `Payload.KeyFromPassphrase` | steg_app/views.py:102-103 | No contract of its own. `Payload.KeyDerivation` states when it succeeds, what it hashes, and its error. |
| `Utf8.EncodeInjective` | steg_app/views.py:103 | Different encodable passphrases have different UTF-8 bytes. |
| `Payload.KeyDerivation` | steg_app/views.py:102-103 | Key derivation succeeds exactly on passphrases of Unicode scalar values, and then hashes their UTF-8 bytes. Those bytes decode back to the passphrase. Otherwise it raises UnicodeEncodeError as a ValueError. |
| `Cipher.CbcDecrypt` | steg_app/views.py:109-110 | CBC decryption keeps the length. Plaintext block j is D_K(C_j) XOR C_(j−1), where C_0 is the IV. |
| `Cipher.CbcRoundTrip` | steg_app/views.py:109-110 | CBC decryption inverts CBC encryption whenever the block functions are inverse. |
| `Cipher.Unpad` | steg_app/views.py:110 | unpad raises only ValueError. A success removes between 1 and 16 trailing bytes of the input. |
| `Cipher.Pad` | steg_app/views.py:110 | The writer side of unpad: the padded string is a multiple of 16 bytes long and 1 to 16 bytes longer than its input. `Cipher.UnpadPad` and `Cipher.PadUnpad` tie it to unpad. |
| `Cipher.UnpadPad` | steg_app/views.py:110 | Unpadding a PKCS#7-padded string returns it. |
| `Cipher.PadUnpad` | steg_app/views.py:110 | Whatever unpads successfully is exactly the padding of its result. |
| `Payload.DecryptMessage` | steg_app/views.py:105-110 | No contract of its own. Its failure cases and what a success implies are `Payload.DecryptMessageCases` and `Payload.FrameLength`; `Payload.DecryptBuiltFrame` proves it inverts the frame writer, and `Payload.EmptyMessageFrame` gives one concrete frame. |
| `Payload.DecryptMessageCases` | steg_app/views.py:105-110 | The failure cases in the order the code meets them: struct.error below 4 bytes; the IV-length ValueError below 20 bytes; the alignment ValueError when `blob[20:20+L]` is not a multiple of 16 bytes. A success came from a non-empty aligned ciphertext. It decrypts to the padding of the result, which is 1 to 16 bytes shorter than the ciphertext. |
| `Payload.DecryptBuiltFrame` | steg_app/views.py:105-110 | decrypt_message inverts the frame writer (length, IV, CBC ciphertext of the padded plaintext). |
| `Payload.EmptyMessageFrame` | steg_app/views.py:105-110 | A frame with L = 16 and a zero IV, whose one block decrypts to sixteen 16s, yields the empty plaintext. |
| `Payload.RevealAttempt` | steg_app/views.py:138-144 | No contract of its own. `Payload.RevealFrame` states what a success read, `Payload.EmbeddedFrameRead` what it does on an embedded frame, and `Payload.RevealErrorsCollapse` how its errors reach the caller. |
| `Payload.RevealWithPassphrase` | steg_app/views.py:136-146 | No contract of its own. `Payload.RevealErrorsCollapse` states its outcomes and `Payload.RevealRoundTrip` its round trip. |
| `Payload.RevealErrorsCollapse` | steg_app/views.py:136-146 | For an encodable passphrase, the result is either the decoded plaintext of the attempt under the passphrase's key, or the one fixed ValueError, whichever stage failed. An unencodable passphrase fails outside the try with its own error. |
| `Payload.RevealFrame` | steg_app/views.py:139-143 | After a successful reveal, the full re-read of 20 + L bytes agrees with the header on its first 20 bytes, so L is read again unchanged. L is a non-zero multiple of 16, and the image has pixels for all but at most 7 of the frame's bits. |
| `Payload.FrameLength` | steg_app/views.py:105-110 | A blob of exactly 20 + L bytes whose length field says L decrypts only when L is a non-zero multiple of 16. |
| `Payload.EmbeddedFrameRead` | steg_app/views.py:138-144 | When a frame with a correct length field is embedded, the reveal's header read, re-read and decryption see exactly that frame: the attempt's outcome is the UTF-8 decode of the frame's plaintext, or the frame's own decryption error. |
| `Payload.RevealRoundTrip` | steg_app/views.py:136-146 | A message encrypted under the passphrase's key, framed, and embedded in a large enough image is revealed exactly. |
| `Utf8.DecodeEncode` | steg_app/views.py:144 | Decoding the UTF-8 encoding of scalar values returns them. |
| `Utf8.EncodeDecode` | steg_app/views.py:144 | Whatever decodes successfully is the encoding of its result, so decode accepts only well-formed UTF-8. |
| `Layers.Channel` | steg_app/views.py:57-59 | A channel has the image's shape, and its pixel k is that component of pixel k. |
| `Layers.GetColorChannels` | steg_app/views.py:57-59 | No contract of its own. Each entry's content is `Layers.Channel`'s contract; `Layers.ChannelLayerKeys` and `Layers.StegLayers` state its keys Red, Green, Blue in that order. |
| `Layers.ExtractBitPlane` | steg_app/views.py:61-62 | A bit plane has the channel's shape. Every pixel is 0 or 255, and 255 exactly where bit `bit` of the channel pixel is set. |
| `Layers.BitPlanesReconstruct` | steg_app/views.py:61-69 | The eight bit planes of a channel determine it. Read at one position as binary digits, bit 7 first, they give the channel's value. |
| `Layers.RedBitZeroIsLsbStream` | steg_app/views.py:61-62 | Bit plane 0 of the red channel shows the bit stream the LSB reader consumes: 255 where the red parity is 1, 0 where it is 0. |
| `Layers.InvertImage` | steg_app/views.py:71-72 | The inversion has the image's shape, and every component p becomes 255 − p. |
| `Layers.InvertInvolution` | steg_app/views.py:71-72 | Inverting twice gives the original image back. |
| `Layers.ToGrayscale` | steg_app/views.py:74-75 | The grayscale image has the image's shape. |
| `Layers.GetAllBitPlanes` | steg_app/views.py:64-69 | The dict has 24 distinct keys, in order (Red, 0) … (Blue, 7). Entry i is bit plane i mod 8 of channel i div 8. |
| `Layers.BitLayerName` | steg_app/views.py:85 | No contract of its own. `Layers.BitLayerNames` states the 24 names it gives. |
| `Layers.NameBitPlanes` | steg_app/views.py:85 | No contract of its own. `Layers.NamedPlaneKeys` proves that on the 24 planes it keeps them in order, each under its layer name, keyed by the 24 bit-plane names. |
| `Layers.NamedPlaneKeys` | steg_app/views.py:85 | The renamed bit planes are keyed Red_bit0 … Blue_bit7, and the dict comprehension equals the pairwise renaming (no key collides). |
| `Layers.ChannelLayerKeys` | steg_app/views.py:57-59 | The channel layers are keyed Red, Green, Blue, in that order. |
| `Layers.BitLayerNames` | steg_app/views.py:85 | The names `f'{c}_bit{b}'` of the 24 planes are `Red_bit0` … `Blue_bit7`, in insertion order. |
| `Layers.StegLayers` | steg_app/views.py:78-91 | The result has exactly 29 distinct keys, in insertion order: Red, Green, Blue; Red_bit0 … Blue_bit7; invert; grayscale. Each key holds its channel, bit plane, inversion or grayscale image, and every layer has the image's dimensions. |
| `Layers.BlackImageLayers` | steg_app/views.py:57-75 | An all-black image gives black channels and black bit planes, and a white inversion. Its grayscale is black when the luma of black is 0. |
| `OrderedMaps.Put` | steg_app/views.py:87-89 | No contract of its own: `d[k] = v`. `OrderedMaps.PutSemantics` states its dict-assignment semantics. |
| `OrderedMaps.Update` | steg_app/views.py:83-85 | No contract of its own: `d.update(pairs)`. `OrderedMaps.UpdateFresh` states that fresh distinct keys are appended in order. |
| `OrderedMaps.PutSemantics` | steg_app/views.py:87-89 | A dict assignment maps the key to the value and leaves every other key unchanged. The keys stay distinct, and a new key goes at the end. |
| `OrderedMaps.UpdateFresh` | steg_app/views.py:83-85 | Updating with pairs whose keys are new and distinct appends them in order. |
| `Strings.Matches` | steg_app/views.py:51-52 | Every match lies inside the data, is at least the minimum length, and holds only bytes 0x20..0x7E. |
| `Strings.MatchesMaximal` | steg_app/views.py:51-52 | With a positive minimum, every match is a maximal printable run: the bytes just before and after it are non-printable or off the end. |
| `Strings.MatchesOrdered` | steg_app/views.py:51-52 | With a positive minimum, matches come in order of occurrence, and each starts after the previous one ends. |
| `Strings.MatchesComplete` | steg_app/views.py:51-52 | Every maximal printable run at least the minimum long, starting at or after the scan position, is among the matches. |
| `Strings.ExtractStrings` | steg_app/views.py:50-53 | One string per match. Each is exactly as long as its match, at least the minimum long, and is the match's bytes as ASCII characters, all in `' '..'~'`. |
| `Strings.ExtractStringsAreRuns` | steg_app/views.py:50-53 | With a positive minimum, the strings are exactly the maximal printable runs at least the minimum long, in order of occurrence. |
| `Strings.NoPrintableNoStrings` | steg_app/views.py:50-53 | Data with no printable byte yields no strings. |

## Left out

- External tools are not modelled. The exiftool, mediainfo, zsteg, steghide, stegseek, binwalk, pngcheck, jpeginfo, file and foremost wrappers only run other programs.
- The commented-out wordlist loop in `run_steghide` is not modelled, because it is dead code.
- The Django layer is not modelled: the `analyse_*` views, `upload_view` and its HTTP downloads, the forms, the URL routes and the PNG/base64 template filter. All of them are request handling and rendering.
- `save_image_to_media` is not modelled, because it only names and stores files.
- Image loading is not modelled. `Image.open`, `.convert('RGB')` and `.split()` are library calls, so the reader and the decomposition take an RGB image already in memory.
- SHA-256 and the AES block decryption are not implemented. They are the parameters `sha256` and `decrypt` (and `encrypt` for the writer side), so every result holds for every block function and hash that meet the hypotheses the lemma states: `Cipher.CbcRoundTrip`, `Payload.DecryptBuiltFrame` and `Payload.RevealRoundTrip` assume that `decrypt` inverts `encrypt`, and `Payload.EmptyMessageFrame` assumes what `decrypt` returns for its one block.
- Layers.ToGrayscale: states only that dimensions are kept. PIL's luma formula and its fixed-point rounding are the parameter `luma`.
- Lsb.ExtractLsb: `numBytes` is a natural number. A negative count, which the Python code answers with empty bytes, is not modelled; the only callers pass 20 and 20 + L.
- Layers.ExtractBitPlane: `bit` is a natural number. The ValueError Python raises for a negative shift is not modelled.
- Strings.ExtractStrings: `minLength` is a natural number. A negative value turns the regex quantifier into literal text, and that case is not modelled. With a minimum of 0, `Strings.Matches` does include the empty matches `re.findall` reports. The maximality, order and completeness lemmas are stated for a positive minimum only, which the one caller's default of 4 meets.
- `decode('utf-8', errors='ignore')` in the scanner is modelled as the identity on printable ASCII, because every matched byte is a single-byte UTF-8 character.
- The chance that a wrong passphrase still yields valid padding and valid UTF-8 is not modelled. Only the outcome for a given block function is stated.

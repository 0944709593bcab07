/** The hidden-payload codec: key derivation, the frame decoder
    (decrypt_message) and the reveal pipeline (reveal_with_passphrase).
    The frame is a 4-byte big-endian ciphertext length L, a 16-byte IV and L
    bytes of AES-256-CBC ciphertext of PKCS#7-padded UTF-8 text, hidden in the
    red-channel LSBs of the image. SHA-256 and the AES block function are
    parameters: nothing here depends on what they compute. */
module Payload {
  import opened Common
  import opened Raster
  import opened Lsb
  import opened Utf8
  import opened Cipher

  /** The 4-byte length field and the 16-byte IV. */
  const HeaderSize: nat := 4 + 16

  /** SHA-256: bytes to a 32-byte digest. */
  type Hash = seq<byte> -> Key

  /** The passphrase's UTF-8 bytes; a lone surrogate raises UnicodeEncodeError. */
  function PassphraseBytes(passphrase: seq<CodePoint>): Result<seq<byte>, Exception>
  {
    if AllScalars(passphrase) then Ok(Encode(passphrase)) else Err(ValueError(UnicodeEncode))
  }

  /** key_from_passphrase: the SHA-256 digest of the passphrase's UTF-8 bytes. */
  function KeyFromPassphrase(sha256: Hash, passphrase: seq<CodePoint>): Result<Key, Exception>
  {
    var bytes :- PassphraseBytes(passphrase);
    Ok(sha256(bytes))
  }

  /** The key is derived from bytes that determine the passphrase: the hash input
      decodes back to it, so two passphrases share a key only if SHA-256 collides.
      Derivation fails exactly on passphrases that are not UTF-8 encodable. */
  lemma KeyDerivation(sha256: Hash, passphrase: seq<CodePoint>)
    ensures PassphraseBytes(passphrase).Ok? <==> AllScalars(passphrase)
    ensures PassphraseBytes(passphrase).Ok? ==> Decode(PassphraseBytes(passphrase).value) == Ok(passphrase)
    ensures KeyFromPassphrase(sha256, passphrase).Ok? ==>
      KeyFromPassphrase(sha256, passphrase).value == sha256(PassphraseBytes(passphrase).value)
    ensures KeyFromPassphrase(sha256, passphrase).Err? ==>
      KeyFromPassphrase(sha256, passphrase).error == ValueError(UnicodeEncode)
  {
    if AllScalars(passphrase) {
      DecodeEncode(passphrase);
    }
  }

  /** decrypt_message: L from blob[:4], the IV from blob[4:20], the ciphertext
      from blob[20:20+L] (Python slices, cut short at the end of the blob); then
      AES-CBC decryption and PKCS#7 unpadding. */
  function DecryptMessage(decrypt: BlockFunction, blob: seq<byte>, key: Key): Result<seq<byte>, Exception>
  {
    var length :- UnpackU32(blob[..Min(4, |blob|)]);
    var iv := blob[4..Min(20, |blob|)];
    var ct := blob[Min(20, |blob|)..Min(20 + length, |blob|)];
    if |iv| != BlockSize then Err(ValueError(IncorrectIvLength))
    else if |ct| % BlockSize != 0 then Err(ValueError(NotBlockAligned))
    else Unpad(CbcDecrypt(decrypt, key, iv, ct))
  }

  /** The failure cases of decrypt_message, in the order the code meets them, and
      what a success means: the ciphertext blob[20:20+L] decrypted to the
      padding of the result, which is 1 to 16 bytes shorter. */
  lemma DecryptMessageCases(decrypt: BlockFunction, blob: seq<byte>, key: Key)
    ensures |blob| < 4 ==> DecryptMessage(decrypt, blob, key) == Err(StructError)
    ensures 4 <= |blob| < 20 ==> DecryptMessage(decrypt, blob, key) == Err(ValueError(IncorrectIvLength))
    ensures |blob| >= 20 && (Min(20 + BigEndianU32(blob[..4]), |blob|) - 20) % 16 != 0 ==>
      DecryptMessage(decrypt, blob, key) == Err(ValueError(NotBlockAligned))
    ensures DecryptMessage(decrypt, blob, key).Ok? ==>
      var len := BigEndianU32(blob[..4]);
      var ct := blob[20..Min(20 + len, |blob|)];
      |ct| % 16 == 0 && |ct| > 0 &&
      |ct| - 16 <= |DecryptMessage(decrypt, blob, key).value| < |ct| &&
      Pad(DecryptMessage(decrypt, blob, key).value) == CbcDecrypt(decrypt, key, blob[4..20], ct)
  {
    var r := DecryptMessage(decrypt, blob, key);
    if r.Ok? {
      var len := BigEndianU32(blob[..4]);
      var ct := blob[20..Min(20 + len, |blob|)];
      PadUnpad(CbcDecrypt(decrypt, key, blob[4..20], ct));
    }
  }

  /** The body of the try in reveal_with_passphrase: read the 20-byte header,
      take L from its first four bytes, re-read 20 + L bytes from the start of
      the image, decrypt, and decode the plaintext as UTF-8. */
  function RevealAttempt(decrypt: BlockFunction, img: Image, key: Key): Result<seq<CodePoint>, Exception>
    requires img.Valid()
  {
    var header :- LsbBytes(img, HeaderSize);
    var ctLen :- UnpackU32(header[..Min(4, |header|)]);
    var blob :- LsbBytes(img, HeaderSize + ctLen);
    var pt :- DecryptMessage(decrypt, blob, key);
    Decode(pt)
  }

  /** reveal_with_passphrase: the key is derived outside the try, so an
      unencodable passphrase raises its own error; every ValueError or
      struct.error inside it becomes one fixed ValueError. */
  function RevealWithPassphrase(sha256: Hash, decrypt: BlockFunction, img: Image, passphrase: seq<CodePoint>)
    : Result<seq<CodePoint>, Exception>
    requires img.Valid()
  {
    var key :- KeyFromPassphrase(sha256, passphrase);
    match RevealAttempt(decrypt, img, key)
    case Ok(text) => Ok(text)
    case Err(_) => Err(ValueError(WrongPassphraseOrNoMessage))
  }

  /** Errors collapse: for an encodable passphrase the caller sees either the
      plaintext or the one fixed error, whichever stage failed (header read,
      frame read, framing, padding or UTF-8); only an unencodable passphrase is
      reported differently. */
  lemma RevealErrorsCollapse(sha256: Hash, decrypt: BlockFunction, img: Image, passphrase: seq<CodePoint>)
    requires img.Valid()
    ensures var r := RevealWithPassphrase(sha256, decrypt, img, passphrase);
      && (r.Ok? <==> AllScalars(passphrase) && RevealAttempt(decrypt, img, sha256(Encode(passphrase))).Ok?)
      && (r.Ok? ==> r.value == RevealAttempt(decrypt, img, sha256(Encode(passphrase))).value)
      && (r.Err? && AllScalars(passphrase) ==> r.error == ValueError(WrongPassphraseOrNoMessage))
      && (!AllScalars(passphrase) ==> r == Err(ValueError(UnicodeEncode)))
  {
  }

  /** What a successful reveal read: the full re-read agrees with the header on
      its first 20 bytes, so decrypt_message sees the same L; the frame is exactly
      20 + L bytes; L is a non-zero multiple of 16 (a zero length always fails);
      and the image has pixels for all but at most 7 of the frame's bits (a
      larger declared length always fails). */
  lemma RevealFrame(decrypt: BlockFunction, img: Image, key: Key)
    requires img.Valid() && RevealAttempt(decrypt, img, key).Ok?
    ensures LsbBytes(img, HeaderSize).Ok? && |LsbBytes(img, HeaderSize).value| == 20
    ensures var header := LsbBytes(img, HeaderSize).value;
      var len := BigEndianU32(header[..4]);
      && LsbBytes(img, HeaderSize + len).Ok?
      && var blob := LsbBytes(img, HeaderSize + len).value;
      && |blob| == 20 + len
      && blob[..20] == header
      && BigEndianU32(blob[..4]) == len
      && len % 16 == 0 && len >= 16
      && |img.data| > 8 * (19 + len)
  {
    RevealAttemptSucceeded(decrypt, img, key);
    var header := LsbBytes(img, HeaderSize).value;
    var len := BigEndianU32(header[..4]);
    LsbReadable(img, HeaderSize + len);
    LsbPrefix(img, HeaderSize, HeaderSize + len);
    var blob := LsbBytes(img, HeaderSize + len).value;
    assert blob[..4] == header[..4];
    FrameLength(decrypt, blob, key, len);
  }

  /** A frame of exactly 20 + L bytes that decrypts has L a non-zero multiple of 16. */
  lemma FrameLength(decrypt: BlockFunction, blob: seq<byte>, key: Key, len: nat)
    requires |blob| == HeaderSize + len && BigEndianU32(blob[..4]) == len
    requires DecryptMessage(decrypt, blob, key).Ok?
    ensures len % 16 == 0 && len >= 16
  {
    DecryptMessageCases(decrypt, blob, key);
  }

  /** The stages a successful reveal went through. */
  lemma RevealAttemptSucceeded(decrypt: BlockFunction, img: Image, key: Key)
    requires img.Valid() && RevealAttempt(decrypt, img, key).Ok?
    ensures LsbBytes(img, HeaderSize).Ok? && |LsbBytes(img, HeaderSize).value| == 20
    ensures var len := BigEndianU32(LsbBytes(img, HeaderSize).value[..4]);
      LsbBytes(img, HeaderSize + len).Ok?
      && DecryptMessage(decrypt, LsbBytes(img, HeaderSize + len).value, key).Ok?
  {
    LsbReadable(img, HeaderSize);
  }

  /** The writer side of the frame: 4-byte big-endian length, IV, ciphertext of
      the padded plaintext. Not part of the core; it is what a reveal inverts. */
  function BuildFrame(encrypt: BlockFunction, key: Key, iv: Block, plaintext: seq<byte>): (frame: seq<byte>)
    requires |Pad(plaintext)| < 0x1_0000_0000
    ensures |frame| == 20 + |Pad(plaintext)|
  {
    var ct := CbcEncrypt(encrypt, key, iv, Pad(plaintext));
    U32Bytes(|ct|) + iv + ct
  }

  /** decrypt_message inverts the frame writer. */
  lemma DecryptBuiltFrame(encrypt: BlockFunction, decrypt: BlockFunction, key: Key, iv: Block, plaintext: seq<byte>)
    requires forall k: Key, b: Block :: decrypt(k, encrypt(k, b)) == b
    requires |Pad(plaintext)| < 0x1_0000_0000
    ensures DecryptMessage(decrypt, BuildFrame(encrypt, key, iv, plaintext), key) == Ok(plaintext)
  {
    var ct := CbcEncrypt(encrypt, key, iv, Pad(plaintext));
    var frame := BuildFrame(encrypt, key, iv, plaintext);
    assert frame[..4] == U32Bytes(|ct|);
    U32RoundTrip(|ct|);
    assert frame[4..20] == iv;
    assert frame[20..20 + |ct|] == ct;
    CbcRoundTrip(encrypt, decrypt, key, iv, Pad(plaintext));
    UnpadPad(plaintext);
  }

  /** Round trip: a message encrypted under the passphrase's key, framed and
      embedded in the red LSBs of an image large enough to hold it, is revealed
      exactly. */
  lemma RevealRoundTrip(sha256: Hash, encrypt: BlockFunction, decrypt: BlockFunction,
                        img: Image, passphrase: seq<CodePoint>, iv: Block, message: seq<CodePoint>)
    requires forall k: Key, b: Block :: decrypt(k, encrypt(k, b)) == b
    requires img.Valid() && AllScalars(passphrase) && AllScalars(message)
    requires |Pad(Encode(message))| < 0x1_0000_0000
    requires 8 * (20 + |Pad(Encode(message))|) <= |img.data|
    ensures var frame := BuildFrame(encrypt, sha256(Encode(passphrase)), iv, Encode(message));
      RevealWithPassphrase(sha256, decrypt, Embed(img, frame), passphrase) == Ok(message)
  {
    var key := sha256(Encode(passphrase));
    var frame := BuildFrame(encrypt, key, iv, Encode(message));
    var len := |Pad(Encode(message))|;
    assert frame[..4] == U32Bytes(len);
    U32RoundTrip(len);
    EmbeddedFrameRead(decrypt, img, frame, key);
    DecryptBuiltFrame(encrypt, decrypt, key, iv, Encode(message));
    DecodeEncode(message);
  }

  /** Reading back an embedded frame whose length field is right: the reveal
      decrypts exactly that frame, and fails as its decryption fails. */
  lemma EmbeddedFrameRead(decrypt: BlockFunction, img: Image, frame: seq<byte>, key: Key)
    requires img.Valid() && HeaderSize <= |frame| && 8 * |frame| <= |img.data|
    requires BigEndianU32(frame[..4]) == |frame| - HeaderSize
    ensures RevealAttempt(decrypt, Embed(img, frame), key) ==
      match DecryptMessage(decrypt, frame, key)
      case Ok(pt) => Decode(pt)
      case Err(e) => Err(e)
  {
    var stego := Embed(img, frame);
    LsbReadsEmbedded(img, frame, HeaderSize);
    var header := LsbBytes(stego, HeaderSize).value;
    assert header[..4] == frame[..4];
    assert UnpackU32(header[..Min(4, |header|)]) == Ok(|frame| - HeaderSize);
    LsbReadsEmbedded(img, frame, |frame|);
    assert frame[..|frame|] == frame;
    assert LsbBytes(stego, HeaderSize + (|frame| - HeaderSize)) == Ok(frame);
  }

  /** A frame declaring L = 16 with an all-zero IV, whose one ciphertext block
      decrypts to sixteen bytes of value 16 (the padding of the empty string),
      yields the empty message. */
  lemma EmptyMessageFrame(decrypt: BlockFunction, key: Key, ct: Block)
    requires decrypt(key, ct) == seq(16, _ => 16)
    ensures DecryptMessage(decrypt, U32Bytes(16) + seq(16, _ => 0) + ct, key) == Ok([])
  {
    var zeros: Block := seq(16, _ => 0);
    var padding: Block := seq(16, _ => 16);
    var blob := U32Bytes(16) + zeros + ct;
    assert blob[..4] == U32Bytes(16);
    assert blob[4..20] == zeros && blob[20..36] == ct;
    XorBlockZero(padding);
    var pt := CbcDecrypt(decrypt, key, zeros, ct);
    assert pt == BlockAt(pt, 0) == BlockAt(CbcDecrypt(decrypt, key, zeros, ct), 0);
    assert BlockAt(ct, 0) == ct;
    assert pt == padding;
    assert pt[16 - 16..] == padding;
  }
}

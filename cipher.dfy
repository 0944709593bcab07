/** AES-256 in CBC mode and PKCS#7 padding removal, as PyCryptodome's
    AES.new(key, AES.MODE_CBC, iv).decrypt and Crypto.Util.Padding.unpad do it.
    The AES block function itself is not modelled: it is a parameter, so every
    fact proved here holds for any block function. */
module Cipher {
  import opened Common

  /** AES.block_size. */
  const BlockSize: nat := 16

  type Block = s: seq<byte> | |s| == 16 witness seq(16, _ => 0)
  type Key = s: seq<byte> | |s| == 32 witness seq(32, _ => 0)

  /** A keyed block function: the AES-256 forward or inverse cipher. */
  type BlockFunction = (Key, Block) -> Block

  /** Bitwise exclusive or of two naturals, one bit at a time from the lowest. */
  function XorNat(a: nat, b: nat): nat
    decreases a + b
  {
    if a == 0 && b == 0 then 0 else 2 * XorNat(a / 2, b / 2) + (a % 2 + b % 2) % 2
  }

  lemma {:induction false} XorNatBound(a: nat, b: nat, n: nat)
    requires a < Pow2(n) && b < Pow2(n)
    ensures XorNat(a, b) < Pow2(n)
    decreases a + b
  {
    if !(a == 0 && b == 0) {
      assert n > 0;
      XorNatBound(a / 2, b / 2, n - 1);
    }
  }

  lemma {:induction false} XorNatCancel(a: nat, b: nat)
    ensures XorNat(XorNat(a, b), b) == a
    decreases a + b
  {
    if !(a == 0 && b == 0) {
      XorNatCancel(a / 2, b / 2);
      CancelStep(a, b, XorNat(a / 2, b / 2));
    }
  }

  /** The inductive step: if the high bits cancel, so does the whole. */
  lemma CancelStep(a: nat, b: nat, h: nat)
    requires h == XorNat(a / 2, b / 2) && XorNat(h, b / 2) == a / 2
    ensures XorNat(XorNat(a, b), b) == a
  {
    var x := XorNat(a, b);
    var p := (a % 2 + b % 2) % 2;
    XorNatStep(a, b);
    DivModUnique(x, 2, h, p);
    XorNatStep(x, b);
    ParityCancel(a % 2, b % 2);
  }

  lemma ParityCancel(i: nat, j: nat)
    requires i < 2 && j < 2
    ensures ((i + j) % 2 + j) % 2 == i
  {
  }

  /** One step of the bitwise recursion, which also holds at 0 xor 0. */
  lemma XorNatStep(a: nat, b: nat)
    ensures XorNat(a, b) == 2 * XorNat(a / 2, b / 2) + (a % 2 + b % 2) % 2
  {
  }

  function Xor(a: byte, b: byte): byte
  {
    XorNatBound(a, b, 8);
    XorNat(a, b)
  }

  function XorBlock(a: Block, b: Block): Block
  {
    seq(16, i requires 0 <= i < 16 => Xor(a[i], b[i]))
  }

  lemma XorBlockCancel(a: Block, b: Block)
    ensures XorBlock(XorBlock(a, b), b) == a
  {
    forall i | 0 <= i < 16
      ensures XorBlock(XorBlock(a, b), b)[i] == a[i]
    {
      XorCancel(a[i], b[i]);
    }
  }

  lemma XorCancel(a: byte, b: byte)
    ensures Xor(Xor(a, b), b) == a
  {
    XorNatCancel(a, b);
  }

  lemma {:induction false} XorNatZero(a: nat)
    ensures XorNat(a, 0) == a
    decreases a
  {
    if a != 0 {
      XorNatZero(a / 2);
    }
  }

  /** XOR with the all-zero block changes nothing. */
  lemma XorBlockZero(a: Block)
    ensures XorBlock(a, seq(16, _ => 0)) == a
  {
    forall i | 0 <= i < 16
      ensures XorBlock(a, seq(16, _ => 0))[i] == a[i]
    {
      XorNatZero(a[i]);
    }
  }

  /** Block i of a block-aligned byte string. */
  function BlockAt(s: seq<byte>, i: nat): Block
    requires 16 * i + 16 <= |s|
  {
    s[16 * i..16 * i + 16]
  }

  /** The ciphertext block that precedes block i, the IV for the first one. */
  function Previous(iv: Block, ct: seq<byte>, i: nat): Block
    requires 16 * i <= |ct|
  {
    if i == 0 then iv else BlockAt(ct, i - 1)
  }

  /** CBC decryption. Section 6.2 of NIST SP 800-38A: P_j = D_K(C_j) XOR C_(j-1),
      with C_0 = IV; the result has the ciphertext's length. */
  function CbcDecrypt(decrypt: BlockFunction, key: Key, iv: Block, ct: seq<byte>): (pt: seq<byte>)
    requires |ct| % 16 == 0
    ensures |pt| == |ct|
    ensures forall i :: 0 <= i < |ct| / 16 ==>
      BlockAt(pt, i) == XorBlock(decrypt(key, BlockAt(ct, i)), Previous(iv, ct, i))
    decreases |ct|
  {
    if ct == [] then []
    else
      var pt := XorBlock(decrypt(key, ct[..16]), iv) + CbcDecrypt(decrypt, key, ct[..16], ct[16..]);
      ChainedBlocks(decrypt, key, iv, ct, pt);
      pt
  }

  /** Block i + 1 of the whole is block i of what follows the first block. */
  lemma ChainedBlocks(decrypt: BlockFunction, key: Key, iv: Block, ct: seq<byte>, pt: seq<byte>)
    requires |ct| % 16 == 0 && |ct| >= 16 && |pt| == |ct|
    requires pt[..16] == XorBlock(decrypt(key, ct[..16]), iv)
    requires forall i :: 0 <= i < |ct| / 16 - 1 ==>
      BlockAt(pt[16..], i) == XorBlock(decrypt(key, BlockAt(ct[16..], i)), Previous(ct[..16], ct[16..], i))
    ensures forall i :: 0 <= i < |ct| / 16 ==>
      BlockAt(pt, i) == XorBlock(decrypt(key, BlockAt(ct, i)), Previous(iv, ct, i))
  {
    forall i | 0 <= i < |ct| / 16
      ensures BlockAt(pt, i) == XorBlock(decrypt(key, BlockAt(ct, i)), Previous(iv, ct, i))
    {
      if i > 0 {
        assert BlockAt(pt[16..], i - 1) == BlockAt(pt, i);
        assert BlockAt(ct[16..], i - 1) == BlockAt(ct, i);
        assert Previous(ct[..16], ct[16..], i - 1) == Previous(iv, ct, i) by {
          if i > 1 {
            assert BlockAt(ct[16..], i - 2) == BlockAt(ct, i - 1);
          }
        }
      }
    }
  }

  /** CBC encryption (section 6.2 of NIST SP 800-38A): C_j = E_K(P_j XOR C_(j-1)).
      It is not part of the core; it is the writer that CbcDecrypt inverts. */
  function CbcEncrypt(encrypt: BlockFunction, key: Key, iv: Block, pt: seq<byte>): (ct: seq<byte>)
    requires |pt| % 16 == 0
    ensures |ct| == |pt|
    decreases |pt|
  {
    if pt == [] then []
    else
      var c := encrypt(key, XorBlock(pt[..16], iv));
      c + CbcEncrypt(encrypt, key, c, pt[16..])
  }

  /** Decryption inverts encryption whenever the block functions are inverse. */
  lemma {:induction false} CbcRoundTrip(encrypt: BlockFunction, decrypt: BlockFunction, key: Key, iv: Block, pt: seq<byte>)
    requires forall k: Key, b: Block :: decrypt(k, encrypt(k, b)) == b
    requires |pt| % 16 == 0
    ensures CbcDecrypt(decrypt, key, iv, CbcEncrypt(encrypt, key, iv, pt)) == pt
    decreases |pt|
  {
    if pt != [] {
      var p0: Block := pt[..16];
      var c := encrypt(key, XorBlock(p0, iv));
      var ct := CbcEncrypt(encrypt, key, iv, pt);
      assert ct == c + CbcEncrypt(encrypt, key, c, pt[16..]);
      assert ct[..16] == c && ct[16..] == CbcEncrypt(encrypt, key, c, pt[16..]);
      XorBlockCancel(p0, iv);
      CbcRoundTrip(encrypt, decrypt, key, c, pt[16..]);
      assert pt == p0 + pt[16..];
    }
  }

  /** PKCS#7 padding (section 6.3 of RFC 5652), Crypto.Util.Padding.pad(data, 16):
      N = 16 - |data| % 16 bytes, each of value N. The writer side of Unpad. */
  function Pad(data: seq<byte>): (padded: seq<byte>)
    ensures |padded| % 16 == 0 && |data| < |padded| <= |data| + 16
  {
    var n := 16 - |data| % 16;
    data + seq(n, _ => n)
  }

  /** Crypto.Util.Padding.unpad(data, 16) with the default 'pkcs7' style. */
  function Unpad(data: seq<byte>): (r: Result<seq<byte>, Exception>)
    ensures r.Err? ==> r.error.ValueError?
    ensures r.Ok? ==> |data| - 16 <= |r.value| < |data| && r.value == data[..|r.value|]
  {
    if |data| == 0 then Err(ValueError(ZeroLengthInput))
    else if |data| % BlockSize != 0 then Err(ValueError(NotPadded))
    else
      var n := data[|data| - 1] as int;
      if n < 1 || n > Min(BlockSize, |data|) then Err(ValueError(PaddingIncorrect))
      else if data[|data| - n..] != seq(n, _ => n) then Err(ValueError(Pkcs7PaddingIncorrect))
      else Ok(data[..|data| - n])
  }

  /** Unpadding inverts padding. */
  lemma UnpadPad(data: seq<byte>)
    ensures Unpad(Pad(data)) == Ok(data)
  {
    var n := 16 - |data| % 16;
    var p := Pad(data);
    assert p[|p| - n..] == seq(n, _ => n);
    assert p[..|p| - n] == data;
  }

  /** Padding inverts unpadding: what unpads successfully is exactly the padding
      of its result, so the result determines its input and removes between 1
      and 16 bytes. */
  lemma PadUnpad(data: seq<byte>)
    requires Unpad(data).Ok?
    ensures Pad(Unpad(data).value) == data
  {
    var n := data[|data| - 1] as int;
    var d := Unpad(data).value;
    assert |d| == |data| - n;
    assert |d| % 16 == 16 - n by {
      assert |data| % 16 == 0 && 1 <= n <= 16;
    }
    assert data == d + data[|data| - n..];
  }
}

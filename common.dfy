/** Shared vocabulary: bytes and bits, the exceptions the Python code raises,
    a Result type for them, and the arithmetic facts about bit strings that
    the bit-stream reader and the bit-plane extractor both rely on. */
module Common {

  type byte = x: int | 0 <= x < 256
  type bit = x: int | 0 <= x < 2

  /** Why a ValueError (or one of its subclasses) was raised. */
  datatype Reason =
    | EmptyBitString          // int('', 2) in extract_lsb
    | IncorrectIvLength       // AES.new with an IV that is not 16 bytes
    | NotBlockAligned         // CBC decryption of data not a multiple of 16 bytes
    | ZeroLengthInput         // unpad of empty data
    | NotPadded               // unpad of data not a multiple of the block size
    | PaddingIncorrect        // last byte N outside 1..block size
    | Pkcs7PaddingIncorrect   // the last N bytes are not all N
    | UnicodeDecode           // bytes.decode('utf-8') of ill-formed input
    | UnicodeEncode           // str.encode('utf-8') of a lone surrogate
    | WrongPassphraseOrNoMessage  // the one error reveal_with_passphrase reports

  /** The exceptions of the core: ValueError and its subclasses, and struct.error. */
  datatype Exception = ValueError(reason: Reason) | StructError

  datatype Result<+T, +E> = Ok(value: T) | Err(error: E) {
    predicate IsFailure() { Err? }
    function PropagateFailure<U>(): Result<U, E>
      requires Err?
    {
      Err(error)
    }
    function Extract(): T
      requires Ok?
    {
      value
    }
  }

  datatype Option<+T> = None | Some(value: T)

  function Min(a: int, b: int): int { if a <= b then a else b }

  function Pow2(n: nat): (p: nat)
    ensures p >= 1
  {
    if n == 0 then 1 else 2 * Pow2(n - 1)
  }

  lemma {:induction false} Pow2Monotone(m: nat, n: nat)
    requires m <= n
    ensures Pow2(m) <= Pow2(n)
  {
    if m < n {
      Pow2Monotone(m, n - 1);
    }
  }

  /** Bit i of v, counting from the least significant bit: Python's (v >> i) & 1. */
  function Bit(v: nat, i: nat): bit
  {
    (v / Pow2(i)) % 2
  }

  /** The value of a string of binary digits, most significant first: Python's int(s, 2)
      for a non-empty s (the empty string is an error there and is handled by the caller). */
  function BitsValue(s: seq<bit>): (v: nat)
    ensures v < Pow2(|s|)
  {
    if s == [] then 0 else 2 * BitsValue(s[..|s| - 1]) + s[|s| - 1]
  }

  /** The byte whose value is the bit string s (at most 8 digits). */
  function ByteOf(s: seq<bit>): byte
    requires |s| <= 8
  {
    Pow2Monotone(|s|, 8);
    BitsValue(s)
  }

  /** The n low-order bits of v, most significant first. */
  function Bits(v: nat, n: nat): (s: seq<bit>)
    ensures |s| == n
  {
    if n == 0 then [] else Bits(v / 2, n - 1) + [v % 2]
  }

  lemma DivModUnique(a: int, d: int, q: int, r: int)
    requires d > 0 && 0 <= r < d && a == q * d + r
    ensures a / d == q && a % d == r
  {
    var q', r' := a / d, a % d;
    assert (q - q') * d == r' - r;
    if q > q' {
      MulAtLeast(q - q', d);
    } else if q < q' {
      MulAtLeast(q' - q, d);
    }
  }

  lemma {:induction false} MulAtLeast(k: int, d: int)
    requires k >= 1 && d > 0
    ensures k * d >= d
  {
    if k > 1 {
      MulAtLeast(k - 1, d);
      assert k * d == (k - 1) * d + d;
    }
  }

  /** Shifting by i + 1 is shifting by one and then by i. */
  lemma {:induction false} DivPow2Step(v: nat, i: nat)
    ensures v / Pow2(i + 1) == (v / 2) / Pow2(i)
  {
    var p := Pow2(i);
    SplitHalf(v, p);
    DivModUnique(v, 2 * p, (v / 2) / p, 2 * ((v / 2) % p) + v % 2);
  }

  /** Reading the n low bits of v back gives v modulo 2^n. */
  lemma {:induction false} ValueOfBits(v: nat, n: nat)
    ensures BitsValue(Bits(v, n)) == v % Pow2(n)
  {
    if n == 0 {
      assert Bits(v, 0) == [];
    } else {
      var s := Bits(v, n);
      assert s[..n - 1] == Bits(v / 2, n - 1);
      ValueOfBits(v / 2, n - 1);
      var p := Pow2(n - 1);
      var q, r := (v / 2) / p, (v / 2) % p;
      SplitHalf(v, p);
      DivModUnique(v, 2 * p, q, 2 * r + v % 2);
      assert BitsValue(s) == 2 * r + v % 2;
    }
  }

  /** v is q * 2p + (2r + v % 2), where q and r divide v / 2 by p. */
  lemma SplitHalf(v: nat, p: nat)
    requires p >= 1
    ensures v == ((v / 2) / p) * (2 * p) + (2 * ((v / 2) % p) + v % 2)
  {
    var q, r := (v / 2) / p, (v / 2) % p;
    assert v / 2 == q * p + r;
    assert v == 2 * (v / 2) + v % 2;
    assert 2 * (q * p) == q * (2 * p);
  }

  /** Writing a bit string's value back with as many digits gives the string. */
  lemma {:induction false} BitsOfValue(s: seq<bit>)
    ensures Bits(BitsValue(s), |s|) == s
  {
    if s != [] {
      var n := |s|;
      var v := BitsValue(s);
      assert v == 2 * BitsValue(s[..n - 1]) + s[n - 1];
      assert v / 2 == BitsValue(s[..n - 1]) && v % 2 == s[n - 1];
      BitsOfValue(s[..n - 1]);
      assert s == s[..n - 1] + [s[n - 1]];
    }
  }

  /** Digit n - 1 - i of the n-digit string of v is bit i of v. */
  lemma {:induction false} BitsAt(v: nat, n: nat, i: nat)
    requires i < n
    ensures Bits(v, n)[n - 1 - i] == Bit(v, i)
  {
    if i > 0 {
      BitsAt(v / 2, n - 1, i - 1);
      DivPow2Step(v, i - 1);
    }
  }

  /** A byte is determined by its eight bits: its 8-digit string reads back as itself. */
  lemma ByteBitsRoundTrip(b: byte)
    ensures ByteOf(Bits(b, 8)) == b
  {
    ValueOfBits(b, 8);
    assert Pow2(8) == 256;
  }

  /** The big-endian unsigned 32-bit value of four bytes. */
  function BigEndianU32(b: seq<byte>): (n: nat)
    requires |b| == 4
    ensures n < 0x1_0000_0000
  {
    (((b[0] as int) * 256 + b[1] as int) * 256 + b[2] as int) * 256 + b[3] as int
  }

  /** The four bytes of n, big-endian (the writer side of struct.pack(">I", n)). */
  function U32Bytes(n: nat): (b: seq<byte>)
    requires n < 0x1_0000_0000
    ensures |b| == 4
  {
    [n / 0x100_0000, (n / 0x1_0000) % 256, (n / 256) % 256, n % 256]
  }

  /** struct.unpack(">I", b): exactly four bytes, or struct.error. */
  function UnpackU32(b: seq<byte>): (r: Result<nat, Exception>)
    ensures r.Ok? <==> |b| == 4
    ensures r.Err? ==> r.error == StructError
    ensures r.Ok? ==> r.value == BigEndianU32(b)
  {
    if |b| == 4 then Ok(BigEndianU32(b)) else Err(StructError)
  }

  lemma U32RoundTrip(n: nat)
    requires n < 0x1_0000_0000
    ensures BigEndianU32(U32Bytes(n)) == n
  {
    var q1, r0 := n / 256, n % 256;
    var q2, r1 := q1 / 256, q1 % 256;
    var q3, r2 := q2 / 256, q2 % 256;
    assert n == (q2 * 256 + r1) * 256 + r0;
    DivModUnique(n, 0x1_0000, q2, r1 * 256 + r0);
    assert n == ((q3 * 256 + r2) * 256 + r1) * 256 + r0;
    DivModUnique(n, 0x100_0000, q3, (r2 * 256 + r1) * 256 + r0);
    assert U32Bytes(n) == [q3, r2, r1, r0];
  }
}

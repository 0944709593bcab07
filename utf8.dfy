/** UTF-8 as RFC 3629 defines it. Python's str is a sequence of code points
    (lone surrogates included); str.encode('utf-8') accepts only Unicode scalar
    values, and bytes.decode('utf-8') accepts exactly the well-formed byte
    sequences of section 4 of RFC 3629 (no overlong forms, no surrogates,
    nothing above U+10FFFF). */
module Utf8 {
  import opened Common

  type CodePoint = c: int | 0 <= c < 0x11_0000

  predicate IsScalar(c: CodePoint) { c < 0xD800 || 0xE000 <= c }

  predicate AllScalars(s: seq<CodePoint>) { forall i :: 0 <= i < |s| ==> IsScalar(s[i]) }

  predicate IsTail(b: int) { 0x80 <= b <= 0xBF }

  /** The encoding of one scalar value, section 3 of RFC 3629. */
  function EncodeScalar(c: CodePoint): (b: seq<byte>)
    requires IsScalar(c)
    ensures 1 <= |b| <= 4
  {
    if c < 0x80 then [c]
    else if c < 0x800 then [0xC0 + c / 64, 0x80 + c % 64]
    else if c < 0x1_0000 then [0xE0 + c / 4096, 0x80 + (c / 64) % 64, 0x80 + c % 64]
    else [0xF0 + c / 0x4_0000, 0x80 + (c / 4096) % 64, 0x80 + (c / 64) % 64, 0x80 + c % 64]
  }

  /** str.encode('utf-8') of a string of scalar values. */
  function Encode(s: seq<CodePoint>): seq<byte>
    requires AllScalars(s)
  {
    if s == [] then [] else EncodeScalar(s[0]) + Encode(s[1..])
  }

  /** Which second bytes a three-byte sequence led by b0 admits (RFC 3629, section 4). */
  predicate SecondOfThree(b0: int, b1: int)
  {
    if b0 == 0xE0 then 0xA0 <= b1 <= 0xBF
    else if b0 == 0xED then 0x80 <= b1 <= 0x9F
    else IsTail(b1)
  }

  /** Which second bytes a four-byte sequence led by b0 admits (RFC 3629, section 4). */
  predicate SecondOfFour(b0: int, b1: int)
  {
    if b0 == 0xF0 then 0x90 <= b1 <= 0xBF
    else if b0 == 0xF4 then 0x80 <= b1 <= 0x8F
    else IsTail(b1)
  }

  /** The code point that b starts with and the number of bytes it takes, or
      None when b does not start with a well-formed sequence. */
  function DecodeFirst(b: seq<byte>): (r: Option<(CodePoint, nat)>)
    requires |b| > 0
    ensures r.Some? ==> 1 <= r.value.1 <= 4 && r.value.1 <= |b|
  {
    var b0 := b[0] as int;
    if b0 < 0x80 then Some((b0, 1))
    else if 0xC2 <= b0 <= 0xDF then
      if |b| >= 2 && IsTail(b[1]) then Some((Join2(b0, b[1]), 2)) else None
    else if 0xE0 <= b0 <= 0xEF then
      if |b| >= 3 && SecondOfThree(b0, b[1]) && IsTail(b[2]) then Some((Join3(b0, b[1], b[2]), 3))
      else None
    else if 0xF0 <= b0 <= 0xF4 then
      if |b| >= 4 && SecondOfFour(b0, b[1]) && IsTail(b[2]) && IsTail(b[3])
      then Some((Join4(b0, b[1], b[2], b[3]), 4))
      else None
    else None
  }

  function Join2(b0: int, b1: int): CodePoint
    requires 0xC2 <= b0 <= 0xDF && IsTail(b1)
  {
    (b0 - 0xC0) * 64 + (b1 - 0x80)
  }

  function Join3(b0: int, b1: int, b2: int): CodePoint
    requires 0xE0 <= b0 <= 0xEF && SecondOfThree(b0, b1) && IsTail(b2)
  {
    (b0 - 0xE0) * 4096 + (b1 - 0x80) * 64 + (b2 - 0x80)
  }

  function Join4(b0: int, b1: int, b2: int, b3: int): CodePoint
    requires 0xF0 <= b0 <= 0xF4 && SecondOfFour(b0, b1) && IsTail(b2) && IsTail(b3)
  {
    (b0 - 0xF0) * 0x4_0000 + (b1 - 0x80) * 4096 + (b2 - 0x80) * 64 + (b3 - 0x80)
  }

  /** bytes.decode('utf-8'): the code points, or UnicodeDecodeError (a ValueError). */
  function Decode(b: seq<byte>): Result<seq<CodePoint>, Exception>
    decreases |b|
  {
    if b == [] then Ok([])
    else match DecodeFirst(b)
      case None => Err(ValueError(UnicodeDecode))
      case Some((c, n)) =>
        match Decode(b[n..])
        case Ok(rest) => Ok([c] + rest)
        case Err(e) => Err(e)
  }

  /** A well-formed sequence decodes to a scalar value whose encoding it is. */
  lemma DecodeFirstIsEncoding(b: seq<byte>)
    requires |b| > 0 && DecodeFirst(b).Some?
    ensures IsScalar(DecodeFirst(b).value.0)
    ensures b[..DecodeFirst(b).value.1] == EncodeScalar(DecodeFirst(b).value.0)
  {
    var b0 := b[0] as int;
    if 0x80 <= b0 <= 0xDF {
      Join2Encodes(b0, b[1]);
    } else if 0xE0 <= b0 <= 0xEF {
      Join3Encodes(b0, b[1], b[2]);
    } else if 0xF0 <= b0 {
      Join4Encodes(b0, b[1], b[2], b[3]);
    }
  }

  lemma Join2Encodes(b0: int, b1: int)
    requires 0xC2 <= b0 <= 0xDF && IsTail(b1)
    ensures IsScalar(Join2(b0, b1)) && EncodeScalar(Join2(b0, b1)) == [b0, b1]
  {
    DivModUnique(Join2(b0, b1), 64, b0 - 0xC0, b1 - 0x80);
  }

  lemma Join3Encodes(b0: int, b1: int, b2: int)
    requires 0xE0 <= b0 <= 0xEF && SecondOfThree(b0, b1) && IsTail(b2)
    ensures IsScalar(Join3(b0, b1, b2)) && EncodeScalar(Join3(b0, b1, b2)) == [b0, b1, b2]
  {
    var c := Join3(b0, b1, b2);
    var hi, mid, lo := b0 - 0xE0, b1 - 0x80, b2 - 0x80;
    assert 0x800 <= c < 0x1_0000 && IsScalar(c) by {
      assert c == hi * 4096 + mid * 64 + lo;
    }
    DivModUnique(c, 4096, hi, mid * 64 + lo);
    DivModUnique(c, 64, hi * 64 + mid, lo);
    DivModUnique(hi * 64 + mid, 64, hi, mid);
    assert EncodeScalar(c) == [0xE0 + hi, 0x80 + mid, 0x80 + lo];
  }

  lemma Join4Encodes(b0: int, b1: int, b2: int, b3: int)
    requires 0xF0 <= b0 <= 0xF4 && SecondOfFour(b0, b1) && IsTail(b2) && IsTail(b3)
    ensures IsScalar(Join4(b0, b1, b2, b3)) && EncodeScalar(Join4(b0, b1, b2, b3)) == [b0, b1, b2, b3]
  {
    var c := Join4(b0, b1, b2, b3);
    var top, hi, mid, lo := b0 - 0xF0, b1 - 0x80, b2 - 0x80, b3 - 0x80;
    DivModUnique(c, 0x4_0000, top, hi * 4096 + mid * 64 + lo);
    DivModUnique(c, 4096, top * 64 + hi, mid * 64 + lo);
    DivModUnique(top * 64 + hi, 64, top, hi);
    DivModUnique(c, 64, (top * 64 + hi) * 64 + mid, lo);
    DivModUnique((top * 64 + hi) * 64 + mid, 64, top * 64 + hi, mid);
  }

  /** The encoding of a scalar value is a well-formed sequence that decodes to it,
      whatever follows. */
  lemma EncodeScalarDecodes(c: CodePoint, rest: seq<byte>)
    requires IsScalar(c)
    ensures DecodeFirst(EncodeScalar(c) + rest) == Some((c, |EncodeScalar(c)|))
  {
    if 0x80 <= c < 0x800 {
      Encode2Decodes(c, rest);
    } else if 0x800 <= c < 0x1_0000 {
      Encode3Decodes(c, rest);
    } else if 0x1_0000 <= c {
      Encode4Decodes(c, rest);
    }
  }

  lemma Encode2Decodes(c: CodePoint, rest: seq<byte>)
    requires 0x80 <= c < 0x800
    ensures DecodeFirst(EncodeScalar(c) + rest) == Some((c, 2))
  {
    var b := EncodeScalar(c) + rest;
    assert b[0] == 0xC0 + c / 64 && b[1] == 0x80 + c % 64;
  }

  lemma Encode3Decodes(c: CodePoint, rest: seq<byte>)
    requires 0x800 <= c < 0x1_0000 && IsScalar(c)
    ensures DecodeFirst(EncodeScalar(c) + rest) == Some((c, 3))
  {
    var b := EncodeScalar(c) + rest;
    var hi, mid, lo := c / 4096, (c / 64) % 64, c % 64;
    DivModUnique(c / 64, 64, hi, mid);
    assert c == hi * 4096 + mid * 64 + lo;
    assert b[0] == 0xE0 + hi && b[1] == 0x80 + mid && b[2] == 0x80 + lo;
  }

  lemma Encode4Decodes(c: CodePoint, rest: seq<byte>)
    requires 0x1_0000 <= c
    ensures DecodeFirst(EncodeScalar(c) + rest) == Some((c, 4))
  {
    var b := EncodeScalar(c) + rest;
    var top, hi, mid, lo := c / 0x4_0000, (c / 4096) % 64, (c / 64) % 64, c % 64;
    DivModUnique(c / 4096, 64, top, hi);
    DivModUnique(c / 64, 64, c / 4096, mid);
    assert c == top * 0x4_0000 + hi * 4096 + mid * 64 + lo;
    assert b[0] == 0xF0 + top && b[1] == 0x80 + hi && b[2] == 0x80 + mid && b[3] == 0x80 + lo;
  }

  /** Decoding inverts encoding: decode(encode(s)) == s. */
  lemma {:induction false} DecodeEncode(s: seq<CodePoint>)
    requires AllScalars(s)
    ensures Decode(Encode(s)) == Ok(s)
  {
    if s != [] {
      var e := EncodeScalar(s[0]);
      EncodeScalarDecodes(s[0], Encode(s[1..]));
      assert (e + Encode(s[1..]))[|e|..] == Encode(s[1..]);
      DecodeEncode(s[1..]);
      assert [s[0]] + s[1..] == s;
    }
  }

  /** Encoding inverts decoding: whatever decodes successfully is made of scalar
      values and is exactly their encoding. */
  lemma {:induction false} EncodeDecode(b: seq<byte>)
    requires Decode(b).Ok?
    ensures AllScalars(Decode(b).value)
    ensures Encode(Decode(b).value) == b
    decreases |b|
  {
    if b != [] {
      DecodeStep(b);
      var c, n := DecodeFirst(b).value.0, DecodeFirst(b).value.1;
      var rest := Decode(b[n..]).value;
      DecodeFirstIsEncoding(b);
      EncodeDecode(b[n..]);
      EncodeCons(c, rest, b, n);
    }
  }

  /** A successful decode of a non-empty sequence: its first character, then the
      decode of what follows it. */
  lemma DecodeStep(b: seq<byte>)
    requires b != [] && Decode(b).Ok?
    ensures DecodeFirst(b).Some?
    ensures var n := DecodeFirst(b).value.1;
      Decode(b[n..]).Ok? && Decode(b).value == [DecodeFirst(b).value.0] + Decode(b[n..]).value
  {
  }

  /** A character whose encoding starts b, followed by characters encoding the
      rest of b, encode b. */
  lemma EncodeCons(c: CodePoint, rest: seq<CodePoint>, b: seq<byte>, n: nat)
    requires IsScalar(c) && AllScalars(rest) && n <= |b|
    requires b[..n] == EncodeScalar(c) && Encode(rest) == b[n..]
    ensures AllScalars([c] + rest)
    ensures Encode([c] + rest) == b
  {
    var s := [c] + rest;
    assert s[0] == c && s[1..] == rest;
    assert b == b[..n] + b[n..];
  }

  /** Encoding is injective, so distinct passphrases give distinct hash inputs. */
  lemma EncodeInjective(s: seq<CodePoint>, t: seq<CodePoint>)
    requires AllScalars(s) && AllScalars(t) && Encode(s) == Encode(t)
    ensures s == t
  {
    DecodeEncode(s);
    DecodeEncode(t);
  }
}

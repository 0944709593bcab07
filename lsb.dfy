/** The LSB bit-stream reader (extract_lsb): one bit per pixel, the parity of
    the red component, pixels visited row by row, and the bits packed into
    bytes most significant bit first. Beside it, the matching writer that the
    reader inverts. */
module Lsb {
  import opened Common
  import opened Raster

  /** The red-component parities of the first n pixels, in row-major order. */
  function RedBits(img: Image, n: nat): seq<bit>
    requires n <= |img.data|
  {
    seq(n, k requires 0 <= k < n => img.data[k].r % 2)
  }

  lemma RedBitsSnoc(img: Image, n: nat)
    requires n < |img.data|
    ensures RedBits(img, n + 1) == RedBits(img, n) + [img.data[n].r % 2]
  {
  }

  /** The eight bits starting at position i, cut short or empty past the end of
      the stream, as a Python slice is. */
  function Chunk(bits: seq<bit>, i: nat): (c: seq<bit>)
    ensures |c| <= 8
  {
    bits[Min(i, |bits|)..Min(i + 8, |bits|)]
  }

  /** What extract_lsb(img, numBytes) returns: numBytes bytes read from the first
      min(8 * numBytes, pixel count) red parities; a ValueError when some byte
      would be built from no bit at all. */
  function LsbBytes(img: Image, numBytes: nat): Result<seq<byte>, Exception>
    requires img.Valid()
  {
    var bits := RedBits(img, Min(8 * numBytes, |img.data|));
    if 0 < numBytes && |bits| <= 8 * (numBytes - 1) then Err(ValueError(EmptyBitString))
    else Ok(Packed(bits, numBytes))
  }

  /** The first n bytes packed from a bit stream, eight bits each, most significant first. */
  function Packed(bits: seq<bit>, n: nat): seq<byte>
  {
    seq(n, i requires 0 <= i < n => ByteOf(Chunk(bits, 8 * i)))
  }

  lemma PackedSnoc(bits: seq<bit>, n: nat)
    ensures Packed(bits, n + 1) == Packed(bits, n) + [ByteOf(Chunk(bits, 8 * n))]
  {
  }

  /** extract_lsb on an image already converted to RGB. */
  method ExtractLsb(img: Image, numBytes: nat) returns (res: Result<seq<byte>, Exception>)
    requires img.Valid()
    ensures res == LsbBytes(img, numBytes)
  {
    var w, h := img.width, img.height;
    var bits: seq<bit> := [];
    var totalBits := numBytes * 8;
    ghost var rowStart := 0;  // y * w, the index of pixel (0, y)
    var y := 0;
    while y < h
      invariant 0 <= y <= h && rowStart == y * w
      invariant |bits| == Min(rowStart, totalBits)
      invariant |bits| <= |img.data| && bits == RedBits(img, |bits|)
    {
      var x := 0;
      while x < w
        invariant 0 <= x <= w
        invariant |bits| == Min(rowStart + x, totalBits)
        invariant |bits| <= |img.data| && bits == RedBits(img, |bits|)
      {
        if |bits| >= totalBits {
          break;
        }
        RowMajorIndex(x, y, w, h);
        RedBitsSnoc(img, |bits|);
        bits := bits + [img.At(x, y).r % 2];
        x := x + 1;
      }
      if |bits| >= totalBits {
        break;
      }
      rowStart := rowStart + w;
      y := y + 1;
    }
    assert |bits| == Min(|img.data|, totalBits) by {
      if y == h {
        assert rowStart == |img.data|;
      }
    }
    CollectedBits(img, bits, numBytes);

    res := PackBits(bits, numBytes);
  }

  /** The second loop of extract_lsb: each successive group of eight collected
      bits, cut short at the end of the list, is read as a binary number and
      becomes one byte; a group with no digit at all raises ValueError. */
  method PackBits(bits: seq<bit>, numBytes: nat) returns (res: Result<seq<byte>, Exception>)
    ensures res == if 0 < numBytes && |bits| <= 8 * (numBytes - 1) then Err(ValueError(EmptyBitString))
                   else Ok(Packed(bits, numBytes))
  {
    var totalBits := numBytes * 8;
    var data: seq<byte> := [];
    var i := 0;
    while i < totalBits
      invariant 0 <= i <= totalBits && i == 8 * |data|
      invariant i > 0 ==> |bits| > i - 8
      invariant data == Packed(bits, |data|)
    {
      var chunk := Chunk(bits, i);
      if chunk == [] {
        return Err(ValueError(EmptyBitString));
      }
      PackedSnoc(bits, |data|);
      data := data + [ByteOf(chunk)];
      i := i + 8;
    }
    return Ok(data);
  }

  /** The bits the scan collects determine what extract_lsb returns. */
  lemma CollectedBits(img: Image, bits: seq<bit>, numBytes: nat)
    requires img.Valid()
    requires |bits| == Min(|img.data|, 8 * numBytes)
    requires forall k :: 0 <= k < |bits| ==> bits[k] == img.data[k].r % 2
    ensures LsbBytes(img, numBytes) ==
      if 0 < numBytes && |bits| <= 8 * (numBytes - 1) then Err(ValueError(EmptyBitString))
      else Ok(Packed(bits, numBytes))
  {
    assert bits == RedBits(img, |bits|);
  }

  /** Bit layout: when the image holds at least 8 * n pixels, the reader returns
      n bytes, and bit j (most significant first) of byte i is the red parity of
      pixel 8 * i + j. */
  lemma LsbLayout(img: Image, n: nat)
    requires img.Valid() && 8 * n <= |img.data|
    ensures LsbBytes(img, n).Ok? && |LsbBytes(img, n).value| == n
    ensures forall i, j :: 0 <= i < n && 0 <= j < 8 ==>
      Bits(LsbBytes(img, n).value[i], 8)[j] == img.data[8 * i + j].r % 2
  {
    var bits := RedBits(img, 8 * n);
    forall i, j | 0 <= i < n && 0 <= j < 8
      ensures Bits(LsbBytes(img, n).value[i], 8)[j] == img.data[8 * i + j].r % 2
    {
      var c := Chunk(bits, 8 * i);
      assert |c| == 8 && c[j] == img.data[8 * i + j].r % 2;
      BitsOfValue(c);
    }
  }

  /** The same layout stated with Python's shift-and-mask: bit 7 - j of byte i. */
  lemma LsbBitOf(img: Image, n: nat, i: nat, j: nat)
    requires img.Valid() && 8 * n <= |img.data| && i < n && j < 8
    ensures LsbBytes(img, n).Ok?
    ensures Bit(LsbBytes(img, n).value[i], 7 - j) == img.data[8 * i + j].r % 2
  {
    LsbLayout(img, n);
    BitsAt(LsbBytes(img, n).value[i], 8, 7 - j);
  }

  /** Green and blue are never read: images that agree on every red component
      give the same result. */
  lemma LsbReadsOnlyRed(a: Image, b: Image, n: nat)
    requires a.Valid() && b.Valid() && |a.data| == |b.data|
    requires forall k :: 0 <= k < |a.data| ==> a.data[k].r == b.data[k].r
    ensures LsbBytes(a, n) == LsbBytes(b, n)
  {
    var m := Min(8 * n, |a.data|);
    assert RedBits(a, m) == RedBits(b, m);
  }

  /** Prefix: a read of n <= m bytes is the first n bytes of a successful read of m,
      which is why re-reading the whole frame from the start agrees with the header. */
  lemma LsbPrefix(img: Image, n: nat, m: nat)
    requires img.Valid() && n <= m && LsbBytes(img, m).Ok?
    ensures LsbBytes(img, n).Ok?
    ensures LsbBytes(img, n).value == LsbBytes(img, m).value[..n]
  {
    if n < m {
      var bn := RedBits(img, Min(8 * n, |img.data|));
      var bm := RedBits(img, Min(8 * m, |img.data|));
      assert |img.data| > 8 * (m - 1) >= 8 * n;
      assert bn == bm[..8 * n];
      forall i | 0 <= i < n
        ensures Chunk(bn, 8 * i) == Chunk(bm, 8 * i)
      {
      }
    }
  }

  /** A read that succeeded returned n bytes, and the image has a pixel for at
      least the first bit of the last one. */
  lemma LsbReadable(img: Image, n: nat)
    requires img.Valid() && LsbBytes(img, n).Ok?
    ensures |LsbBytes(img, n).value| == n && |img.data| + 8 > 8 * n
  {
    LsbShortfall(img, n);
  }

  /** Shortfall: the read fails exactly when the image is short of the requested
      bits by eight or more; a shortfall of one to seven bits yields a last byte
      built from the bits that remain. */
  lemma LsbShortfall(img: Image, n: nat)
    requires img.Valid()
    ensures LsbBytes(img, n).Err? <==> n > 0 && |img.data| + 8 <= 8 * n
    ensures LsbBytes(img, n).Err? ==> LsbBytes(img, n).error == ValueError(EmptyBitString)
    ensures LsbBytes(img, n).Ok? ==> |LsbBytes(img, n).value| == n
    ensures LsbBytes(img, n).Ok? && |img.data| < 8 * n ==>
      LsbBytes(img, n).value[n - 1] == BitsValue(RedBits(img, |img.data|)[8 * (n - 1)..])
  {
    if LsbBytes(img, n).Ok? && |img.data| < 8 * n {
      var bits := RedBits(img, |img.data|);
      assert Chunk(bits, 8 * (n - 1)) == bits[8 * (n - 1)..];
    }
  }

  /** The writer: sets the red parity of pixel k to bit k of the payload's bits
      (most significant bit of each byte first) and leaves everything else alone. */
  function Embed(img: Image, payload: seq<byte>): (res: Image)
    requires img.Valid() && 8 * |payload| <= |img.data|
    ensures res.Valid() && res.width == img.width && res.height == img.height
  {
    Raster(img.width, img.height, seq(|img.data|, k requires 0 <= k < |img.data| =>
      var p := img.data[k];
      if k < 8 * |payload| then Pixel(p.r - p.r % 2 + Bits(payload[k / 8], 8)[k % 8], p.g, p.b)
      else p))
  }

  /** Round trip: reading back any prefix of an embedded payload returns it. */
  lemma LsbReadsEmbedded(img: Image, payload: seq<byte>, n: nat)
    requires img.Valid() && 8 * |payload| <= |img.data| && n <= |payload|
    ensures LsbBytes(Embed(img, payload), n) == Ok(payload[..n])
  {
    var bits := RedBits(Embed(img, payload), 8 * n);
    forall i | 0 <= i < n
      ensures ByteOf(Chunk(bits, 8 * i)) == payload[i]
    {
      EmbeddedChunk(img, payload, n, i);
      ByteBitsRoundTrip(payload[i]);
    }
    assert LsbBytes(Embed(img, payload), n).value == payload[..n];
  }

  /** The eight red parities the reader packs into byte i are the bits of payload[i]. */
  lemma EmbeddedChunk(img: Image, payload: seq<byte>, n: nat, i: nat)
    requires img.Valid() && 8 * |payload| <= |img.data| && i < n <= |payload|
    ensures Chunk(RedBits(Embed(img, payload), 8 * n), 8 * i) == Bits(payload[i], 8)
  {
    var e := Embed(img, payload);
    var c := Chunk(RedBits(e, 8 * n), 8 * i);
    forall j | 0 <= j < 8
      ensures c[j] == Bits(payload[i], 8)[j]
    {
      var k := 8 * i + j;
      DivModUnique(k, 8, i, j);
      EmbeddedParity(img, payload, k);
    }
  }

  /** The red parity of pixel k < 8 * |payload| after embedding is bit k % 8 of byte k / 8. */
  lemma EmbeddedParity(img: Image, payload: seq<byte>, k: nat)
    requires img.Valid() && 8 * |payload| <= |img.data| && k < 8 * |payload|
    ensures Embed(img, payload).data[k].r % 2 == Bits(payload[k / 8], 8)[k % 8]
  {
    var p := img.data[k];
    var b := Bits(payload[k / 8], 8)[k % 8];
    DivModUnique(p.r - p.r % 2 + b, 2, p.r / 2, b);
  }
}

/**
 readPixels: sizes the plane buffer from the image dimensions, then hands the
 filled buffer to the raw decoder or to the normalizer. The reader's openBytes,
 which fills the buffer, is outside the model: the filled buffer is a parameter.
 */
module ReadPixels {
  import opened Wrappers
  import opened ByteAssembly
  import opened PixelTypes
  import opened RawDecoder
  import opened JavaDouble
  import opened Normalizer

  // ---------------------------------------------------------------------------
  // Buffer sizing
  // ---------------------------------------------------------------------------

  const IntRange: int := 0x1_0000_0000

  /** Java `int` arithmetic: reduce to the 32-bit two's complement range. */
  function Wrap32(x: int): (r: int)
    ensures -0x8000_0000 <= r < 0x8000_0000
    ensures (x - r) % IntRange == 0
    ensures -0x8000_0000 <= x < 0x8000_0000 ==> r == x
  {
    (x + 0x8000_0000) % IntRange - 0x8000_0000
  }

  lemma WrapCongruent(x: int, y: int)
    requires (x - y) % IntRange == 0
    ensures Wrap32(x) == Wrap32(y)
  {
    var t := (x - y) / IntRange;
    assert x == y + IntRange * t;
  }

  /** Wrapping an intermediate product does not change the wrapped final product. */
  lemma WrapMul(a: int, b: int)
    ensures Wrap32(Wrap32(a) * b) == Wrap32(a * b)
  {
    var k := (a - Wrap32(a)) / IntRange;
    assert a - Wrap32(a) == IntRange * k;
    assert Wrap32(a) * b == a * b - IntRange * (k * b);
    WrapCongruent(Wrap32(a) * b, a * b);
  }

  /** `sizeX * sizeY * bpp * rgbChannelCount`, evaluated left to right in Java `int`. */
  function PlaneBufferSize(sizeX: int, sizeY: int, bpp: int, rgbChannelCount: int): int
  {
    Wrap32(Wrap32(Wrap32(sizeX * sizeY) * bpp) * rgbChannelCount)
  }

  /** The buffer size is the exact product wrapped once; a product that fits an int is kept. */
  lemma PlaneBufferSizeIsProduct(sizeX: int, sizeY: int, bpp: int, rgbChannelCount: int)
    ensures PlaneBufferSize(sizeX, sizeY, bpp, rgbChannelCount)
         == Wrap32(sizeX * sizeY * bpp * rgbChannelCount)
    ensures 0 <= sizeX * sizeY * bpp * rgbChannelCount < 0x8000_0000 ==>
      PlaneBufferSize(sizeX, sizeY, bpp, rgbChannelCount) == sizeX * sizeY * bpp * rgbChannelCount
  {
    WrapMul(sizeX * sizeY, bpp);
    WrapMul(sizeX * sizeY * bpp, rgbChannelCount);
    WrapMul(Wrap32(sizeX * sizeY) * bpp, rgbChannelCount);
  }

  datatype ReadError = NegativeArraySize

  /**
   `new byte[size]`: the allocation succeeds with exactly the plane's byte count
   whenever that count fits a Java int, and fails on a negative wrapped size.
   */
  function AllocatePlane(sizeX: int, sizeY: int, bpp: int, rgbChannelCount: int): (r: Result<nat, ReadError>)
    ensures r.Failure? <==> PlaneBufferSize(sizeX, sizeY, bpp, rgbChannelCount) < 0
    ensures 0 <= sizeX * sizeY * bpp * rgbChannelCount < 0x8000_0000 ==>
      r == Success(sizeX * sizeY * bpp * rgbChannelCount)
  {
    PlaneBufferSizeIsProduct(sizeX, sizeY, bpp, rgbChannelCount);
    var size := PlaneBufferSize(sizeX, sizeY, bpp, rgbChannelCount);
    if size < 0 then Failure(NegativeArraySize) else Success(size)
  }

  // ---------------------------------------------------------------------------
  // Pixel values per catalog type
  // ---------------------------------------------------------------------------

  /** The value a pixel chunk denotes under its integer pixel type. */
  function PixelValue(t: PixelType, c: seq<Byte>, little: bool): int
    requires !IsFloatingPoint(t) && |c| == BytesPerPixel(t)
  {
    UnsignedBound(c, little);
    if IsSigned(t) then ToSigned(Unsigned(c, little), |c|) else Unsigned(c, little)
  }

  /**
   Decoding a plane of any integer catalog type preserves every pixel value exactly
   (as Java reads the returned array), and each value lies in the type's default
   range; every catalog type, integer or floating, decodes to a non-null array of
   one element per pixel.
   */
  lemma CatalogDecodesLosslessly(t: PixelType, b: seq<Byte>, little: bool)
    ensures var r := RawDataArray(b, BytesPerPixel(t), IsSigned(t), IsFloatingPoint(t), little);
      && !r.Null?
      && Length(r) == |b| / BytesPerPixel(t)
      && (IsFloatingPoint(t) <==> r.Floats? || r.Doubles?)
      && (!IsFloatingPoint(t) ==> forall i :: 0 <= i < Length(r) ==>
            && JavaValue(r, i) == PixelValue(t, Chunk(b, BytesPerPixel(t), i), little)
            && DefaultMinMax(t).0 <= JavaValue(r, i) <= DefaultMinMax(t).1)
  {
    var bpp := BytesPerPixel(t);
    var r := RawDataArray(b, bpp, IsSigned(t), IsFloatingPoint(t), little);
    if !IsFloatingPoint(t) {
      forall i | 0 <= i < Length(r)
        ensures JavaValue(r, i) == PixelValue(t, Chunk(b, bpp, i), little)
        ensures DefaultMinMax(t).0 <= JavaValue(r, i) <= DefaultMinMax(t).1
      {
        var c := Chunk(b, bpp, i);
        UnsignedBound(c, little);
        if t.Int8? {
          ChunkByte(b, 1, i, 0);
          OneByteChunk(c, little);
        }
      }
    }
  }

  /** Lossless widening: the unsigned 16-bit pixel 65535 reads back as 65535. */
  lemma Uint16MaxStaysExact(little: bool)
    ensures RawDataArray([0xFF, 0xFF], 2, false, false, little) == Ints([65535])
  {
    Uint16Decode([0xFF, 0xFF], little);
  }

  /**
   The most negative signed 32-bit pixel decodes to the Java int -2^31. R reads
   that value in an integer vector as its missing-value marker NA_integer_, so such
   a pixel arrives in R as NA: the raw path does not keep signed 32-bit pixels
   clear of the marker.
   */
  lemma Int32MinDecodesToIntMin(little: bool)
    ensures little ==> RawDataArray([0x00, 0x00, 0x00, 0x80], 4, true, false, little) == Ints([-0x8000_0000])
    ensures !little ==> RawDataArray([0x80, 0x00, 0x00, 0x00], 4, true, false, little) == Ints([-0x8000_0000])
  {
    Int32Decode([0x00, 0x00, 0x00, 0x80], little);
    Int32Decode([0x80, 0x00, 0x00, 0x00], little);
  }

  // ---------------------------------------------------------------------------
  // The read path
  // ---------------------------------------------------------------------------

  /** What readPixels returns: a raw typed array, or the normalized doubles. */
  datatype PixelData = Raw(decoded: RawArray) | Normalized(values: Option<seq<DoubleValue>>)

  /**
   readPixels after openBytes has filled `buf`: `normalize` selects the normalizer,
   otherwise the raw decoder, with bpp, signedness and floating point taken from
   the pixel type. `bitsPerPixel` is the image's true bit depth; `floatOf` and
   `doubleOf` stand for the IEEE bit-pattern reinterpretations.
   */
  function ReadPixels(t: PixelType, little: bool, bitsPerPixel: int, buf: seq<Byte>, normalize: bool,
                      floatOf: JavaInt -> DoubleValue, doubleOf: JavaLong -> DoubleValue): (r: PixelData)
    ensures normalize ==> r.Normalized? && r.values.Some? && |r.values.value| == |buf| / BytesPerPixel(t)
    ensures !normalize ==> r.Raw? && !r.decoded.Null? && Length(r.decoded) == |buf| / BytesPerPixel(t)
  {
    var bpp := BytesPerPixel(t);
    if normalize then
      // the default range is consulted only by the integer branch
      var range := if IsFloatingPoint(t) then (0, 0) else DefaultMinMax(t);
      Normalized(NormalizedDataArray(buf, bpp, IsFloatingPoint(t), little, IsSigned(t),
                                     bitsPerPixel, range.0, range.1, floatOf, doubleOf))
    else
      CatalogDecodesLosslessly(t, buf, little);
      Raw(RawDataArray(buf, bpp, IsSigned(t), IsFloatingPoint(t), little))
  }

  /**
   A plane of sizeX by sizeY pixels with rgbChannelCount channels, whose byte count
   fits a Java int, is allocated at exactly that byte count and yields exactly
   sizeX * sizeY * rgbChannelCount values in either mode; an empty plane yields an
   empty result.
   */
  lemma ReadPixelsLength(t: PixelType, little: bool, bitsPerPixel: int, sizeX: int, sizeY: int,
                         rgbChannelCount: int, buf: seq<Byte>, normalize: bool,
                         floatOf: JavaInt -> DoubleValue, doubleOf: JavaLong -> DoubleValue)
    requires sizeX >= 0 && sizeY >= 0 && rgbChannelCount >= 0
    requires sizeX * sizeY * BytesPerPixel(t) * rgbChannelCount < 0x8000_0000
    requires |buf| == sizeX * sizeY * BytesPerPixel(t) * rgbChannelCount
    ensures AllocatePlane(sizeX, sizeY, BytesPerPixel(t), rgbChannelCount) == Success(|buf|)
    ensures var r := ReadPixels(t, little, bitsPerPixel, buf, normalize, floatOf, doubleOf);
      var n := sizeX * sizeY * rgbChannelCount;
      && (r.Normalized? ==> |r.values.value| == n)
      && (r.Raw? ==> Length(r.decoded) == n)
  {
    var bpp := BytesPerPixel(t);
    var n := sizeX * sizeY * rgbChannelCount;
    PixelCountTimesWidth(sizeX, sizeY, bpp, rgbChannelCount);
    assert |buf| == n * bpp;
    DivExact(n, bpp);
  }

  lemma PixelCountTimesWidth(sizeX: int, sizeY: int, bpp: int, rgbChannelCount: int)
    requires sizeX >= 0 && sizeY >= 0 && rgbChannelCount >= 0
    ensures sizeX * sizeY * rgbChannelCount >= 0
    ensures sizeX * sizeY * bpp * rgbChannelCount == (sizeX * sizeY * rgbChannelCount) * bpp
  {
  }

  lemma DivExact(n: int, k: int)
    requires n >= 0 && (k == 1 || k == 2 || k == 4 || k == 8)
    ensures (n * k) / k == n
  {
  }

  /**
   With normalize set, an unsigned integer plane whose true depth is not narrower
   than its container comes back as doubles that are all finite and in [0, 1].
   */
  lemma UnsignedPlaneNormalizesToUnitInterval(t: PixelType, little: bool, bitsPerPixel: int, buf: seq<Byte>,
                                              floatOf: JavaInt -> DoubleValue, doubleOf: JavaLong -> DoubleValue)
    requires t.Uint8? || t.Uint16? || t.Uint32?
    requires bitsPerPixel >= 8 * BytesPerPixel(t)
    ensures var r := ReadPixels(t, little, bitsPerPixel, buf, true, floatOf, doubleOf);
      && r.Normalized? && r.values.Some?
      && forall i :: 0 <= i < |r.values.value| ==>
           r.values.value[i].Finite? && 0.0 <= r.values.value[i].x <= 1.0
  {
  }
}

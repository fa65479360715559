# RBioFormats pixel decoding, modelled in Dafny

This project models the pixel-buffer core of the RBioFormats Java bridge: the code
that turns the raw bytes of one image plane, as the Bio-Formats reader delivers
them, into a typed Java array for R (`rawDataArray`), or into doubles rescaled to
[0, 1] (`normalizedDataArray`), and the buffer sizing of `readPixels` that feeds
them.

Modules (one file each):

- `Wrappers` (`wrappers.dfy`): `Option` (the source's `null` returns) and `Result`.
- `ByteAssembly` (`byte_assembly.dfy`): octets, unsigned big- and little-endian
  assembly, and two's complement narrowing to a Java `short`, `int` or `long`. This is
  how the model reads `DataTools.bytesToShort/Int/Long`, whose code is not part of this model.
- `PixelTypes` (`pixel_types.dfy`): the pixel type catalog (bytes per pixel,
  signedness, floating point, default min/max). `FormatTools` is not part of this
  model; the catalog follows Bio-Formats' published pixel types.
- `RawDecoder` (`raw_decoder.dfy`): `rawDataArray`, the width dispatch and per-chunk decoding.
- `JavaDouble` (`java_double.dfy`): Java `double` values as exact reals plus ±Infinity and NaN.
- `Normalizer` (`normalizer.dfy`): both branches of `normalizedDataArray`.
- `ReadPixels` (`read_pixels.dfy`): the `int` buffer-size arithmetic and the
  raw/normalized dispatch of `readPixels`.

Behaviour the model follows because the code does it:

- A signed 8-bit plane (width 1) is returned as the byte buffer itself. It is not
  promoted to 16-bit values. The model's `Bytes` variant holds the octets, and
  `JavaValue` reads them as Java's signed bytes.
- A signed 32-bit plane decodes to a Java `int[]`. It is not converted to
  64-bit floating values. R reads the int -2^31 in an integer vector as its
  missing-value marker `NA_integer_`, so a pixel with that value reaches R as NA
  (`ReadPixels.Int32MinDecodesToIntMin`).
- A width outside the dispatch table (for example unsigned with 8 bytes per pixel,
  width 16) returns `null` (`Null`). It does not raise a typed error.
- Integer normalization reads pixels with `bytesToLong`. Below 8 bytes this does not
  sign-extend, so signed planes are not confined to [0, 1]
  (`Normalizer.SignedReadsUnsignedBytes`).
- The float scan starts from `max = Double.MIN_VALUE`, which is the smallest
  positive double, not the most negative one. The model keeps that start value
  (`JavaDouble.MinValue`; see `Normalizer.NegativePlaneNeverReachesOne`).
- The code has no encoder or write path and no region read.

## Model

| member | source | states |
|---|---|---|
| `ByteAssembly.BytesToContainer` | java/RBioFormats.java:104-138 | A chunk read into an n-byte Java container agrees with the chunk's unsigned value modulo 256^n. It lies in the signed n-byte range. A chunk shorter than the container keeps its non-negative unsigned value. |
| `ByteAssembly.LittleEndianIsReversedBigEndian` | java/RBioFormats.java:107 | Reading little-endian equals reading the reversed chunk big-endian, so the `little` flag only selects the byte order. |
| `ByteAssembly.UnsignedInjective` | java/RBioFormats.java:107 | Two chunks of equal length with the same unsigned value in one byte order are the same chunk. |
| `ByteAssembly.UnsignedBound` | java/RBioFormats.java:107 | An unsigned read of len bytes is below 256^len. |
| `PixelTypes.DefaultMinMax` | java/RBioFormats.java:182-183 | The default range of an integer pixel type is the full range of a container of its bytes per pixel: two's complement when signed, 0..256^bpp-1 when unsigned. |
| `RawDecoder.RawDataArray` | java/RBioFormats.java:97-140 | The result is null exactly when the width (bpp if signed, 2*bpp if unsigned) is not 1, 2, 4 or 8. Width 1 returns the buffer itself. Otherwise the result has one element per bpp-byte chunk, with a container of exactly `width` bytes. Each element carries exactly its chunk's bits, and for unsigned sources it equals the chunk's non-negative value. |
| `RawDecoder.DecodeIsLocal` | java/RBioFormats.java:105-137 | Element i depends only on the bytes b[i*bpp .. i*bpp+bpp). |
| `RawDecoder.RawDataArrayInjective` | java/RBioFormats.java:97-139 | Decoding is lossless: two buffers of whole chunks that give the same non-null result are equal. |
| `RawDecoder.Uint8Decode` | java/RBioFormats.java:104-109 | An unsigned 8-bit plane decodes to shorts equal to its bytes (0..255). |
| `RawDecoder.Uint16Decode` | java/RBioFormats.java:118-124 | An unsigned 16-bit plane decodes to ints in 0..65535. Each int is b[2i] + 256*b[2i+1] little-endian, or 256*b[2i] + b[2i+1] big-endian. |
| `RawDecoder.Uint32Decode` | java/RBioFormats.java:132-137 | An unsigned 32-bit plane decodes to longs in 0..2^32-1, given positionally in either byte order. |
| `RawDecoder.Int32Decode` | java/RBioFormats.java:118-124 | A signed 32-bit plane decodes to ints: the four bytes read as two's complement. |
| `RawDecoder.ByteOrderExample` | java/RBioFormats.java:118-124 | The unsigned 16-bit pixel [0x00, 0x01] decodes to 256 little-endian and to 1 big-endian. |
| `ReadPixels.Uint16MaxStaysExact` | java/RBioFormats.java:118-124 | The unsigned 16-bit pixel 0xFFFF decodes to 65535, with no sign flip. |
| `ReadPixels.Int32MinDecodesToIntMin` | java/RBioFormats.java:118-124 | The most negative signed 32-bit pixel decodes to the Java int -2^31. R reads that value as NA, so the raw path does not keep signed 32-bit pixels clear of the missing-value marker. |
| `ReadPixels.CatalogDecodesLosslessly` | java/RBioFormats.java:86-93 | For every catalog pixel type the raw path gives a non-null array with one element per pixel, of a floating variant exactly for float and double. For integer types each element, as Java reads it, equals the pixel's value under its type and lies in the type's default range. |
| `Normalizer.Rescale` | java/RBioFormats.java:189-190 | With a non-zero range, min maps to 0.0 and max to 1.0. Values in [min, max] land in [0, 1]. A zero range gives a non-finite result. |
| `Normalizer.EffectiveMax` | java/RBioFormats.java:182-187 | Signed types and depths of at least 8*bpp keep the default max. Otherwise max + 1 is 2^bitsPerPixel. For an unsigned type whose default is the full container and a bit depth of at least 1, the effective max is positive and at most the default. It is strictly below the default exactly when bitsPerPixel < 8*bpp. |
| `Normalizer.IntegerNormalize` | java/RBioFormats.java:181-191 | One double per pixel, rescaled against (defaultMin, effective max). The min is never overridden: a pixel reading defaultMin maps to 0.0 and one reading the effective max maps to 1.0. Pixels within that range land in [0, 1], and a zero range gives non-finite values. An unsigned plane with its full default range and no override lies entirely in [0, 1]. |
| `Normalizer.UnsignedNormalizeInUnitInterval` | java/RBioFormats.java:181-191 | For an unsigned plane with its default range and any bit depth of at least 1, every pixel with raw 0 maps to 0.0, raw == max maps to 1.0, and raw at most max lands in [0, 1]. |
| `Normalizer.SixBitExample` | java/RBioFormats.java:185-190 | An 8-bit unsigned plane of true depth 6 normalizes raw 63 to 1.0 and raw 0 to 0.0. |
| `Normalizer.SignedReadsUnsignedBytes` | java/RBioFormats.java:189-190 | The signed 8-bit pixel 0xFF is normalized as raw 255, giving 383/255, because the read does not sign-extend. |
| `Normalizer.ScanMin` | java/RBioFormats.java:150-158 | The scanned min is at most the start value and every finite element. It is either the start value or one of the finite elements. |
| `Normalizer.ScanMax` | java/RBioFormats.java:161-169 | The scanned max is at least the start value and every finite element. It is either the start value or one of the finite elements. |
| `Normalizer.InfinityDoesNotMoveRange` | java/RBioFormats.java:152-153 | Removing an infinite element from the plane changes neither the scanned min nor the scanned max. |
| `Normalizer.FloatRange` | java/RBioFormats.java:147-170 | Every finite element lies between the scanned min and max. |
| `Normalizer.NegativePlaneNeverReachesOne` | java/RBioFormats.java:161-176 | Because the max scan starts at the smallest positive double, a plane whose finite values are all negative keeps that start value as its max, and none of its finite pixels normalizes to 1.0. |
| `Normalizer.FloatNormalize` | java/RBioFormats.java:173-179 | +Infinity maps to 1.0 and -Infinity to 0.0 whatever the finite range, and NaN stays NaN. With a non-degenerate range every finite element lands in [0, 1], with the scanned min at 0.0 and max at 1.0. |
| `Normalizer.NormalizedDataArray` | java/RBioFormats.java:142-194 | The result is null exactly for a floating type whose bpp is neither 4 nor 8. Otherwise it has one double per pixel. For floating types, infinite decoded pixels map to 1.0 / 0.0, and with a non-degenerate scanned range every finite pixel lands in [0, 1]. An unsigned integer plane with its full default range and no override lands in [0, 1]. |
| `ReadPixels.PlaneBufferSizeIsProduct` | java/RBioFormats.java:80 | The left-to-right Java `int` product equals the exact product wrapped once to 32 bits. It equals the exact product when that fits a non-negative `int`. |
| `ReadPixels.AllocatePlane` | java/RBioFormats.java:80-82 | Allocation fails exactly on a negative wrapped size. It yields exactly sizeX*sizeY*bpp*rgbChannelCount bytes when that product fits an `int`. |
| `ReadPixels.ReadPixels` | java/RBioFormats.java:78-95 | The normalize flag selects a non-null double array, and otherwise a non-null raw array. Either has one element per bpp bytes of the buffer. |
| `ReadPixels.UnsignedPlaneNormalizesToUnitInterval` | java/RBioFormats.java:78-91 | With normalize set, a uint8, uint16 or uint32 plane whose true depth is at least its container's bits yields doubles that are all finite and in [0, 1]. |
| `ReadPixels.ReadPixelsLength` | java/RBioFormats.java:80-93 | A plane whose byte count fits an `int` is allocated at exactly that count, and yields exactly sizeX*sizeY*rgbChannelCount values in either mode. An empty plane yields an empty result. |

## Left out

- `setupReader`, the static initializer, `getReader`, `getOMEXML`, `getCurrentFile`: these are reader configuration, service lookup (OME-XML) and process-wide mutable state. They do I/O and can throw Bio-Formats exceptions, which the model does not represent.
- `reader.openBytes`, `getPixelType`, `isLittleEndian`, `getCoreMetadataList`: these are reader calls. The pixel type, byte order, true bit depth and the filled buffer are parameters of the model.
- `DataTools.bytesToFloat` / `bytesToDouble`: the IEEE-754 reinterpretation is a parameter (`floatOf`, `doubleOf`). `Floats` and `Doubles` hold the integer bit patterns that are reinterpreted.
- Double arithmetic: rounding, overflow, subnormals and the sign of zero are not modelled. Finite doubles are exact reals, and a zero range is taken as +0.0.
- The one-bit pixel type: it is not in the modelled catalog.
- `Normalizer.NormalizedDataArray`: requires bpp in {1, 2, 4, 8}, the catalog's values. With bpp 0 the source throws on `b.length / bpp` before any branch. With bpp above 8, `bytesToLong` would depend on Java's shift-count masking.
- Signed integer normalization: no [0, 1] bound holds for signed sources, so none is claimed.
- `ReadPixels.ReadPixels`: the default min/max of a floating type is never consulted, so the model passes a placeholder in that branch.
- Encoding, writing and region reads: the code has none of them.
- java/src/RBioFormats.java: it holds only a `sayHello` string stub.

/**
 normalizedDataArray: rescales a raw plane into doubles, mapping the range
 minimum to 0 and the maximum to 1.

 Integer planes take the pixel type's default (min, max), with max replaced by
 2^bitsPerPixel - 1 for unsigned types whose true bit depth is narrower than the
 container. Floating-point planes scan the finite values for min and max, skipping
 the infinities, which are mapped to 1.0 and 0.0 afterwards.
 */
module Normalizer {
  import opened Wrappers
  import opened ByteAssembly
  import opened RawDecoder
  import opened JavaDouble

  // ---------------------------------------------------------------------------
  // Integer planes
  // ---------------------------------------------------------------------------

  /**
   The max of the integer range. The bit-depth override applies only to unsigned
   types whose true depth is narrower than their bytes per pixel, and it sets max
   to 2^bitsPerPixel - 1. For an unsigned type whose default range is the full
   container, a true depth of at least one bit only ever narrows the range: max stays
   positive and drops strictly below the default exactly when the depth is narrower.
   */
  function EffectiveMax(signed: bool, bpp: int, bitsPerPixel: int, defaultMax: int): (max: real)
    ensures signed || bitsPerPixel >= bpp * 8 ==> max == defaultMax as real
    ensures !signed && bitsPerPixel < bpp * 8 ==> max + 1.0 == Pow2(bitsPerPixel)
    ensures !signed && 1 <= bpp && 1 <= bitsPerPixel && defaultMax == Pow256(bpp) - 1 ==>
      && 0.0 < max <= defaultMax as real
      && (max < defaultMax as real <==> bitsPerPixel < bpp * 8)
  {
    var max := if !signed && bitsPerPixel < bpp * 8 then Pow2(bitsPerPixel) - 1.0 else defaultMax as real;
    if 1 <= bpp && 1 <= bitsPerPixel then DepthAgainstContainer(bpp, bitsPerPixel); max else max
  }

  /** 2^bits against the 2^(8 bpp) values of a bpp-byte container. */
  lemma DepthAgainstContainer(bpp: nat, bits: int)
    requires 1 <= bpp && 1 <= bits
    ensures 1.0 < Pow2(bits)
    ensures 1 < Pow256(bpp)
    ensures bits < 8 * bpp <==> Pow2(bits) < Pow256(bpp) as real
  {
    Pow2OfBytes(bpp);
    Pow2StrictlyIncreasing(0, bits);
    Pow2StrictlyIncreasing(0, 8 * bpp);
    if bits < 8 * bpp {
      Pow2StrictlyIncreasing(bits, 8 * bpp);
    } else if bits > 8 * bpp {
      Pow2StrictlyIncreasing(8 * bpp, bits);
    }
  }

  /** (raw - min) / (max - min) in double arithmetic. */
  function Rescale(raw: real, min: real, max: real): (v: DoubleValue)
    ensures min != max ==> v.Finite?
    ensures min != max && raw == min ==> v == Finite(0.0)
    ensures min != max && raw == max ==> v == Finite(1.0)
    ensures min < max && min <= raw <= max ==> v.Finite? && 0.0 <= v.x <= 1.0
    ensures min == max ==> !v.Finite?
  {
    if min != max then
      QuotientFacts(raw - min, max - min);
      Divide(raw - min, max - min)
    else
      Divide(raw - min, max - min)
  }

  lemma QuotientFacts(n: real, d: real)
    requires d != 0.0
    ensures n == 0.0 ==> n / d == 0.0
    ensures n == d ==> n / d == 1.0
    ensures 0.0 <= n <= d ==> 0.0 <= n / d <= 1.0
  {
    if 0.0 <= n <= d {
      assert n / d * d == n;
    }
  }

  /** The raw integer of pixel i as bytesToLong reads it: no sign extension below 8 bytes. */
  function RawLong(b: seq<Byte>, bpp: int, little: bool, i: int): (v: int)
    requires bpp == 1 || bpp == 2 || bpp == 4 || bpp == 8
    requires 0 <= i < |b| / bpp
    ensures bpp < 8 ==> 0 <= v < Pow256(bpp)
  {
    UnsignedBound(Chunk(b, bpp, i), little);
    BytesToContainer(Chunk(b, bpp, i), little, 8)
  }

  /**
   The integer branch of normalizedDataArray: one double per pixel, rescaled
   against (defaultMin, EffectiveMax). The min is never overridden, so a pixel
   reading defaultMin maps to 0.0 and one reading the effective max maps to 1.0.
   An unsigned plane with its full default range and no override lies in [0, 1].
   */
  function IntegerNormalize(b: seq<Byte>, bpp: int, signed: bool, little: bool,
                            bitsPerPixel: int, defaultMin: int, defaultMax: int): (out: seq<DoubleValue>)
    requires bpp == 1 || bpp == 2 || bpp == 4 || bpp == 8
    ensures |out| == |b| / bpp
    ensures forall i :: 0 <= i < |out| ==>
      var raw := RawLong(b, bpp, little, i) as real;
      var min := defaultMin as real;
      var max := EffectiveMax(signed, bpp, bitsPerPixel, defaultMax);
      && (min != max && raw == min ==> out[i] == Finite(0.0))
      && (min != max && raw == max ==> out[i] == Finite(1.0))
      && (min < max && min <= raw <= max ==> out[i].Finite? && 0.0 <= out[i].x <= 1.0)
      && (min == max ==> !out[i].Finite?)
    ensures !signed && bpp < 8 && defaultMin == 0 && defaultMax == Pow256(bpp) - 1 && bitsPerPixel >= 8 * bpp ==>
      forall i :: 0 <= i < |out| ==> out[i].Finite? && 0.0 <= out[i].x <= 1.0
  {
    var min := defaultMin as real;
    var max := EffectiveMax(signed, bpp, bitsPerPixel, defaultMax);
    seq(|b| / bpp, i requires 0 <= i < |b| / bpp => Rescale(RawLong(b, bpp, little, i) as real, min, max))
  }

  /** 2^(8n) as a real is 256^n. */
  lemma {:induction false} Pow2OfBytes(n: nat)
    ensures Pow2(8 * n) == Pow256(n) as real
  {
    if n > 0 {
      Pow2OfBytes(n - 1);
      Pow2Add(8 * (n - 1), 8);
    }
  }

  /**
   Integer normalization of an unsigned plane with its default range (0, 2^(8 bpp) - 1)
   and any true depth of at least one bit: every pixel whose raw value is within the
   effective max lies in [0, 1], the raw value 0 maps to 0 and the effective max
   maps to 1.
   */
  lemma UnsignedNormalizeInUnitInterval(b: seq<Byte>, bpp: int, little: bool, bitsPerPixel: int)
    requires bpp == 1 || bpp == 2 || bpp == 4
    requires 1 <= bitsPerPixel
    ensures var out := IntegerNormalize(b, bpp, false, little, bitsPerPixel, 0, Pow256(bpp) - 1);
      var max := EffectiveMax(false, bpp, bitsPerPixel, Pow256(bpp) - 1);
      forall i :: 0 <= i < |out| ==>
        var raw := RawLong(b, bpp, little, i) as real;
        && (raw <= max ==> out[i].Finite? && 0.0 <= out[i].x <= 1.0)
        && (raw == 0.0 ==> out[i] == Finite(0.0))
        && (raw == max ==> out[i] == Finite(1.0))
  {
  }

  /** An 8-bit unsigned plane of true depth 6 (max 63): 63 maps to 1.0 and 0 to 0.0. */
  lemma SixBitExample(little: bool)
    ensures IntegerNormalize([63, 0], 1, false, little, 6, 0, 255) == [Finite(1.0), Finite(0.0)]
  {
    var out := IntegerNormalize([63, 0], 1, false, little, 6, 0, 255);
    assert EffectiveMax(false, 1, 6, 255) == 63.0;
    assert Chunk([63, 0], 1, 0) == [63];
    assert Chunk([63, 0], 1, 1) == [0];
    OneByteChunk([63], little);
    OneByteChunk([0], little);
  }

  /**
   Signed planes are read without sign extension: the signed 8-bit pixel 0xFF
   (Java byte -1) is normalized against (-128, 127) as the raw value 255.
   */
  lemma SignedReadsUnsignedBytes(little: bool)
    ensures IntegerNormalize([0xFF], 1, true, little, 8, -128, 127) == [Finite(383.0 / 255.0)]
  {
    assert Chunk([0xFF], 1, 0) == [0xFF];
    OneByteChunk([0xFF], little);
  }

  // ---------------------------------------------------------------------------
  // Floating-point planes
  // ---------------------------------------------------------------------------

  /** One step of the min scan: infinities are skipped, and NaN never compares below. */
  function MinStep(v: DoubleValue, acc: real): real
  {
    match v
    case Finite(x) => if x < acc then x else acc
    case PosInfinity | NegInfinity => acc
    case NaN => acc
  }

  function MaxStep(v: DoubleValue, acc: real): real
  {
    match v
    case Finite(x) => if x > acc then x else acc
    case PosInfinity | NegInfinity => acc
    case NaN => acc
  }

  /** The running min of the scan, started at acc: the least of acc and the finite values. */
  function ScanMin(vals: seq<DoubleValue>, acc: real): (m: real)
    ensures m <= acc
    ensures forall i :: 0 <= i < |vals| && vals[i].Finite? ==> m <= vals[i].x
    ensures m == acc || exists i :: 0 <= i < |vals| && vals[i].Finite? && vals[i].x == m
    decreases |vals|
  {
    if |vals| == 0 then acc
    else
      var m := ScanMin(vals[1..], MinStep(vals[0], acc));
      assert forall i :: 1 <= i < |vals| ==> vals[i] == vals[1..][i - 1];
      m
  }

  /** The running max of the scan, started at acc: the greatest of acc and the finite values. */
  function ScanMax(vals: seq<DoubleValue>, acc: real): (m: real)
    ensures m >= acc
    ensures forall i :: 0 <= i < |vals| && vals[i].Finite? ==> m >= vals[i].x
    ensures m == acc || exists i :: 0 <= i < |vals| && vals[i].Finite? && vals[i].x == m
    decreases |vals|
  {
    if |vals| == 0 then acc
    else
      var m := ScanMax(vals[1..], MaxStep(vals[0], acc));
      assert forall i :: 1 <= i < |vals| ==> vals[i] == vals[1..][i - 1];
      m
  }

  lemma {:induction false} ScanAppend(s: seq<DoubleValue>, t: seq<DoubleValue>, lo: real, hi: real)
    ensures ScanMin(s + t, lo) == ScanMin(t, ScanMin(s, lo))
    ensures ScanMax(s + t, hi) == ScanMax(t, ScanMax(s, hi))
    decreases |s|
  {
    if |s| == 0 {
      assert s + t == t;
    } else {
      assert (s + t)[1..] == s[1..] + t;
      ScanAppend(s[1..], t, MinStep(s[0], lo), MaxStep(s[0], hi));
    }
  }

  /** An infinity anywhere in the plane leaves the scanned min and max unchanged. */
  lemma InfinityDoesNotMoveRange(vals: seq<DoubleValue>, k: int, lo: real, hi: real)
    requires 0 <= k < |vals|
    requires vals[k].PosInfinity? || vals[k].NegInfinity?
    ensures ScanMin(vals, lo) == ScanMin(vals[..k] + vals[k + 1..], lo)
    ensures ScanMax(vals, hi) == ScanMax(vals[..k] + vals[k + 1..], hi)
  {
    assert vals == vals[..k] + ([vals[k]] + vals[k + 1..]);
    ScanAppend(vals[..k], [vals[k]] + vals[k + 1..], lo, hi);
    ScanAppend([vals[k]], vals[k + 1..], ScanMin(vals[..k], lo), ScanMax(vals[..k], hi));
    ScanAppend(vals[..k], vals[k + 1..], lo, hi);
  }

  /** The (min, max) the scan finds, from the source's initial MAX_VALUE and MIN_VALUE. */
  function FloatRange(vals: seq<DoubleValue>): (r: (real, real))
    ensures forall i :: 0 <= i < |vals| && vals[i].Finite? ==> r.0 <= vals[i].x <= r.1
  {
    (ScanMin(vals, MaxValue), ScanMax(vals, MinValue))
  }

  /** The second pass: +Infinity to 1.0, -Infinity to 0.0, the rest rescaled. */
  function MapFloat(v: DoubleValue, min: real, max: real): (w: DoubleValue)
    ensures v.PosInfinity? ==> w == Finite(1.0)
    ensures v.NegInfinity? ==> w == Finite(0.0)
    ensures v.NaN? ==> w.NaN?
  {
    match v
    case PosInfinity => Finite(1.0)
    case NegInfinity => Finite(0.0)
    case NaN => NaN
    case Finite(x) => Rescale(x, min, max)
  }

  /**
   The floating-point branch on the decoded values: infinities become exactly
   1.0 and 0.0 whatever the finite range; when the range is not degenerate every
   finite value lands in [0, 1] and the scanned min and max land on 0 and 1.
   */
  function FloatNormalize(vals: seq<DoubleValue>): (out: seq<DoubleValue>)
    ensures |out| == |vals|
    ensures forall i :: 0 <= i < |vals| && vals[i].PosInfinity? ==> out[i] == Finite(1.0)
    ensures forall i :: 0 <= i < |vals| && vals[i].NegInfinity? ==> out[i] == Finite(0.0)
    ensures forall i :: 0 <= i < |vals| && vals[i].NaN? ==> out[i].NaN?
    ensures var (min, max) := FloatRange(vals);
      min < max ==> forall i :: 0 <= i < |vals| && vals[i].Finite? ==>
        out[i].Finite? && 0.0 <= out[i].x <= 1.0
          && (vals[i].x == min ==> out[i].x == 0.0)
          && (vals[i].x == max ==> out[i].x == 1.0)
  {
    var (min, max) := FloatRange(vals);
    seq(|vals|, i requires 0 <= i < |vals| => MapFloat(vals[i], min, max))
  }

  /**
   The max scan starts at Double.MIN_VALUE, the smallest positive double: on a
   plane whose finite values are all negative the scanned max stays at that start
   value, so no finite pixel is normalized to 1.0.
   */
  lemma NegativePlaneNeverReachesOne(vals: seq<DoubleValue>)
    requires forall i :: 0 <= i < |vals| && vals[i].Finite? ==> vals[i].x < 0.0
    ensures FloatRange(vals).1 == MinValue
    ensures forall i :: 0 <= i < |vals| && vals[i].Finite? ==> FloatNormalize(vals)[i] != Finite(1.0)
  {
    var (min, max) := FloatRange(vals);
    assert MinValue > 0.0;
    forall i | 0 <= i < |vals| && vals[i].Finite?
      ensures FloatNormalize(vals)[i] != Finite(1.0)
    {
      var v := vals[i].x;
      assert min <= v < 0.0 < max;
      QuotientBelowOne(v - min, max - min);
    }
  }

  lemma QuotientBelowOne(n: real, d: real)
    requires 0.0 < d && n < d
    ensures n / d < 1.0
  {
    assert n / d * d == n;
  }

  /** The decoded value of pixel i: a float widened to double for bpp 4, a double for bpp 8. */
  function FloatValue(b: seq<Byte>, bpp: int, little: bool,
                      floatOf: JavaInt -> DoubleValue, doubleOf: JavaLong -> DoubleValue, i: int): DoubleValue
    requires bpp == 4 || bpp == 8
    requires 0 <= i < |b| / bpp
  {
    if bpp == 4 then floatOf(BytesToContainer(Chunk(b, bpp, i), little, 4))
    else doubleOf(BytesToContainer(Chunk(b, bpp, i), little, 8))
  }

  function FloatValues(b: seq<Byte>, bpp: int, little: bool,
                       floatOf: JavaInt -> DoubleValue, doubleOf: JavaLong -> DoubleValue): (vals: seq<DoubleValue>)
    requires bpp == 4 || bpp == 8
    ensures |vals| == |b| / bpp
    ensures forall i :: 0 <= i < |vals| ==> vals[i] == FloatValue(b, bpp, little, floatOf, doubleOf, i)
  {
    seq(|b| / bpp, i requires 0 <= i < |b| / bpp => FloatValue(b, bpp, little, floatOf, doubleOf, i))
  }

  /**
   normalizedDataArray. `floatOf` and `doubleOf` stand for Float.intBitsToFloat
   (widened to double) and Double.longBitsToDouble. A floating-point type whose
   bytes per pixel is neither 4 nor 8 yields None (the source's null).
   */
  function NormalizedDataArray(b: seq<Byte>, bpp: int, fp: bool, little: bool, signed: bool,
                               bitsPerPixel: int, defaultMin: int, defaultMax: int,
                               floatOf: JavaInt -> DoubleValue, doubleOf: JavaLong -> DoubleValue): (r: Option<seq<DoubleValue>>)
    requires bpp == 1 || bpp == 2 || bpp == 4 || bpp == 8
    ensures r.None? <==> fp && bpp != 4 && bpp != 8
    ensures r.Some? ==> |r.value| == |b| / bpp
    ensures r.Some? && fp ==> forall i :: 0 <= i < |r.value| ==>
      var v := FloatValue(b, bpp, little, floatOf, doubleOf, i);
      && (v.PosInfinity? ==> r.value[i] == Finite(1.0))
      && (v.NegInfinity? ==> r.value[i] == Finite(0.0))
    ensures r.Some? && fp ==>
      var (min, max) := FloatRange(FloatValues(b, bpp, little, floatOf, doubleOf));
      min < max ==> forall i :: 0 <= i < |r.value| && FloatValue(b, bpp, little, floatOf, doubleOf, i).Finite? ==>
        r.value[i].Finite? && 0.0 <= r.value[i].x <= 1.0
    ensures !fp && !signed && bpp < 8 && defaultMin == 0 && defaultMax == Pow256(bpp) - 1 && bitsPerPixel >= 8 * bpp ==>
      forall i :: 0 <= i < |r.value| ==> r.value[i].Finite? && 0.0 <= r.value[i].x <= 1.0
  {
    if fp then
      if bpp == 4 || bpp == 8 then Some(FloatNormalize(FloatValues(b, bpp, little, floatOf, doubleOf)))
      else None
    else Some(IntegerNormalize(b, bpp, signed, little, bitsPerPixel, defaultMin, defaultMax))
  }
}

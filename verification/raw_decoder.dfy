/**
 Lossless decoding of a raw plane buffer into a typed Java array.

 The container width is `bpp` bytes for signed pixel types and `2 * bpp` bytes for
 unsigned ones, so that unsigned values widen into a signed container that holds
 them exactly. Each pixel is the `bpp`-byte chunk at index `i * bpp`, assembled in
 the declared byte order. A width outside 1, 2, 4, 8 yields `Null`.
 */
module RawDecoder {
  import opened ByteAssembly

  type JavaShort = x: int | -0x8000 <= x < 0x8000
  type JavaInt = x: int | -0x8000_0000 <= x < 0x8000_0000
  type JavaLong = x: int | -0x8000_0000_0000_0000 <= x < 0x8000_0000_0000_0000

  /**
   The array object a decode returns. `Floats` and `Doubles` hold the integer bit
   patterns that Float.intBitsToFloat and Double.longBitsToDouble reinterpret.
   */
  datatype RawArray =
    | Bytes(bytes: seq<Byte>)
    | Shorts(shorts: seq<JavaShort>)
    | Floats(floatBits: seq<JavaInt>)
    | Ints(ints: seq<JavaInt>)
    | Doubles(doubleBits: seq<JavaLong>)
    | Longs(longs: seq<JavaLong>)
    | Null

  function Length(r: RawArray): nat
  {
    match r
    case Bytes(s) => |s|
    case Shorts(s) => |s|
    case Floats(s) => |s|
    case Ints(s) => |s|
    case Doubles(s) => |s|
    case Longs(s) => |s|
    case Null => 0
  }

  /** Bytes per element of the returned Java array. */
  function ContainerBytes(r: RawArray): nat
  {
    match r
    case Bytes(_) => 1
    case Shorts(_) => 2
    case Floats(_) | Ints(_) => 4
    case Doubles(_) | Longs(_) => 8
    case Null => 0
  }

  /** Element i as Java sees it; a Java `byte` is the two's complement of the octet. */
  function JavaValue(r: RawArray, i: int): int
    requires 0 <= i < Length(r)
  {
    match r
    case Bytes(s) => ToSigned(s[i], 1)
    case Shorts(s) => s[i]
    case Floats(s) => s[i]
    case Ints(s) => s[i]
    case Doubles(s) => s[i]
    case Longs(s) => s[i]
  }

  /** Container width in bytes: unsigned types take a container twice as wide. */
  function Width(bpp: int, signed: bool): int
  {
    if signed then bpp else bpp * 2
  }

  lemma MulLe(a: int, c: int, k: int)
    requires a <= c && k >= 0
    ensures a * k <= c * k
  {
  }

  lemma ChunkInBounds(n: int, bpp: int, i: int)
    requires n >= 0 && bpp > 0 && 0 <= i < n / bpp
    ensures 0 <= i * bpp && i * bpp + bpp <= n
  {
    var q := n / bpp;
    assert q * bpp <= n;
    MulLe(i + 1, q, bpp);
    MulLe(0, i, bpp);
  }

  /** The `bpp` bytes of pixel i. */
  function Chunk(b: seq<Byte>, bpp: int, i: int): (c: seq<Byte>)
    requires bpp > 0 && 0 <= i < |b| / bpp
    ensures |c| == bpp
  {
    ChunkInBounds(|b|, bpp, i);
    var lo := i * bpp;
    b[lo .. lo + bpp]
  }

  /** Byte k of pixel i's chunk is byte i * bpp + k of the buffer. */
  lemma ChunkByte(b: seq<Byte>, bpp: int, i: int, k: int)
    requires bpp > 0 && 0 <= i < |b| / bpp && 0 <= k < bpp
    ensures 0 <= i * bpp + k < |b|
    ensures Chunk(b, bpp, i)[k] == b[i * bpp + k]
  {
    ChunkInBounds(|b|, bpp, i);
  }

  /**
   One decode loop of the source: element i is the chunk of pixel i read by
   DataTools into an n-byte container.
   */
  function Decode(b: seq<Byte>, bpp: int, little: bool, n: nat): (s: seq<int>)
    requires 1 <= bpp <= n
    ensures |s| == |b| / bpp
    ensures forall i :: 0 <= i < |s| ==> -HalfPow256(n) <= s[i] < HalfPow256(n)
    ensures forall i :: 0 <= i < |s| ==> s[i] % Pow256(n) == Unsigned(Chunk(b, bpp, i), little)
    ensures bpp < n ==> forall i :: 0 <= i < |s| ==> s[i] == Unsigned(Chunk(b, bpp, i), little)
  {
    seq(|b| / bpp, i requires 0 <= i < |b| / bpp => BytesToContainer(Chunk(b, bpp, i), little, n))
  }

  /**
   rawDataArray: dispatch on (width, fp). Width 1 hands back the buffer itself;
   every other supported width produces one element per `bpp`-byte chunk whose
   bits are exactly the chunk's bits, and a chunk narrower than the container
   (an unsigned source) keeps its non-negative unsigned value.
   */
  function RawDataArray(b: seq<Byte>, bpp: int, signed: bool, fp: bool, little: bool): (r: RawArray)
    ensures var w := Width(bpp, signed);
      r.Null? <==> !(w == 1 || w == 2 || w == 4 || w == 8)
    ensures r.Bytes? <==> Width(bpp, signed) == 1
    ensures r.Bytes? ==> r.bytes == b
    ensures (r.Floats? || r.Doubles?) <==> fp && (Width(bpp, signed) == 4 || Width(bpp, signed) == 8)
    ensures !r.Null? ==> bpp >= 1 && Length(r) == |b| / bpp && ContainerBytes(r) == Width(bpp, signed)
    ensures !r.Null? && !r.Bytes? ==> forall i :: 0 <= i < Length(r) ==>
      JavaValue(r, i) % Pow256(ContainerBytes(r)) == Unsigned(Chunk(b, bpp, i), little)
    ensures !r.Null? && !signed ==> forall i :: 0 <= i < Length(r) ==>
      JavaValue(r, i) == Unsigned(Chunk(b, bpp, i), little)
  {
    var w := Width(bpp, signed);
    if w == 1 then Bytes(b)
    else if w == 2 then Shorts(Decode(b, bpp, little, 2))
    else if w == 4 && fp then Floats(Decode(b, bpp, little, 4))
    else if w == 4 then Ints(Decode(b, bpp, little, 4))
    else if w == 8 && fp then Doubles(Decode(b, bpp, little, 8))
    else if w == 8 then Longs(Decode(b, bpp, little, 8))
    else Null
  }

  /** Element i of the result is determined by the bytes of chunk i alone. */
  lemma DecodeIsLocal(b1: seq<Byte>, b2: seq<Byte>, bpp: int, signed: bool, fp: bool, little: bool, i: int)
    requires !RawDataArray(b1, bpp, signed, fp, little).Null?
    requires 0 <= i < |b1| / bpp && 0 <= i < |b2| / bpp
    requires Chunk(b1, bpp, i) == Chunk(b2, bpp, i)
    ensures JavaValue(RawDataArray(b1, bpp, signed, fp, little), i)
         == JavaValue(RawDataArray(b2, bpp, signed, fp, little), i)
  {
    var r1 := RawDataArray(b1, bpp, signed, fp, little);
    if r1.Bytes? {
      ChunkByte(b1, bpp, i, 0);
      ChunkByte(b2, bpp, i, 0);
    }
  }

  /** An unsigned 8-bit plane decodes to shorts equal to its bytes. */
  lemma Uint8Decode(b: seq<Byte>, fp: bool, little: bool)
    ensures var r := RawDataArray(b, 1, false, fp, little);
      r.Shorts? && |r.shorts| == |b| && forall i :: 0 <= i < |b| ==> r.shorts[i] == b[i]
  {
    var r := RawDataArray(b, 1, false, fp, little);
    forall i | 0 <= i < |b|
      ensures r.shorts[i] == b[i]
    {
      var c := Chunk(b, 1, i);
      ChunkByte(b, 1, i, 0);
      OneByteChunk(c, little);
    }
  }

  /** An unsigned 16-bit plane decodes to ints in 0..65535, read in the declared order. */
  lemma Uint16Decode(b: seq<Byte>, little: bool)
    ensures var r := RawDataArray(b, 2, false, false, little);
      var x: seq<int> := b;
      && r.Ints? && |r.ints| == |b| / 2
      && forall i :: 0 <= i < |b| / 2 ==>
           && 0 <= r.ints[i] <= 0xFFFF
           && r.ints[i] == if little then x[2 * i] + 0x100 * x[2 * i + 1]
                           else 0x100 * x[2 * i] + x[2 * i + 1]
  {
    var r := RawDataArray(b, 2, false, false, little);
    var x: seq<int> := b;
    forall i | 0 <= i < |b| / 2
      ensures 0 <= r.ints[i] <= 0xFFFF
      ensures r.ints[i] == if little then x[2 * i] + 0x100 * x[2 * i + 1]
                           else 0x100 * x[2 * i] + x[2 * i + 1]
    {
      var c := Chunk(b, 2, i);
      ChunkByte(b, 2, i, 0);
      ChunkByte(b, 2, i, 1);
      AssembleTwo(c);
      UnsignedBound(c, little);
    }
  }

  /** An unsigned 32-bit plane decodes to longs in 0..2^32-1, read in the declared order. */
  lemma Uint32Decode(b: seq<Byte>, little: bool)
    ensures var r := RawDataArray(b, 4, false, false, little);
      var x: seq<int> := b;
      && r.Longs? && |r.longs| == |b| / 4
      && forall i :: 0 <= i < |b| / 4 ==>
           && 0 <= r.longs[i] <= 0xFFFF_FFFF
           && r.longs[i] == if little
                then x[4 * i] + 0x100 * x[4 * i + 1] + 0x1_0000 * x[4 * i + 2] + 0x100_0000 * x[4 * i + 3]
                else 0x100_0000 * x[4 * i] + 0x1_0000 * x[4 * i + 1] + 0x100 * x[4 * i + 2] + x[4 * i + 3]
  {
    var r := RawDataArray(b, 4, false, false, little);
    var x: seq<int> := b;
    forall i | 0 <= i < |b| / 4
      ensures 0 <= r.longs[i] <= 0xFFFF_FFFF
      ensures r.longs[i] == if little
                then x[4 * i] + 0x100 * x[4 * i + 1] + 0x1_0000 * x[4 * i + 2] + 0x100_0000 * x[4 * i + 3]
                else 0x100_0000 * x[4 * i] + 0x1_0000 * x[4 * i + 1] + 0x100 * x[4 * i + 2] + x[4 * i + 3]
    {
      var c := Chunk(b, 4, i);
      ChunkByte(b, 4, i, 0);
      ChunkByte(b, 4, i, 1);
      ChunkByte(b, 4, i, 2);
      ChunkByte(b, 4, i, 3);
      AssembleFour(c);
      UnsignedBound(c, little);
    }
  }

  /** A signed 32-bit plane decodes to ints: the four bytes read as two's complement. */
  lemma Int32Decode(b: seq<Byte>, little: bool)
    ensures var r := RawDataArray(b, 4, true, false, little);
      var x: seq<int> := b;
      && r.Ints? && |r.ints| == |b| / 4
      && forall i :: 0 <= i < |b| / 4 ==>
           var u := if little
                then x[4 * i] + 0x100 * x[4 * i + 1] + 0x1_0000 * x[4 * i + 2] + 0x100_0000 * x[4 * i + 3]
                else 0x100_0000 * x[4 * i] + 0x1_0000 * x[4 * i + 1] + 0x100 * x[4 * i + 2] + x[4 * i + 3];
           r.ints[i] == if u < 0x8000_0000 then u else u - 0x1_0000_0000
  {
    var r := RawDataArray(b, 4, true, false, little);
    var x: seq<int> := b;
    forall i | 0 <= i < |b| / 4
      ensures var u := if little
                then x[4 * i] + 0x100 * x[4 * i + 1] + 0x1_0000 * x[4 * i + 2] + 0x100_0000 * x[4 * i + 3]
                else 0x100_0000 * x[4 * i] + 0x1_0000 * x[4 * i + 1] + 0x100 * x[4 * i + 2] + x[4 * i + 3];
              r.ints[i] == if u < 0x8000_0000 then u else u - 0x1_0000_0000
    {
      var c := Chunk(b, 4, i);
      ChunkByte(b, 4, i, 0);
      ChunkByte(b, 4, i, 1);
      ChunkByte(b, 4, i, 2);
      ChunkByte(b, 4, i, 3);
      AssembleFour(c);
      UnsignedBound(c, little);
    }
  }

  /** Byte order is honoured: [0x00, 0x01] is 256 little-endian and 1 big-endian. */
  lemma ByteOrderExample()
    ensures RawDataArray([0x00, 0x01], 2, false, false, true) == Ints([256])
    ensures RawDataArray([0x00, 0x01], 2, false, false, false) == Ints([1])
  {
    Uint16Decode([0x00, 0x01], true);
    Uint16Decode([0x00, 0x01], false);
  }

  /** Byte k of a buffer of whole chunks lies in chunk k / bpp at offset k % bpp. */
  lemma ChunkOfByte(b: seq<Byte>, bpp: int, k: int)
    requires bpp > 0 && |b| % bpp == 0 && 0 <= k < |b|
    ensures 0 <= k / bpp < |b| / bpp
    ensures 0 <= k % bpp < bpp
    ensures b[k] == Chunk(b, bpp, k / bpp)[k % bpp]
  {
    var q := |b| / bpp;
    var i := k / bpp;
    assert |b| == q * bpp;
    assert k == i * bpp + k % bpp;
    if i >= q {
      MulLe(q, i, bpp);
      assert false;
    }
    ChunkByte(b, bpp, i, k % bpp);
  }

  /** Decoding loses no information: a non-null result determines the whole buffer. */
  lemma RawDataArrayInjective(b1: seq<Byte>, b2: seq<Byte>, bpp: int, signed: bool, fp: bool, little: bool)
    requires |b1| == |b2| && bpp > 0 && |b1| % bpp == 0
    requires !RawDataArray(b1, bpp, signed, fp, little).Null?
    requires RawDataArray(b1, bpp, signed, fp, little) == RawDataArray(b2, bpp, signed, fp, little)
    ensures b1 == b2
  {
    var r := RawDataArray(b1, bpp, signed, fp, little);
    if !r.Bytes? {
      forall i | 0 <= i < |b1| / bpp
        ensures Chunk(b1, bpp, i) == Chunk(b2, bpp, i)
      {
        assert JavaValue(r, i) == JavaValue(RawDataArray(b2, bpp, signed, fp, little), i);
        UnsignedInjective(Chunk(b1, bpp, i), Chunk(b2, bpp, i), little);
      }
      forall k | 0 <= k < |b1|
        ensures b1[k] == b2[k]
      {
        ChunkOfByte(b1, bpp, k);
        ChunkOfByte(b2, bpp, k);
      }
    }
  }
}

/**
 The pixel type catalog the plane reader consults: bytes per pixel, signedness,
 floating point, and the default value range used by integer normalization.
 */
module PixelTypes {
  import opened ByteAssembly

  /** The pixel types whose planes are decoded (the one-bit type is not modelled). */
  datatype PixelType = Int8 | Uint8 | Int16 | Uint16 | Int32 | Uint32 | Float | Double

  function BytesPerPixel(t: PixelType): (bpp: int)
    ensures bpp == 1 || bpp == 2 || bpp == 4 || bpp == 8
    ensures t.Float? ==> bpp == 4
    ensures t.Double? ==> bpp == 8
  {
    match t
    case Int8 | Uint8 => 1
    case Int16 | Uint16 => 2
    case Int32 | Uint32 | Float => 4
    case Double => 8
  }

  /** Floating-point types count as signed. */
  predicate IsSigned(t: PixelType)
  {
    !(t.Uint8? || t.Uint16? || t.Uint32?)
  }

  predicate IsFloatingPoint(t: PixelType)
  {
    t.Float? || t.Double?
  }

  /**
   The default (min, max) of an integer pixel type: the full value range of a
   container of BytesPerPixel(t) bytes, two's complement when signed.
   */
  function DefaultMinMax(t: PixelType): (r: (int, int))
    requires !IsFloatingPoint(t)
    ensures IsSigned(t) ==> r == (-HalfPow256(BytesPerPixel(t)), HalfPow256(BytesPerPixel(t)) - 1)
    ensures !IsSigned(t) ==> r == (0, Pow256(BytesPerPixel(t)) - 1)
  {
    match t
    case Int8 => (-0x80, 0x7F)
    case Uint8 => (0, 0xFF)
    case Int16 => (-0x8000, 0x7FFF)
    case Uint16 => (0, 0xFFFF)
    case Int32 => (-0x8000_0000, 0x7FFF_FFFF)
    case Uint32 => (0, 0xFFFF_FFFF)
  }
}

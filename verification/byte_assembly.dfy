/**
 Byte assembly as the decoder relies on it: a chunk of `len` octets is read as an
 unsigned integer in the declared byte order and then narrowed to a Java integer
 container of `n` bytes (short = 2, int = 4, long = 8), wrapping as two's complement.
 */
module ByteAssembly {

  /** An octet of a raw plane buffer. */
  type Byte = x: int | 0 <= x < 256

  /** 256 to the power n: one more than the largest unsigned value of n bytes. */
  function Pow256(n: nat): (p: int)
    ensures p >= 1
  {
    if n == 0 then 1 else 256 * Pow256(n - 1)
  }

  /** Half of Pow256(n): the first value that no longer fits a signed n-byte container. */
  function HalfPow256(n: nat): (h: int)
    requires n >= 1
    ensures h >= 1 && 2 * h == Pow256(n)
  {
    128 * Pow256(n - 1)
  }

  lemma {:induction false} Pow256Monotonic(m: nat, n: nat)
    requires m < n
    ensures 2 * Pow256(m) <= Pow256(n)
    decreases n
  {
    if m + 1 < n {
      Pow256Monotonic(m, n - 1);
    }
  }

  /** Unsigned value of s read most significant byte first. */
  function BigEndian(s: seq<Byte>): nat
  {
    if |s| == 0 then 0 else BigEndian(s[..|s| - 1]) * 256 + s[|s| - 1]
  }

  /** Unsigned value of s read least significant byte first. */
  function LittleEndian(s: seq<Byte>): nat
  {
    if |s| == 0 then 0 else s[0] + 256 * LittleEndian(s[1..])
  }

  /** Unsigned value of a chunk in the declared byte order. */
  function Unsigned(s: seq<Byte>, little: bool): nat
  {
    if little then LittleEndian(s) else BigEndian(s)
  }

  function Reverse(s: seq<Byte>): (r: seq<Byte>)
    ensures |r| == |s|
    ensures forall k :: 0 <= k < |s| ==> r[k] == s[|s| - 1 - k]
  {
    if |s| == 0 then [] else Reverse(s[1..]) + [s[0]]
  }

  /** The two byte orders differ exactly by reversing the chunk. */
  lemma {:induction false} LittleEndianIsReversedBigEndian(s: seq<Byte>)
    ensures LittleEndian(s) == BigEndian(Reverse(s))
    decreases |s|
  {
    if |s| > 0 {
      var r := Reverse(s);
      assert r[..|r| - 1] == Reverse(s[1..]);
      assert r[|r| - 1] == s[0];
      LittleEndianIsReversedBigEndian(s[1..]);
    }
  }

  lemma {:induction false} BigEndianBound(s: seq<Byte>)
    ensures BigEndian(s) < Pow256(|s|)
    decreases |s|
  {
    if |s| > 0 {
      BigEndianBound(s[..|s| - 1]);
    }
  }

  lemma {:induction false} LittleEndianBound(s: seq<Byte>)
    ensures LittleEndian(s) < Pow256(|s|)
    decreases |s|
  {
    if |s| > 0 {
      LittleEndianBound(s[1..]);
    }
  }

  /** An unsigned read of `len` bytes always fits in `len` bytes. */
  lemma UnsignedBound(s: seq<Byte>, little: bool)
    ensures Unsigned(s, little) < Pow256(|s|)
  {
    if little { LittleEndianBound(s); } else { BigEndianBound(s); }
  }

  lemma {:induction false} BigEndianInjective(s: seq<Byte>, t: seq<Byte>)
    requires |s| == |t|
    requires BigEndian(s) == BigEndian(t)
    ensures s == t
    decreases |s|
  {
    if |s| > 0 {
      var n := |s| - 1;
      assert BigEndian(s[..n]) * 256 + s[n] == BigEndian(t[..n]) * 256 + t[n];
      BigEndianInjective(s[..n], t[..n]);
      assert s == s[..n] + [s[n]];
      assert t == t[..n] + [t[n]];
    }
  }

  lemma {:induction false} LittleEndianInjective(s: seq<Byte>, t: seq<Byte>)
    requires |s| == |t|
    requires LittleEndian(s) == LittleEndian(t)
    ensures s == t
    decreases |s|
  {
    if |s| > 0 {
      assert s[0] + 256 * LittleEndian(s[1..]) == t[0] + 256 * LittleEndian(t[1..]);
      LittleEndianInjective(s[1..], t[1..]);
      assert s == [s[0]] + s[1..];
      assert t == [t[0]] + t[1..];
    }
  }

  /** A one-byte chunk reads as its byte in either order. */
  lemma OneByteChunk(c: seq<Byte>, little: bool)
    requires |c| == 1
    ensures Unsigned(c, little) == c[0]
  {
    assert c[1..] == [] && c[..0] == [];
    assert LittleEndian(c) == c[0] + 256 * LittleEndian(c[1..]);
    assert BigEndian(c) == BigEndian(c[..0]) * 256 + c[0];
  }

  /** Positional reading of a two-byte chunk in both byte orders. */
  lemma AssembleTwo(c: seq<Byte>)
    requires |c| == 2
    ensures LittleEndian(c) == (c[0] as int) + 0x100 * (c[1] as int)
    ensures BigEndian(c) == 0x100 * (c[0] as int) + (c[1] as int)
  {
    assert c[1..][1..] == [];
    assert LittleEndian(c[1..]) == c[1] + 256 * LittleEndian(c[1..][1..]);
    assert c[..1][..0] == [];
    assert BigEndian(c[..1]) == BigEndian(c[..1][..0]) * 256 + c[0];
  }

  /** Positional reading of a four-byte chunk in both byte orders. */
  lemma AssembleFour(c: seq<Byte>)
    requires |c| == 4
    ensures LittleEndian(c) == (c[0] as int) + 0x100 * (c[1] as int) + 0x1_0000 * (c[2] as int) + 0x100_0000 * (c[3] as int)
    ensures BigEndian(c) == 0x100_0000 * (c[0] as int) + 0x1_0000 * (c[1] as int) + 0x100 * (c[2] as int) + (c[3] as int)
  {
    AssembleTwo(c[2..]);
    assert c[1..][1..] == c[2..];
    AssembleTwo(c[..2]);
    assert c[..3][..2] == c[..2];
  }

  /** Distinct chunks of one length never assemble to the same unsigned value. */
  lemma UnsignedInjective(s: seq<Byte>, t: seq<Byte>, little: bool)
    requires |s| == |t|
    requires Unsigned(s, little) == Unsigned(t, little)
    ensures s == t
  {
    if little { LittleEndianInjective(s, t); } else { BigEndianInjective(s, t); }
  }

  /** The Euclidean remainder is the unique residue in [0, p). */
  lemma ModOfResidue(x: int, p: int, q: int, v: int)
    requires p > 0 && 0 <= v < p && x == q * p + v
    ensures x % p == v
  {
    var q' := x / p;
    var v' := x % p;
    assert x == q' * p + v';
    assert (q - q') * p == v' - v;
    if q - q' >= 1 {
      MulAtLeast(q - q', p);
      assert false;
    } else if q' - q >= 1 {
      MulAtLeast(q' - q, p);
      assert false;
    }
  }

  lemma MulAtLeast(k: int, p: int)
    requires k >= 1 && p > 0
    ensures k * p >= p
  {
  }

  /**
   Two's complement reading of an n-byte bit pattern v: the value a Java
   narrowing conversion to an n-byte integer type produces.
   */
  function ToSigned(v: nat, n: nat): (r: int)
    requires n >= 1 && v < Pow256(n)
    ensures -HalfPow256(n) <= r < HalfPow256(n)
    ensures r % Pow256(n) == v
  {
    if v < HalfPow256(n) then
      ModOfResidue(v, Pow256(n), 0, v);
      v
    else
      ModOfResidue(v - Pow256(n), Pow256(n), -1, v);
      v - Pow256(n)
  }

  lemma ChunkFitsContainer(c: seq<Byte>, little: bool, n: nat)
    requires 1 <= |c| <= n
    ensures Unsigned(c, little) < Pow256(n)
    ensures |c| < n ==> Unsigned(c, little) < HalfPow256(n)
  {
    UnsignedBound(c, little);
    if |c| < n {
      Pow256Monotonic(|c|, n);
    } else {
      assert Pow256(|c|) == Pow256(n);
    }
  }

  /**
   DataTools.bytesToShort (n = 2), bytesToInt (n = 4) and bytesToLong (n = 8)
   applied to one chunk: unsigned assembly in the declared order, narrowed to the
   container. A chunk shorter than the container stays non-negative; a chunk that
   fills it wraps as two's complement.
   */
  function BytesToContainer(c: seq<Byte>, little: bool, n: nat): (r: int)
    requires 1 <= |c| <= n
    ensures -HalfPow256(n) <= r < HalfPow256(n)
    ensures r % Pow256(n) == Unsigned(c, little)
    ensures |c| < n ==> r == Unsigned(c, little)
  {
    ChunkFitsContainer(c, little, n);
    ToSigned(Unsigned(c, little), n)
  }

  /** Narrowing loses nothing: equal container values come from equal chunks. */
  lemma BytesToContainerInjective(c: seq<Byte>, d: seq<Byte>, little: bool, n: nat)
    requires 1 <= |c| <= n && |d| == |c|
    requires BytesToContainer(c, little, n) == BytesToContainer(d, little, n)
    ensures c == d
  {
    UnsignedInjective(c, d, little);
  }
}

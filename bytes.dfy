/** Fixed-width unsigned integers and the little-endian assembly of byte
    sequences into integers, as a BMP file stores every multi-byte field. */
module Bytes {

  type u8 = x: int | 0 <= x < 0x100
  type u16 = x: int | 0 <= x < 0x1_0000
  type u32 = x: int | 0 <= x < 0x1_0000_0000

  /** 256^n: one more than the largest value an n-byte field can hold. */
  function Pow256(n: nat): (p: nat)
    ensures p >= 1
  {
    if n == 0 then 1 else 256 * Pow256(n - 1)
  }

  lemma Pow256Values()
    ensures Pow256(2) == 0x1_0000
    ensures Pow256(4) == 0x1_0000_0000
  {
  }

  /** Reference definition: the value of a byte sequence read least
      significant byte first, for any length. */
  function FromLittleEndian(s: seq<u8>): (v: nat)
    ensures v < Pow256(|s|)
  {
    if s == [] then 0 else s[0] + 256 * FromLittleEndian(s[1..])
  }

  /** The n-byte little-endian encoding of v: the inverse of FromLittleEndian. */
  function ToLittleEndian(v: nat, n: nat): (s: seq<u8>)
    requires v < Pow256(n)
    ensures |s| == n
    ensures FromLittleEndian(s) == v
  {
    if n == 0 then [] else [v % 256] + ToLittleEndian(v / 256, n - 1)
  }

  /** Decoding then re-encoding at the same width gives back the bytes. */
  lemma {:induction false} LittleEndianRoundTrip(s: seq<u8>)
    ensures ToLittleEndian(FromLittleEndian(s), |s|) == s
  {
    if s != [] {
      LittleEndianRoundTrip(s[1..]);
      var v := FromLittleEndian(s);
      assert v % 256 == s[0] && v / 256 == FromLittleEndian(s[1..]);
      assert s == [s[0]] + s[1..];
    }
  }

  /** Distinct byte sequences of one length have distinct values. */
  lemma LittleEndianInjective(a: seq<u8>, b: seq<u8>)
    requires |a| == |b|
    requires FromLittleEndian(a) == FromLittleEndian(b)
    ensures a == b
  {
  }

  /** The first k bytes give the low part of the value, the rest the high part. */
  lemma {:induction false} LittleEndianSplit(s: seq<u8>, k: nat)
    requires k <= |s|
    ensures FromLittleEndian(s) == FromLittleEndian(s[..k]) + Pow256(k) * FromLittleEndian(s[k..])
  {
    if k == 0 {
      assert s[..0] == [] && s[0..] == s;
    } else {
      var t := s[1..];
      LittleEndianSplit(t, k - 1);
      assert t[..k - 1] == s[..k][1..];
      assert t[k - 1..] == s[k..];
      var lo, hi, p := FromLittleEndian(t[..k - 1]), FromLittleEndian(s[k..]), Pow256(k - 1);
      assert FromLittleEndian(t) == lo + p * hi;
      assert FromLittleEndian(s[..k]) == s[0] + 256 * lo;
      assert 256 * (p * hi) == (256 * p) * hi by {
        MulAssociates(256, p, hi);
      }
    }
  }

  lemma MulAssociates(a: int, b: int, c: int)
    ensures a * (b * c) == (a * b) * c
  {
  }

  /** Trailing zero bytes do not change the value. */
  lemma ZeroExtension(s: seq<u8>)
    ensures FromLittleEndian(s + [0, 0]) == FromLittleEndian(s)
  {
    var z: seq<u8> := [0, 0];
    LittleEndianSplit(s + z, |s|);
    assert (s + z)[..|s|] == s && (s + z)[|s|..] == z;
    assert FromLittleEndian(z) == 0;
  }

  /** The 32-bit value of four bytes, least significant byte first. */
  function BytesToInt(bytes: seq<u8>): (v: u32)
    requires |bytes| == 4
    ensures v == FromLittleEndian(bytes)
  {
    var b0, b1, b2, b3 := bytes[0] as int, bytes[1] as int, bytes[2] as int, bytes[3] as int;
    assert FromLittleEndian(bytes[3..]) == b3 by {
      assert bytes[3..][1..] == [];
    }
    assert FromLittleEndian(bytes[2..]) == b2 + 0x100 * b3 by {
      assert bytes[2..][1..] == bytes[3..];
    }
    assert FromLittleEndian(bytes[1..]) == b1 + 0x100 * b2 + 0x1_0000 * b3 by {
      assert bytes[1..][1..] == bytes[2..];
    }
    b0 + 0x100 * b1 + 0x1_0000 * b2 + 0x100_0000 * b3
  }

  /** A narrowing cast of a 32-bit value to 16 bits. */
  function AsU16(v: u32): (r: u16)
    ensures r <= v
    ensures r == v <==> v < 0x1_0000
    ensures (v - r) % 0x1_0000 == 0
  {
    v % 0x1_0000
  }

  /** Narrowing the value of four bytes to 16 bits keeps the first two bytes
      and discards the last two. */
  lemma AsU16KeepsLowBytes(bytes: seq<u8>)
    requires |bytes| == 4
    ensures AsU16(BytesToInt(bytes)) == FromLittleEndian(bytes[..2])
  {
    LittleEndianSplit(bytes, 2);
    Pow256Values();
    var lo, hi := FromLittleEndian(bytes[..2]), FromLittleEndian(bytes[2..]);
    assert BytesToInt(bytes) == lo + 0x1_0000 * hi;
    assert lo < 0x1_0000;
  }
}

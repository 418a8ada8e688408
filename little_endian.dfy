/** Explicit little-endian encoding of the integer fields of the bitmap
    header. The source reads and writes them through `reinterpret_cast` on a
    little-endian host; here the byte order is spelt out. */
module LittleEndian {
  import opened Machine

  function Pow256(n: nat): (p: nat)
    ensures p >= 1
  {
    if n == 0 then 1 else 0x100 * Pow256(n - 1)
  }

  /** The unsigned value of `s`, least significant byte first. */
  function Decode(s: seq<byte>): (v: nat)
    ensures v < Pow256(|s|)
  {
    if s == [] then 0
    else
      var rest := Decode(s[1..]);
      assert s[0] + 0x100 * rest <= 0xFF + 0x100 * (Pow256(|s| - 1) - 1);
      s[0] + 0x100 * rest
  }

  /** The `n` bytes of `v`, least significant first; `Decode` reads them back. */
  function Encode(v: nat, n: nat): (s: seq<byte>)
    requires v < Pow256(n)
    ensures |s| == n
    ensures Decode(s) == v
  {
    if n == 0 then []
    else
      var s := [(v % 0x100) as byte] + Encode(v / 0x100, n - 1);
      assert s[1..] == Encode(v / 0x100, n - 1);
      s
  }

  /** Encoding is also a left inverse: decoding `n` bytes and encoding the
      value again gives the same bytes. */
  lemma {:induction false} EncodeDecode(s: seq<byte>)
    ensures Encode(Decode(s), |s|) == s
  {
    if s != [] {
      EncodeDecode(s[1..]);
      var v := Decode(s);
      assert v % 0x100 == s[0] && v / 0x100 == Decode(s[1..]);
    }
  }

  /** Two's-complement reading of an `n`-byte unsigned value. */
  function ToSigned(u: nat, n: nat): (x: int)
    requires 0 < n && u < Pow256(n)
    ensures -Half(n) <= x < Half(n)
    ensures x == u || x == u - Pow256(n)
  {
    PowEven(n);
    if u < Half(n) then u else u - Pow256(n)
  }

  /** Two's-complement representation of `x` in `n` bytes. */
  function FromSigned(x: int, n: nat): (u: nat)
    requires 0 < n && -Half(n) <= x < Half(n)
    ensures u < Pow256(n)
    ensures ToSigned(u, n) == x
  {
    PowEven(n);
    if x >= 0 then x else x + Pow256(n)
  }

  /** Half the range of `n` bytes: the bound of the signed values. */
  function Half(n: nat): int
  {
    Pow256(n) / 2
  }

  lemma PowEven(n: nat)
    requires 0 < n
    ensures Pow256(n) % 2 == 0 && Pow256(n) >= 0x100 && Pow256(n) == 2 * Half(n)
  {
  }

  lemma {:induction false} PowFour()
    ensures Pow256(2) == 0x1_0000 && Pow256(4) == 0x1_0000_0000
  {
  }
}

/** Fixed-width fields of the packed container layout, read explicitly from
    bytes, and the two byte-swapping helpers of the tool. The container is
    little-endian except for the 3-byte message length of a volume step. */
module Bytes {
  import opened Types

  function U16LE(s: seq<byte>, i: int): (v: nat)
    requires 0 <= i && i + 2 <= |s|
    ensures v < 0x1_0000
  {
    s[i] as nat + 0x100 * s[i + 1] as nat
  }

  /** The `uint24_t` message length: most significant byte first. */
  function U24BE(s: seq<byte>, i: int): (v: nat)
    requires 0 <= i && i + 3 <= |s|
    ensures v < 0x100_0000
  {
    0x1_0000 * s[i] as nat + 0x100 * s[i + 1] as nat + s[i + 2] as nat
  }

  /** A 24-bit word reads the same from its three-byte slice. */
  lemma U24Slice(s: seq<byte>, i: nat)
    requires i + 3 <= |s|
    ensures U24BE(s, i) == U24BE(s[i .. i + 3], 0)
  {
  }

  function U32LE(s: seq<byte>, i: int): (v: nat)
    requires 0 <= i && i + 4 <= |s|
    ensures v < 0x1_0000_0000
  {
    s[i] as nat + 0x100 * s[i + 1] as nat + 0x1_0000 * s[i + 2] as nat + 0x100_0000 * s[i + 3] as nat
  }

  /** A little-endian `int32_t` (two's complement): the one value in the
      signed 32-bit range that agrees with the four bytes modulo `2^32`; it
      is negative exactly when the top bit of the last byte is set. */
  function S32LE(s: seq<byte>, i: int): (v: int)
    requires 0 <= i && i + 4 <= |s|
    ensures -0x8000_0000 <= v < 0x8000_0000
    ensures v % 0x1_0000_0000 == s[i] as int + 0x100 * s[i + 1] as int + 0x1_0000 * s[i + 2] as int + 0x100_0000 * s[i + 3] as int
    ensures v < 0 <==> s[i + 3] >= 0x80
  {
    var u := U32LE(s, i);
    if u < 0x8000_0000 then u else u - 0x1_0000_0000
  }

  /** `struct tfa_desc_ptr`: the bit-field `offset:24` is the low 24 bits of
      the little-endian word, `type:8` the high 8 bits. */
  function DescOffset(s: seq<byte>, i: int): nat
    requires 0 <= i && i + 4 <= |s|
  {
    U32LE(s, i) % 0x100_0000
  }

  function DescType(s: seq<byte>, i: int): nat
    requires 0 <= i && i + 4 <= |s|
  {
    U32LE(s, i) / 0x100_0000
  }

  /** The descriptor's offset is its first three bytes, least significant
      first, and its type tag is its fourth byte. */
  lemma DescriptorBytes(s: seq<byte>, i: int)
    requires 0 <= i && i + 4 <= |s|
    ensures DescOffset(s, i) == s[i] as nat + 0x100 * s[i + 1] as nat + 0x1_0000 * s[i + 2] as nat
    ensures DescType(s, i) == s[i + 3] as nat
    ensures DescOffset(s, i) < 0x100_0000 && DescType(s, i) < 0x100
  {
  }

  /** `HDR(c1,c2)`: the two tag characters read as one little-endian 16-bit value. */
  function Hdr(c1: byte, c2: byte): (v: nat)
    ensures v < 0x1_0000
  {
    c2 as nat * 0x100 + c1 as nat
  }

  /** `enum tfa_header_type`. */
  const ParamsHdr := Hdr('P' as byte, 'M' as byte)
  const VolstepHdr := Hdr('V' as byte, 'P' as byte)
  const PatchHdr := Hdr('P' as byte, 'A' as byte)
  const SpeakerHdr := Hdr('S' as byte, 'P' as byte)
  const PresetHdr := Hdr('P' as byte, 'R' as byte)
  const ConfigHdr := Hdr('C' as byte, 'O' as byte)
  const EqualizerHdr := Hdr('E' as byte, 'Q' as byte)
  const DrcHdr := Hdr('D' as byte, 'R' as byte)
  const MsgHdr := Hdr('M' as byte, 'G' as byte)
  const InfoHdr := Hdr('I' as byte, 'N' as byte)

  /** Two different character pairs never share a tag, and the tag stored at
      the start of a header is the 16-bit little-endian word there. */
  lemma HdrInjective(c1: byte, c2: byte, d1: byte, d2: byte, s: seq<byte>, i: int)
    requires 0 <= i && i + 2 <= |s|
    ensures Hdr(c1, c2) == Hdr(d1, d2) <==> c1 == d1 && c2 == d2
    ensures Hdr(s[i], s[i + 1]) == U16LE(s, i)
  {
  }

  /** `swap_uint32`: reverse the four bytes of a 32-bit word. */
  function SwapUint32(val: bv32): (r: bv32)
    ensures r & 0xff == val >> 24
    ensures (r >> 8) & 0xff == (val >> 16) & 0xff
    ensures (r >> 16) & 0xff == (val >> 8) & 0xff
    ensures r >> 24 == val & 0xff
  {
    var b0 := (val & 0xff) << 24;
    var b1 := (val & 0xff00) << 8;
    var b2 := (val & 0xff0000) >> 8;
    var b3 := (val & 0xff00_0000) >> 24;
    b0 | b1 | b2 | b3
  }

  lemma SwapUint32Involution(val: bv32)
    ensures SwapUint32(SwapUint32(val)) == val
  {
  }

  /** A 16-bit unsigned value. */
  predicate IsU16(v: int) { 0 <= v < 0x1_0000 }

  /** `cpu_to_be16`: exchange the two bytes of a 16-bit word (the host is
      little-endian). */
  function CpuToBe16(val: int): (r: int)
    requires IsU16(val)
    ensures IsU16(r)
    ensures r / 0x100 == val % 0x100 && r % 0x100 == val / 0x100
  {
    (val % 0x100) * 0x100 + val / 0x100
  }

  /** The two bytes a little-endian host writes for a 16-bit value. */
  function StoreLE16(v: int): (r: seq<byte>)
    requires IsU16(v)
    ensures |r| == 2 && r[0] as int + 0x100 * r[1] as int == v
  {
    [(v % 0x100) as byte, (v / 0x100) as byte]
  }

  /** Storing `cpu_to_be16(m)` writes `m` most significant byte first, and a
      reader that takes the first byte as the high half gets `m` back. */
  lemma StoreBigEndian(m: int)
    requires IsU16(m)
    ensures StoreLE16(CpuToBe16(m)) == [(m / 0x100) as byte, (m % 0x100) as byte]
    ensures StoreLE16(CpuToBe16(m))[0] as int * 0x100 + StoreLE16(CpuToBe16(m))[1] as int == m
  {
  }
}

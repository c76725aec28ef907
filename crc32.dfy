/** CRC-32 as defined by IEEE 802.3 (the checksum Go's `crc32.ChecksumIEEE` computes):
    the reflected polynomial 0xEDB88320, register preset to all ones, final
    complement. It is written bit by bit, the way the standard defines it. */
module Crc32 {
  import opened Basics

  const Polynomial: bv32 := 0xEDB8_8320

  /** Shift `k` bits out of the register, feeding back the polynomial on a 1 bit. */
  function ShiftBits(reg: bv32, k: nat): bv32
    decreases k
  {
    if k == 0 then reg
    else ShiftBits(if reg & 1 == 1 then (reg >> 1) ^ Polynomial else reg >> 1, k - 1)
  }

  /** The register after one byte enters it, low bit first. */
  function AbsorbByte(reg: bv32, b: byte): bv32
  {
    ShiftBits(reg ^ (b as bv32), 8)
  }

  /** The register after absorbing the bytes of `data`, first to last. */
  function Absorb(reg: bv32, data: seq<byte>): bv32
    decreases |data|
  {
    if |data| == 0 then reg
    else Absorb(AbsorbByte(reg, data[0]), data[1..])
  }

  /** `crc32.ChecksumIEEE(data)`. */
  function Checksum(data: seq<byte>): u32
  {
    (Absorb(0xFFFF_FFFF, data) ^ 0xFFFF_FFFF) as int
  }
}

/** Command codes, address translation and status-bit decoding of the
    W25Q64 serial NOR flash, the pure arithmetic the driver's operations
    share. */
module Protocol {

  /** A byte as it travels on the SPI bus (`unsigned char`). */
  newtype Byte = x: int | 0 <= x < 0x100

  /** `uint16_t`, the type of the driver's sector, block, offset and length
      parameters. */
  newtype U16 = x: int | 0 <= x < 0x1_0000

  /** `uint32_t`, the type of a flash address in the driver. */
  newtype U32 = x: int | 0 <= x < 0x1_0000_0000

  // Opcodes the driver issues.
  const OpWriteEnable: Byte := 0x06
  const OpWriteDisable: Byte := 0x04
  const OpReadStatus1: Byte := 0x05
  const OpReadStatus2: Byte := 0x35
  const OpPageProgram: Byte := 0x02
  const OpBlockErase64: Byte := 0xD8
  const OpBlockErase32: Byte := 0x52
  const OpSectorErase: Byte := 0x20
  const OpChipErase: Byte := 0xC7
  const OpPowerDown: Byte := 0xB9
  const OpReadUniqueId: Byte := 0x4B
  const OpJedecId: Byte := 0x9F
  const OpReadData: Byte := 0x03
  const OpFastRead: Byte := 0x0B

  /** Bit 0 of status register 1: an erase or program is in progress. */
  const BusyMask: Byte := 0x01

  /** Largest payload one page-program command accepts. */
  const PageSize: int := 256

  /** Number of 4 KiB sectors and of 64 KiB blocks of the 8 MiB chip. */
  const SectorCount: int := 2048
  const Block64Count: int := 128

  /** Size of the chip's address space in bytes. */
  const FlashSize: int := 0x80_0000

  function Pow2(k: nat): (p: nat)
  {
    if k == 0 then 1 else 2 * Pow2(k - 1)
  }

  /** `x << k` on a `uint32_t`: bits shifted past bit 31 are lost. */
  function ShiftLeft(x: U32, k: nat): (r: U32)
  {
    (x as int * Pow2(k) % 0x1_0000_0000) as U32
  }

  /** A left shift of a 16-bit value by at most 16 places fits in 32 bits. */
  lemma ShiftLeftWide(x: U32, k: nat)
    requires x as int < 0x1_0000 && k <= 16
    ensures ShiftLeft(x, k) as int == x as int * Pow2(k)
  {
    var p := Pow2(k);
    Pow2Monotone(k, 16);
    Pow2Values();
    MulMonotone(x as int, p, 0x1_0000);
    ModSmall(x as int * p, 0x1_0000_0000);
  }

  /** The powers of two the driver's shifts use. */
  lemma Pow2Values()
    ensures Pow2(8) == 0x100 && Pow2(12) == 0x1000
    ensures Pow2(15) == 0x8000 && Pow2(16) == 0x1_0000
  {
  }

  // Solver aid: a remainder by a larger modulus leaves the number as it is.
  lemma ModSmall(a: int, m: int)
    requires 0 <= a < m
    ensures a % m == a
  {
  }

  // Solver aid: multiplication by a natural number is monotone.
  lemma MulMonotone(x: nat, p: nat, q: nat)
    requires p <= q
    ensures x * p <= x * q
  {
  }

  lemma {:induction false} Pow2Monotone(j: nat, k: nat)
    requires j <= k
    ensures Pow2(j) <= Pow2(k)
  {
    if j < k { Pow2Monotone(j, k - 1); }
  }

  /** `x + y` on `uint32_t` values, wrapping modulo 2^32. */
  function Add32(x: U32, y: U32): (r: U32)
  {
    ((x as int + y as int) % 0x1_0000_0000) as U32
  }

  /** First byte of a 4 KiB sector: the sector number widened to 32 bits
      and shifted left by 12. The shift never loses a bit, and the valid
      sector numbers stay inside the chip. */
  function SectorAddress(sector: U16): (a: U32)
    ensures a as int == sector as int * 0x1000
    ensures sector as int < SectorCount ==> a as int < FlashSize
  {
    ShiftLeftWide(sector as U32, 12);
    Pow2Values();
    ShiftLeft(sector as U32, 12)
  }

  /** First byte of a 64 KiB block: the block number shifted left by 16. */
  function Block64Address(block: U16): (a: U32)
    ensures a as int == block as int * 0x1_0000
    ensures block as int < Block64Count ==> a as int < FlashSize
  {
    ShiftLeftWide(block as U32, 16);
    Pow2Values();
    ShiftLeft(block as U32, 16)
  }

  /** First byte of a 32 KiB block: the block number shifted left by 15. */
  function Block32Address(block: U16): (a: U32)
    ensures a as int == block as int * 0x8000
    ensures block as int < 2 * Block64Count ==> a as int < FlashSize
  {
    ShiftLeftWide(block as U32, 15);
    Pow2Values();
    ShiftLeft(block as U32, 15)
  }

  /** Target of a page program: the sector's first byte plus an offset
      inside it; the 32-bit sum never wraps. */
  function PageAddress(sector: U16, offset: U16): (a: U32)
    ensures a as int == sector as int * 0x1000 + offset as int
    ensures sector as int < SectorCount && offset as int < 0x1000 ==> a as int < FlashSize
  {
    ShiftLeftWide(sector as U32, 12);
    Pow2Values();
    Add32(ShiftLeft(sector as U32, 12), offset as U32)
  }

  /** The number a big-endian 3-byte address field stands for. */
  function DecodeAddress(b: seq<Byte>): (n: int)
    requires |b| == 3
  {
    b[0] as int * 0x1_0000 + b[1] as int * 0x100 + b[2] as int
  }

  /** Splitting a number into its low 24 bits, byte by byte. */
  lemma ByteSplit(a: int)
    requires a >= 0
    ensures (a / 0x1_0000 % 0x100) * 0x1_0000 + (a / 0x100 % 0x100) * 0x100 + a % 0x100
            == a % 0x100_0000
  {
    var q := a / 0x100;
    var h := a / 0x1_0000;
    assert a == q * 0x100 + a % 0x100;
    assert q / 0x100 == h;
    assert q == h * 0x100 + q % 0x100;
    var t := a / 0x100_0000;
    assert h / 0x100 == t;
    assert h == t * 0x100 + h % 0x100;
    assert a == t * 0x100_0000 + (h % 0x100) * 0x1_0000 + (q % 0x100) * 0x100 + a % 0x100;
  }

  /** The three address bytes A23-A16, A15-A8, A7-A0 of a command frame,
      taken from the low 24 bits of a 32-bit address. */
  function AddressBytes(addr: U32): (r: seq<Byte>)
    ensures |r| == 3
    ensures DecodeAddress(r) == addr as int % 0x100_0000
  {
    // `(addr >> k) & 0xFF` on an unsigned value is `(addr / 2^k) % 256`.
    var a := addr as int;
    ByteSplit(a);
    [(a / 0x1_0000 % 0x100) as Byte, (a / 0x100 % 0x100) as Byte, (a % 0x100) as Byte]
  }

  /** The address field is a faithful 24-bit encoding: decoding three bytes
      and splitting the number again gives the same bytes back. */
  lemma AddressBytesOfDecode(b: seq<Byte>)
    requires |b| == 3
    ensures AddressBytes(DecodeAddress(b) as U32) == b
  {
    var a := DecodeAddress(b);
    assert a / 0x100 == b[0] as int * 0x100 + b[1] as int;
    assert a / 0x1_0000 == b[0] as int;
  }

  /** Sector numbers beyond the 24-bit address space alias: sector
      `s + 4096` is sent with the same address bytes as sector `s`. */
  lemma SectorAddressAliases(s: U16)
    requires s as int + 0x1000 < 0x1_0000
    ensures AddressBytes(SectorAddress(s + 0x1000)) == AddressBytes(SectorAddress(s))
  {
    var a, b := SectorAddress(s), SectorAddress(s + 0x1000);
    assert b as int == a as int + 0x100_0000;
    assert b as int % 0x100_0000 == a as int % 0x100_0000;
    AddressBytesOfDecode(AddressBytes(a));
    AddressBytesOfDecode(AddressBytes(b));
  }
}

/** Bus frames of the ADPD410x register accessors (adpd410x_reg_read and
    adpd410x_reg_write): how a 15-bit register address and a 16-bit value
    are laid out in the bytes sent over SPI (ADPD4100) or I2C (ADPD4101),
    together with the chip-side decoding that each layout is meant for. */
module AdpdFrames {
  import opened Common

  /** ADPD4100 talks SPI, ADPD4101 talks I2C. */
  datatype Bus = Spi | I2c

  /** The two address bytes that open every frame. */
  function AddressBytes(bus: Bus, addr: bv16): (r: (byte, byte))
    ensures bus.Spi? ==> r.1 & 1 == 0
    ensures bus.I2c? ==> r.0 & 0x80 == 0x80
    ensures ChipAddress(bus, r.0, r.1) == addr & 0x7FFF
  {
    match bus
    case Spi => (((addr & 0x7F80) >> 7) as byte, (((addr & 0x7F) << 1) & 0xFE) as byte)
    case I2c => ((((addr & 0x7F00) >> 8) | 0x80) as byte, (addr & 0xFF) as byte)
  }

  /** The register address the chip reads out of the two address bytes:
      SPI carries bits 14..7 then bits 6..0 above a read/write bit; I2C
      carries bits 14..8 under a long-address flag, then bits 7..0. */
  function ChipAddress(bus: Bus, b0: byte, b1: byte): (a: bv16)
    ensures a <= 0x7FFF
  {
    match bus
    case Spi => ((b0 as bv16) << 7) | ((b1 as bv16) >> 1)
    case I2c => (((b0 & 0x7F) as bv16) << 8) | (b1 as bv16)
  }

  /** Address bytes the driver can produce are exactly those with the
      frame's fixed bit in place; on them, encoding inverts decoding. */
  lemma AddressBytesInvertChipAddress(bus: Bus, b0: byte, b1: byte)
    requires bus.Spi? ==> b1 & 1 == 0
    requires bus.I2c? ==> b0 & 0x80 == 0x80
    ensures AddressBytes(bus, ChipAddress(bus, b0, b1)) == (b0, b1)
  {
    var a := ChipAddress(bus, b0, b1);
    match bus
    case Spi =>
      SpiBytesRoundTrip(b0, b1);
    case I2c =>
      I2cBytesRoundTrip(b0, b1);
  }

  lemma SpiBytesRoundTrip(b0: byte, b1: byte)
    requires b1 & 1 == 0
    ensures var a := ((b0 as bv16) << 7) | ((b1 as bv16) >> 1);
      ((a & 0x7F80) >> 7) as byte == b0 && (((a & 0x7F) << 1) & 0xFE) as byte == b1
  {
    var a := ((b0 as bv16) << 7) | ((b1 as bv16) >> 1);
    assert (a & 0x7F80) >> 7 == b0 as bv16;
    assert ((a & 0x7F) << 1) & 0xFE == b1 as bv16;
  }

  lemma I2cBytesRoundTrip(b0: byte, b1: byte)
    requires b0 & 0x80 == 0x80
    ensures var a := (((b0 & 0x7F) as bv16) << 8) | (b1 as bv16);
      (((a & 0x7F00) >> 8) | 0x80) as byte == b0 && (a & 0xFF) as byte == b1
  {
    var a := (((b0 & 0x7F) as bv16) << 8) | (b1 as bv16);
    assert ((a & 0x7F00) >> 8) | 0x80 == b0 as bv16;
    assert a & 0xFF == b1 as bv16;
  }

  /** The payload of a 16-bit value: high byte first. */
  function ValueBytes(v: bv16): (r: (byte, byte))
    ensures JoinValue(r.0, r.1) == v
  {
    (((v & 0xFF00) >> 8) as byte, (v & 0xFF) as byte)
  }

  /** How the driver rebuilds a register value from the two reply bytes. */
  function JoinValue(hi: byte, lo: byte): bv16 {
    (((hi as bv16) << 8) & 0xFF00) | ((lo as bv16) & 0xFF)
  }

  lemma JoinValueSplits(hi: byte, lo: byte)
    ensures ValueBytes(JoinValue(hi, lo)) == (hi, lo)
  {
  }

  /** The four bytes of a register write, on either bus. */
  function WriteFrame(bus: Bus, addr: bv16, v: bv16): (f: seq<byte>)
    ensures |f| == 4
    ensures ChipAddress(bus, f[0], f[1]) == addr & 0x7FFF
    ensures JoinValue(f[2], f[3]) == v
  {
    var (b0, b1) := AddressBytes(bus, addr);
    var (hi, lo) := ValueBytes(v);
    [b0, b1, hi, lo]
  }

  /** The bytes sent to start a register read: over SPI a four-byte
      full-duplex transfer whose last two bytes are clocked out as zero and
      replaced by the reply; over I2C a two-byte address write. */
  function ReadRequest(bus: Bus, addr: bv16): (f: seq<byte>)
    ensures |f| == (if bus.Spi? then 4 else 2)
    ensures ChipAddress(bus, f[0], f[1]) == addr & 0x7FFF
  {
    var (b0, b1) := AddressBytes(bus, addr);
    if bus.Spi? then [b0, b1, 0, 0] else [b0, b1]
  }
}

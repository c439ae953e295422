/** The records the IIO dispatch layer works on: attributes with their device
    accessors, channels, device descriptors and registered interfaces
    (`struct iio_attribute`, `iio_channel`, `iio_device`, `iio_interface`). */
module IioTypes {
  import opened Common

  /** `struct iio_ch_info`: the channel number parsed from the channel name
      and the direction flag, handed to channel-level accessors. Device-level
      accessors receive NULL instead, modelled as `None`. */
  datatype ChInfo = ChInfo(chNum: int, chOut: bool)

  /** What a `show` accessor produces: the length it returns (negative for an
      error) and the text it leaves in the caller's buffer. */
  datatype Shown = Shown(len: int, text: seq<octet>)

  /** An attribute: its name and its two device accessors. The accessors are
      device code outside this model, so they are uninterpreted functions of
      their inputs. `show` receives the channel info and the buffer length;
      `store` receives the channel info and the value bytes and returns an int. */
  datatype Attribute = Attribute(
    name: string,
    show: (Option<ChInfo>, nat) -> Shown,
    store: (Option<ChInfo>, seq<octet>) -> int)

  /** An attribute list. `None` is a NULL list pointer; `Some([])` is a list
      whose first entry is already the NULL terminator. */
  type AttrList = Option<seq<Attribute>>

  datatype Channel = Channel(name: string, chOut: bool, attributes: AttrList)

  /** `struct iio_device`: channel count (a 32-bit unsigned count, the width
      of the mask arithmetic it feeds), channels and device attributes. */
  datatype IioDevice = IioDevice(numCh: bv32, channels: seq<Channel>, attributes: AttrList)

  /** `struct iio_interface`: a registered device. `iio` is the descriptor
      pointer (possibly NULL); `chMask` is the set of opened channels. */
  datatype Interface = Interface(name: string, iio: Option<IioDevice>, chMask: bv32)

  /** The process-wide registry of interfaces, in registration order. The
      NULL registry of a program that registered nothing yet is `[]`: every
      lookup in it fails the same way. */
  type Registry = seq<Interface>
}

/** Attribute requests of the IIO layer: the four entry points tinyiiod
    calls (`iio_read_attr`, `iio_write_attr`, `iio_ch_read_attr`,
    `iio_ch_write_attr`) and the routing behind them (`iio_rd_wr_attribute`,
    `iio_rd_wr_channel_attribute`) to one accessor or to the bulk codec. */
module IioDispatch {
  import opened Common
  import opened IioTypes
  import opened IioNames
  import opened IioCodec
  import opened IioRegistry

  /** `struct element_info`: what a request names. An empty channel name
      selects the device's own attributes; an empty attribute name selects
      all attributes of the element at once. */
  datatype Element = Element(device: string, channel: string, chOut: bool, attr: string)

  /** A read into a buffer of `len` bytes, or a write of `data`. */
  datatype Access = Read(len: nat) | Write(data: seq<octet>)

  /** One call of a `store` accessor: which attribute, the channel info it
      received and the bytes it was handed. */
  datatype Store = Store(attr: string, ch: Option<ChInfo>, value: seq<octet>)

  /** What a request returns: the status, the bytes left in the caller's
      buffer by a read, and the `store` calls a write made, in order. */
  datatype Reply = Reply(ret: int, out: seq<octet>, stores: seq<Store>)

  function Fail(code: int): Reply {
    Reply(code, [], [])
  }

  /** The entries of an attribute list; a NULL list has none. */
  function AttrsOf(list: AttrList): seq<Attribute> {
    if list.None? then [] else list.value
  }

  /** Calling the accessor of one attribute: `show` with the buffer length
      for a read, `store` with the value bytes for a write; its return value
      is passed through. */
  function Invoke(a: Attribute, ch: Option<ChInfo>, acc: Access): Reply {
    match acc
    case Read(len) => Reply(a.show(ch, len).len, a.show(ch, len).text, [])
    case Write(data) => Reply(a.store(ch, data), [], [Store(a.name, ch, data)])
  }

  // ---------------------------------------------------------------------
  // One attribute, or all of them
  // ---------------------------------------------------------------------

  /** A single named attribute of a list: its accessor is called if the
      name is found, otherwise -ENOENT and no accessor runs. */
  function Single(list: AttrList, name: string, ch: Option<ChInfo>, acc: Access): (r: Reply)
    ensures (forall k | 0 <= k < |AttrsOf(list)| :: AttrsOf(list)[k].name != name) ==> r == Fail(-ENOENT)
    ensures acc.Read? ==> r.stores == []
    ensures acc.Write? ==> forall s | s in r.stores :: s == Store(name, ch, acc.data)
  {
    var attrs := AttrsOf(list);
    var id := AttributeId(name, attrs);
    if id < 0 then Fail(-ENOENT) else Invoke(attrs[id], ch, acc)
  }

  /** The attribute found is the first one carrying the name. */
  lemma SingleFinds(list: AttrList, name: string, ch: Option<ChInfo>, acc: Access, k: nat)
    requires k < |AttrsOf(list)| && AttrsOf(list)[k].name == name
    requires forall j | 0 <= j < k :: AttrsOf(list)[j].name != name
    ensures Single(list, name, ch, acc) == Invoke(AttrsOf(list)[k], ch, acc)
  {
    var id := AttributeId(name, AttrsOf(list));
    assert id >= 0;
    assert id == k;
  }

  /** The `store` calls of a bulk write: the i-th value goes to the i-th
      attribute of the list. */
  function StoresOf(attrs: seq<Attribute>, ch: Option<ChInfo>, values: seq<seq<octet>>): (r: seq<Store>)
    requires |values| == 0 || |values| == |attrs|
    ensures |r| == |values|
    ensures forall i | 0 <= i < |r| :: r[i] == Store(attrs[i].name, ch, values[i])
  {
    seq(|values|, i requires 0 <= i < |values| => Store(attrs[i].name, ch, values[i]))
  }

  /** All attributes of a list through the bulk codec. */
  function Bulk(list: AttrList, ch: Option<ChInfo>, acc: Access): (r: Reply)
    ensures list.None? ==> r == Fail(FAILURE)
    ensures acc.Read? ==> r.stores == []
    ensures acc.Read? && list.Some? ==>
      r.ret == EncodedSize(Shows(list.value, ch, acc.len)) && |r.out| == r.ret
    ensures acc.Write? && list.Some? ==>
      (r.ret == -EINVAL <==> DecodeFrom(acc.data, 0, |list.value|).None?)
    ensures acc.Write? && r.ret >= 0 ==>
      r.ret == |acc.data| && |r.stores| == |AttrsOf(list)| &&
      forall i | 0 <= i < |r.stores| :: r.stores[i].attr == AttrsOf(list)[i].name && r.stores[i].ch == ch
    ensures r.ret < 0 ==> r.stores == []
  {
    match acc
    case Read(len) =>
      var rd := ReadAllAttr(list, true, len, ch);
      Reply(rd.ret, rd.out, [])
    case Write(data) =>
      var wr := WriteAllAttr(list, Some(data));
      Reply(wr.ret, [], StoresOf(AttrsOf(list), ch, wr.stores))
  }

  // ---------------------------------------------------------------------
  // Routing
  // ---------------------------------------------------------------------

  /** The channel info built from a request: the number in the channel
      name and the direction. */
  function ChannelInfo(e: Element): ChInfo {
    ChInfo(ChannelNumber(e.channel), e.chOut)
  }

  /** `iio_rd_wr_channel_attribute`: the channel's attributes, all at once
      for an empty attribute name, one otherwise; every accessor receives
      the request's channel info. */
  function RdWrChannelAttribute(e: Element, acc: Access, c: Channel): (r: Reply)
    ensures forall s | s in r.stores :: s.ch == Some(ChannelInfo(e))
    ensures e.attr != [] ==> forall s | s in r.stores :: s.attr == e.attr
  {
    var ch := Some(ChannelInfo(e));
    if e.attr == "" then Bulk(c.attributes, ch, acc) else Single(c.attributes, e.attr, ch, acc)
  }

  /** The channel half of `iio_rd_wr_attribute` with the lookup result
      checked: a request for a channel the device does not have (in that
      direction) ends in -ENOENT, like a request for an unknown attribute. */
  function ChannelBranch(e: Element, acc: Access, dev: IioDevice): (r: Reply)
    ensures ChannelId(e.channel, dev.channels, e.chOut) < 0 ==> r == Fail(-ENOENT)
    ensures forall s | s in r.stores :: s.ch == Some(ChannelInfo(e))
  {
    var id := ChannelId(e.channel, dev.channels, e.chOut);
    if id < 0 then Fail(-ENOENT) else RdWrChannelAttribute(e, acc, dev.channels[id])
  }

  /** The channel half as the source writes it: the lookup result indexes
      the channel array unchecked, so a negative error code reads before the
      array. `None` stands for that undefined access. */
  function ChannelBranchAsWritten(e: Element, acc: Access, dev: IioDevice): (r: Option<Reply>)
    ensures r.None? <==> forall k | 0 <= k < |dev.channels| :: !ChannelMatches(dev.channels[k], e.channel, e.chOut)
    ensures r.Some? ==> r.value == ChannelBranch(e, acc, dev)
  {
    var id := ChannelId(e.channel, dev.channels, e.chOut);
    if id < 0 then None else Some(RdWrChannelAttribute(e, acc, dev.channels[id]))
  }

  /** A device without channels, or a channel asked for in the wrong
      direction, makes the code as written index the channel array with
      -EINVAL or -ENOENT; the checked branch answers -ENOENT. */
  lemma ChannelBranchAsWrittenOverreads(acc: Access)
    ensures var e := Element("adc", "voltage0", true, "raw");
      ChannelBranchAsWritten(e, acc, IioDevice(1, [], None)).None? &&
      ChannelBranch(e, acc, IioDevice(1, [], None)) == Fail(-ENOENT) &&
      ChannelBranchAsWritten(e, acc, IioDevice(1, [Channel("voltage0", false, None)], None)).None? &&
      ChannelBranch(e, acc, IioDevice(1, [Channel("voltage0", false, None)], None)) == Fail(-ENOENT)
  {
    var e := Element("adc", "voltage0", true, "raw");
    assert !ChannelMatches(Channel("voltage0", false, None), e.channel, e.chOut);
  }

  /** `iio_rd_wr_attribute` on the descriptor `dev` of the interface: -ENOENT
      for a NULL descriptor; for an empty channel name the device's own
      attributes (accessors receive no channel info); otherwise the channel
      found by name and direction. */
  function RdWrAttribute(e: Element, acc: Access, dev: Option<IioDevice>): (r: Reply)
    ensures dev.None? ==> r == Fail(-ENOENT)
    ensures acc.Read? ==> r.stores == []
    ensures e.channel == [] ==> forall s | s in r.stores :: s.ch.None?
    ensures e.channel != [] ==> forall s | s in r.stores :: s.ch == Some(ChannelInfo(e))
    ensures e.attr != [] ==> forall s | s in r.stores :: s.attr == e.attr
    ensures dev.Some? && e.channel != [] &&
      (forall k | 0 <= k < |dev.value.channels| :: !ChannelMatches(dev.value.channels[k], e.channel, e.chOut))
      ==> r == Fail(-ENOENT)
  {
    if dev.None? then Fail(-ENOENT)
    else if e.channel == "" then
      if e.attr == "" then Bulk(dev.value.attributes, None, acc)
      else Single(dev.value.attributes, e.attr, None, acc)
    else ChannelBranch(e, acc, dev.value)
  }

  // ---------------------------------------------------------------------
  // Entry points
  // ---------------------------------------------------------------------

  /** The descriptor of the interface registered under `device`. */
  function DeviceOf(reg: Registry, device: string): Option<IioDevice>
    requires Supported(reg, device)
  {
    GetInterface(reg, device).value.iio
  }

  /** `iio_read_attr`: FAILURE for an unknown device; otherwise a device
      attribute (or all of them) is read. */
  function ReadAttr(reg: Registry, device: string, attr: string, len: nat): (r: Reply)
    ensures !Supported(reg, device) ==> r == Fail(FAILURE)
    ensures r.stores == []
  {
    if !Supported(reg, device) then Fail(FAILURE)
    else RdWrAttribute(Element(device, "", false, attr), Read(len), DeviceOf(reg, device))
  }

  /** `iio_write_attr`: -ENODEV for an unknown device; otherwise a device
      attribute (or all of them) is written, without channel info. */
  function WriteAttr(reg: Registry, device: string, attr: string, data: seq<octet>): (r: Reply)
    ensures !Supported(reg, device) ==> r == Fail(-ENODEV)
    ensures forall s | s in r.stores :: s.ch.None?
    ensures attr != [] ==> forall s | s in r.stores :: s == Store(attr, None, data)
  {
    if !Supported(reg, device) then Fail(-ENODEV)
    else RdWrAttribute(Element(device, "", false, attr), Write(data), DeviceOf(reg, device))
  }

  /** `iio_ch_read_attr`: FAILURE for an unknown device; otherwise the
      attribute of the named channel (or of the device, for an empty
      channel name) is read. */
  function ChReadAttr(reg: Registry, device: string, channel: string, chOut: bool, attr: string, len: nat): (r: Reply)
    ensures !Supported(reg, device) ==> r == Fail(FAILURE)
    ensures r.stores == []
  {
    if !Supported(reg, device) then Fail(FAILURE)
    else RdWrAttribute(Element(device, channel, chOut, attr), Read(len), DeviceOf(reg, device))
  }

  /** `iio_ch_write_attr`: -ENODEV for an unknown device; otherwise the
      attribute of the named channel is written, every `store` receiving the
      channel number and direction. */
  function ChWriteAttr(reg: Registry, device: string, channel: string, chOut: bool, attr: string,
                       data: seq<octet>): (r: Reply)
    ensures !Supported(reg, device) ==> r == Fail(-ENODEV)
    ensures channel != [] ==>
      forall s | s in r.stores :: s.ch == Some(ChInfo(ChannelNumber(channel), chOut))
    ensures attr != [] ==> forall s | s in r.stores :: s.attr == attr && s.value == data
  {
    if !Supported(reg, device) then Fail(-ENODEV)
    else RdWrAttribute(Element(device, channel, chOut, attr), Write(data), DeviceOf(reg, device))
  }

  // ---------------------------------------------------------------------
  // Properties of the routing
  // ---------------------------------------------------------------------

  /** Reading a device attribute returns what the `show` accessor of the
      first attribute of that name returns, called without channel info. */
  lemma ReadDeviceAttribute(reg: Registry, device: string, attr: string, len: nat, dev: IioDevice, k: nat)
    requires Supported(reg, device) && DeviceOf(reg, device) == Some(dev)
    requires attr != [] && k < |AttrsOf(dev.attributes)|
    requires AttrsOf(dev.attributes)[k].name == attr
    requires forall j | 0 <= j < k :: AttrsOf(dev.attributes)[j].name != attr
    ensures ReadAttr(reg, device, attr, len) ==
      Reply(AttrsOf(dev.attributes)[k].show(None, len).len, AttrsOf(dev.attributes)[k].show(None, len).text, [])
  {
    SingleFinds(dev.attributes, attr, None, Read(len), k);
  }

  /** Writing an attribute of channel `prefix` + decimal `n` calls the
      `store` accessor of the first attribute of that name in the channel
      found, once, with channel number `n` and the request's direction, and
      returns what it returns. */
  lemma WriteChannelAttribute(reg: Registry, device: string, prefix: string, n: nat, chOut: bool,
                              attr: string, data: seq<octet>, dev: IioDevice, c: nat, k: nat)
    requires Supported(reg, device) && DeviceOf(reg, device) == Some(dev)
    requires prefix == [] || !IsDigit(prefix[|prefix| - 1])
    requires c < |dev.channels| && ChannelMatches(dev.channels[c], prefix + Decimal(n), chOut)
    requires forall j | 0 <= j < c :: !ChannelMatches(dev.channels[j], prefix + Decimal(n), chOut)
    requires attr != [] && k < |AttrsOf(dev.channels[c].attributes)|
    requires AttrsOf(dev.channels[c].attributes)[k].name == attr
    requires forall j | 0 <= j < k :: AttrsOf(dev.channels[c].attributes)[j].name != attr
    ensures ChWriteAttr(reg, device, prefix + Decimal(n), chOut, attr, data) ==
      Reply(AttrsOf(dev.channels[c].attributes)[k].store(Some(ChInfo(n, chOut)), data), [],
        [Store(attr, Some(ChInfo(n, chOut)), data)])
  {
    var name := prefix + Decimal(n);
    assert |name| >= 1;
    IndexedName(prefix, n);
    var id := ChannelId(name, dev.channels, chOut);
    assert id == c;
    SingleFinds(dev.channels[c].attributes, attr, Some(ChInfo(n, chOut)), Write(data), k);
  }

  /** A request for an attribute the element does not have, or for a
      channel the device does not have, ends in -ENOENT with no accessor
      called; so does any request on an interface without a descriptor. */
  lemma UnknownElement(reg: Registry, device: string, channel: string, chOut: bool, attr: string,
                       data: seq<octet>, dev: IioDevice)
    requires Supported(reg, device) && DeviceOf(reg, device) == Some(dev)
    ensures attr != [] ==>
      (forall k | 0 <= k < |AttrsOf(dev.attributes)| :: AttrsOf(dev.attributes)[k].name != attr) ==>
        WriteAttr(reg, device, attr, data) == Fail(-ENOENT)
    ensures channel != [] ==>
      (forall k | 0 <= k < |dev.channels| :: !ChannelMatches(dev.channels[k], channel, chOut)) ==>
        ChWriteAttr(reg, device, channel, chOut, attr, data) == Fail(-ENOENT)
  {
  }

  lemma NoDescriptor(reg: Registry, device: string, channel: string, chOut: bool, attr: string, len: nat)
    requires Supported(reg, device) && DeviceOf(reg, device).None?
    ensures ChReadAttr(reg, device, channel, chOut, attr, len) == Fail(-ENOENT)
    ensures ReadAttr(reg, device, attr, len) == Fail(-ENOENT)
  {
  }

  /** Reading all attributes of a channel and writing the bytes back to the
      same channel hands each attribute's `store` the first `len` bytes of
      what its `show` produced, `len` being the length `show` returned, with
      the channel's info; the write returns the number of bytes read. */
  lemma ChannelBulkRoundTrip(reg: Registry, device: string, channel: string, chOut: bool, len: nat,
                             dev: IioDevice, c: nat)
    requires Supported(reg, device) && DeviceOf(reg, device) == Some(dev)
    requires channel != [] && c < |dev.channels| && ChannelMatches(dev.channels[c], channel, chOut)
    requires forall j | 0 <= j < c :: !ChannelMatches(dev.channels[j], channel, chOut)
    requires dev.channels[c].attributes.Some?
    requires var attrs := dev.channels[c].attributes.value;
      forall i | 0 <= i < |attrs| ::
        0 <= attrs[i].show(Some(ChInfo(ChannelNumber(channel), chOut)), len).len < WORD
    ensures var attrs := dev.channels[c].attributes.value;
      var ch := Some(ChInfo(ChannelNumber(channel), chOut));
      var rd := ChReadAttr(reg, device, channel, chOut, "", len);
      var wr := ChWriteAttr(reg, device, channel, chOut, "", rd.out);
      rd.ret >= 0 && wr.ret == rd.ret && |wr.stores| == |attrs| &&
      forall i | 0 <= i < |attrs| ::
        wr.stores[i] == Store(attrs[i].name, ch, Kept(attrs[i].show(ch, len)))
  {
    var attrs := dev.channels[c].attributes.value;
    var ch := Some(ChInfo(ChannelNumber(channel), chOut));
    var id := ChannelId(channel, dev.channels, chOut);
    assert id == c;
    var rd := ReadAllAttr(Some(attrs), true, len, ch);
    BulkRoundTrip(attrs, ch, len, attrs);
    ValuesAt(Shows(attrs, ch, len));
    assert ChReadAttr(reg, device, channel, chOut, "", len).out == rd.out;
  }

  /** Registering another interface does not change what a request to an
      already registered device returns. */
  lemma LaterRegistrationInvisible(reg: Registry, iface: Interface, device: string, channel: string,
                                   chOut: bool, attr: string, data: seq<octet>)
    requires Supported(reg, device)
    ensures ChWriteAttr(Register(reg, iface).reg, device, channel, chOut, attr, data) ==
      ChWriteAttr(reg, device, channel, chOut, attr, data)
  {
    LookupAfterRegister(reg, iface, device);
  }
}

/** The interface registry (`iio_register`, `iio_unregister`) and the
    channel-mask bookkeeping done on registered interfaces (`iio_open_dev`,
    `iio_close_dev`, `iio_get_mask`). */
module IioRegistry {
  import opened Common
  import opened IioTypes
  import opened IioNames

  /** A new registry together with the status code returned. */
  datatype Update = Update(reg: Registry, ret: int)

  /** Two registries that list the same names in the same order. */
  predicate SameNames(reg: Registry, reg2: Registry) {
    |reg| == |reg2| && forall k | 0 <= k < |reg| :: reg[k].name == reg2[k].name
  }

  /** No name is registered twice. */
  predicate UniqueNames(reg: Registry) {
    forall i, j | 0 <= i < j < |reg| :: reg[i].name != reg[j].name
  }

  /** Lookups only look at names: registries with the same names find the
      same position. */
  lemma InterfaceIndexSameNames(reg: Registry, reg2: Registry, name: string)
    requires SameNames(reg, reg2)
    ensures InterfaceIndex(reg, name) == InterfaceIndex(reg2, name)
  {
    var a, b := InterfaceIndex(reg, name), InterfaceIndex(reg2, name);
    if a.Some? {
      assert reg2[a.value].name == name;
    }
    if b.Some? {
      assert reg[b.value].name == name;
    }
  }

  // ---------------------------------------------------------------------
  // Registration
  // ---------------------------------------------------------------------

  /** `iio_register`: the interface goes at the end, the count grows by one;
      the names already present are not checked. */
  function Register(reg: Registry, iface: Interface): (r: Update)
    ensures r.ret == SUCCESS
    ensures |r.reg| == |reg| + 1 && r.reg[..|reg|] == reg && r.reg[|reg|] == iface
  {
    Update(reg + [iface], SUCCESS)
  }

  /** After a registration, a lookup still finds what it found before; a
      name not registered before now finds the new interface. */
  lemma LookupAfterRegister(reg: Registry, iface: Interface, name: string)
    ensures GetInterface(Register(reg, iface).reg, name) ==
      if Supported(reg, name) then GetInterface(reg, name)
      else if iface.name == name then Some(iface)
      else None
  {
    var reg2 := Register(reg, iface).reg;
    assert forall k | 0 <= k < |reg| :: reg2[k] == reg[k];
    assert reg2[|reg|] == iface;
  }

  /** `iio_unregister` as intended: the first interface with that name is
      removed, the others keep their order, and FAILURE is returned exactly
      when no interface carries the name. */
  function Unregister(reg: Registry, name: string): (r: Update)
    ensures r.ret == SUCCESS || r.ret == FAILURE
    ensures r.ret == FAILURE <==> !Supported(reg, name)
    ensures r.ret == FAILURE ==> r.reg == reg
    ensures r.ret == SUCCESS ==> |r.reg| == |reg| - 1
    ensures r.ret == SUCCESS ==>
      exists k | 0 <= k < |reg| ::
        reg[k].name == name && (forall j | 0 <= j < k :: reg[j].name != name) &&
        r.reg == reg[..k] + reg[k + 1..]
  {
    match InterfaceIndex(reg, name)
    case None => Update(reg, FAILURE)
    case Some(k) => Update(reg[..k] + reg[k + 1..], SUCCESS)
  }

  /** An entry of `reg[..k] + reg[k + 1..]`: the one before the removed
      position, or the one after it. */
  lemma RemovedAt(reg: Registry, k: nat, j: nat)
    requires k < |reg| && j < |reg| - 1
    ensures (reg[..k] + reg[k + 1..])[j] == if j < k then reg[j] else reg[j + 1]
  {
  }

  /** A name found before removing another entry is found after it, at the
      same interface. */
  lemma RemoveKeepsFound(reg: Registry, k: nat, other: string)
    requires k < |reg| && reg[k].name != other && InterfaceIndex(reg, other).Some?
    ensures GetInterface(reg[..k] + reg[k + 1..], other) == GetInterface(reg, other)
  {
    var reg2 := reg[..k] + reg[k + 1..];
    var m := InterfaceIndex(reg, other).value;
    var m2 := if m < k then m else m - 1;
    RemovedAt(reg, k, m2);
    forall j | 0 <= j < m2
      ensures reg2[j].name != other
    {
      RemovedAt(reg, k, j);
    }
    assert InterfaceIndex(reg2, other) == Some(m2);
  }

  /** A name missing before removing an entry stays missing. */
  lemma RemoveKeepsMissing(reg: Registry, k: nat, other: string)
    requires k < |reg| && InterfaceIndex(reg, other).None?
    ensures GetInterface(reg[..k] + reg[k + 1..], other).None?
  {
    var reg2 := reg[..k] + reg[k + 1..];
    forall j | 0 <= j < |reg2|
      ensures reg2[j].name != other
    {
      RemovedAt(reg, k, j);
    }
  }

  /** Removing the only entry with a name leaves nothing to find under it. */
  lemma RemoveDropsName(reg: Registry, k: nat)
    requires k < |reg| && UniqueNames(reg)
    ensures GetInterface(reg[..k] + reg[k + 1..], reg[k].name).None?
  {
    var reg2 := reg[..k] + reg[k + 1..];
    forall j | 0 <= j < |reg2|
      ensures reg2[j].name != reg[k].name
    {
      RemovedAt(reg, k, j);
    }
  }

  /** With unique names, an unregistered name is no longer found and every
      other name still finds the same interface. */
  lemma LookupAfterUnregister(reg: Registry, name: string, other: string)
    requires UniqueNames(reg)
    ensures GetInterface(Unregister(reg, name).reg, name).None?
    ensures other != name ==> GetInterface(Unregister(reg, name).reg, other) == GetInterface(reg, other)
  {
    var idx := InterfaceIndex(reg, name);
    if idx.Some? {
      var k := idx.value;
      assert Unregister(reg, name).reg == reg[..k] + reg[k + 1..];
      RemoveDropsName(reg, k);
      if other != name && InterfaceIndex(reg, other).Some? {
        RemoveKeepsFound(reg, k, other);
      } else if other != name {
        RemoveKeepsMissing(reg, k, other);
      }
    }
  }

  /** Registering a fresh name and unregistering it again restores the
      registry. */
  lemma RegisterThenUnregister(reg: Registry, iface: Interface)
    requires !Supported(reg, iface.name)
    ensures Unregister(Register(reg, iface).reg, iface.name) == Update(reg, SUCCESS)
  {
    var reg2 := Register(reg, iface).reg;
    assert forall k | 0 <= k < |reg| :: reg2[k] == reg[k];
    assert reg2[|reg|].name == iface.name;
    assert reg2[..|reg|] + reg2[|reg| + 1..] == reg;
  }

  /** What `iio_unregister` as written leaves behind. It allocates a new
      header and an array with room for n-1 pointers, copies every
      non-matching entry to index `i - deleted`, then frees the header the
      global registry pointer designates and never installs the new one.
      `global` is the registry reachable through the global pointer
      afterwards: `None` once its header has been freed and the pointer left
      dangling. `capacity` is the room of the rebuilt array and `writes` the
      indices written into it. */
  datatype UnregisterTrace = UnregisterTrace(ret: int, global: Option<Registry>, capacity: int, writes: seq<int>)

  /** Indices the copy loop of `iio_unregister` writes from position `i` on. */
  function CopyWrites(reg: Registry, name: string, i: nat, deleted: nat): (w: seq<int>)
    requires i <= |reg|
    decreases |reg| - i
  {
    if i == |reg| then []
    else if reg[i].name == name then CopyWrites(reg, name, i + 1, 1)
    else [i - deleted] + CopyWrites(reg, name, i + 1, deleted)
  }

  /** `iio_unregister` as written. `allocOk` is whether both `calloc`
      calls return memory (the second asks for n-1 pointers, so for a
      registry of one it is `calloc(0, ...)`, which may return NULL). When
      either fails, FAILURE is returned and nothing else happens. The
      registry must be non-empty: the source dereferences the registry
      pointer, which is NULL until the first registration. */
  function UnregisterAsWritten(reg: Registry, name: string, allocOk: bool): (t: UnregisterTrace)
    requires |reg| >= 1
    ensures !allocOk ==> t.ret == FAILURE && t.global == Some(reg) && t.writes == []
    ensures allocOk ==> t.global.None?
    ensures allocOk ==> (t.ret == SUCCESS <==> Supported(reg, name))
  {
    if !allocOk then UnregisterTrace(FAILURE, Some(reg), 0, [])
    else
      UnregisterTrace(
        if Supported(reg, name) then SUCCESS else FAILURE,
        None, |reg| - 1, CopyWrites(reg, name, 0, 0))
  }

  /** Without a match, the copy loop writes index `i` for every position. */
  lemma {:induction false} CopyWritesWithoutMatch(reg: Registry, name: string, i: nat)
    requires i <= |reg|
    requires forall k | i <= k < |reg| :: reg[k].name != name
    ensures |CopyWrites(reg, name, i, 0)| == |reg| - i
    ensures forall k | 0 <= k < |reg| - i :: CopyWrites(reg, name, i, 0)[k] == i + k
    decreases |reg| - i
  {
    if i < |reg| {
      CopyWritesWithoutMatch(reg, name, i + 1);
    }
  }

  /** When no interface matches, the last copy writes one element past the
      end of the rebuilt array, although FAILURE is returned. */
  lemma UnregisterAsWrittenOverruns(reg: Registry, name: string)
    requires |reg| >= 1 && !Supported(reg, name)
    ensures UnregisterAsWritten(reg, name, true).ret == FAILURE
    ensures |UnregisterAsWritten(reg, name, true).writes| == |reg|
    ensures UnregisterAsWritten(reg, name, true).writes[|reg| - 1] == UnregisterAsWritten(reg, name, true).capacity
  {
    CopyWritesWithoutMatch(reg, name, 0);
  }

  /** Concrete case: when the allocations succeed, unregistering the only
      interface reports SUCCESS, but the rebuilt list is never installed and
      the global pointer is left designating freed memory, so no registry
      remains to look anything up in. The intended `Unregister` leaves the
      empty registry. */
  lemma UnregisterAsWrittenDangles(iface: Interface)
    ensures UnregisterAsWritten([iface], iface.name, true).ret == SUCCESS
    ensures UnregisterAsWritten([iface], iface.name, true).global.None?
    ensures Unregister([iface], iface.name) == Update([], SUCCESS)
  {
    assert [iface][0].name == iface.name;
  }

  // ---------------------------------------------------------------------
  // Channel masks
  // ---------------------------------------------------------------------

  /** The mask of the channels a device has: bits 0 .. numCh-1 set, computed
      as `0xFFFFFFFF >> (32 - num_ch)`. */
  function ChannelMask(numCh: bv32): bv32
    requires 1 <= numCh <= 32
  {
    0xFFFF_FFFF >> (32 - numCh)
  }

  /** The test of `iio_open_dev`: `mask & ~ch_mask` is non-zero. */
  predicate Exceeds(mask: bv32, numCh: bv32)
    requires 1 <= numCh <= 32
  {
    mask & !ChannelMask(numCh) != 0
  }

  /** The mask has no bit at a position `>= numCh`. */
  predicate WithinChannels(mask: bv32, numCh: bv32)
    requires numCh <= 32
  {
    mask >> numCh == 0
  }

  /** The C test rejects exactly the masks with a bit beyond the channels. */
  lemma ChannelMaskAccepts(mask: bv32, numCh: bv32)
    requires 1 <= numCh <= 32
    ensures Exceeds(mask, numCh) <==> !WithinChannels(mask, numCh)
  {
  }

  /** `iio_open_dev` dereferences the descriptor of the interface it finds
      and shifts by `32 - num_ch`, which is defined only for 1..32 channels. */
  predicate Openable(reg: Registry, name: string) {
    match InterfaceIndex(reg, name)
    case None => true
    case Some(k) => reg[k].iio.Some? && 1 <= reg[k].iio.value.numCh <= 32
  }

  /** The channel count of the device registered under `name`. */
  function ChannelCount(reg: Registry, name: string): (n: bv32)
    requires Supported(reg, name) && Openable(reg, name)
    ensures 1 <= n <= 32
  {
    var k := InterfaceIndex(reg, name).value;
    reg[k].iio.value.numCh
  }

  /** `reg` with the mask of the first interface named `name` replaced. */
  function WithMask(reg: Registry, name: string, mask: bv32): (r: Registry)
    requires Supported(reg, name)
    ensures SameNames(reg, r)
    ensures GetInterface(r, name) == Some(GetInterface(reg, name).value.(chMask := mask))
    ensures forall other | other != name :: GetInterface(r, other) == GetInterface(reg, other)
  {
    var k := InterfaceIndex(reg, name).value;
    var r := reg[k := reg[k].(chMask := mask)];
    forall other
      ensures InterfaceIndex(r, other) == InterfaceIndex(reg, other)
    {
      InterfaceIndexSameNames(reg, r, other);
    }
    r
  }

  /** `iio_open_dev`: -ENODEV for an unknown device; -ENOENT, with nothing
      changed, when the mask selects a channel the device does not have;
      otherwise the mask is stored. */
  function OpenDev(reg: Registry, name: string, mask: bv32): (r: Update)
    requires Openable(reg, name)
    ensures r.ret in {SUCCESS, -ENODEV, -ENOENT}
    ensures r.ret == -ENODEV <==> !Supported(reg, name)
    ensures r.ret == -ENOENT <==> Supported(reg, name) && !WithinChannels(mask, ChannelCount(reg, name))
    ensures r.ret != SUCCESS ==> r.reg == reg
  {
    if !Supported(reg, name) then Update(reg, -ENODEV)
    else
      var numCh := ChannelCount(reg, name);
      ChannelMaskAccepts(mask, numCh);
      if Exceeds(mask, numCh) then Update(reg, -ENOENT)
      else Update(WithMask(reg, name, mask), SUCCESS)
  }

  /** `iio_close_dev`: FAILURE for an unknown device, otherwise the mask
      becomes 0. */
  function CloseDev(reg: Registry, name: string): (r: Update)
    ensures r.ret == SUCCESS || r.ret == FAILURE
    ensures r.ret == FAILURE <==> !Supported(reg, name)
    ensures r.ret == FAILURE ==> r.reg == reg
  {
    if Supported(reg, name) then Update(WithMask(reg, name, 0), SUCCESS)
    else Update(reg, FAILURE)
  }

  datatype MaskReply = MaskReply(ret: int, mask: Option<bv32>)

  /** `iio_get_mask`: -ENODEV for an unknown device, otherwise the mask
      stored in the interface. */
  function GetMask(reg: Registry, name: string): (r: MaskReply)
    ensures r.ret == SUCCESS || r.ret == -ENODEV
    ensures r.ret == -ENODEV <==> !Supported(reg, name)
    ensures r.ret == -ENODEV <==> r.mask.None?
  {
    match GetInterface(reg, name)
    case None => MaskReply(-ENODEV, None)
    case Some(iface) => MaskReply(SUCCESS, Some(iface.chMask))
  }

  /** An accepted open is what `get_mask` reports next; a close makes it 0;
      neither changes the mask of any other device. */
  lemma MaskBookkeeping(reg: Registry, name: string, other: string, mask: bv32)
    requires Openable(reg, name)
    ensures OpenDev(reg, name, mask).ret == SUCCESS ==>
      GetMask(OpenDev(reg, name, mask).reg, name) == MaskReply(SUCCESS, Some(mask))
    ensures Supported(reg, name) ==>
      GetMask(CloseDev(reg, name).reg, name) == MaskReply(SUCCESS, Some(0))
    ensures other != name ==>
      GetMask(OpenDev(reg, name, mask).reg, other) == GetMask(reg, other) &&
      GetMask(CloseDev(reg, name).reg, other) == GetMask(reg, other)
  {
  }

  /** The scenario of a four-channel device: mask 0b1111 is accepted, mask
      0b10000 (channel 4) is refused with -ENOENT. */
  lemma FourChannelScenario(reg: Registry, name: string)
    requires Supported(reg, name) && Openable(reg, name) && ChannelCount(reg, name) == 4
    ensures OpenDev(reg, name, 0x0F).ret == SUCCESS
    ensures OpenDev(reg, name, 0x10).ret == -ENOENT
  {
  }
}

/** Reading samples out of the ADPD410x: the per-slot sample sizes and
    channel flags the driver fetches, the FIFO reads, and the two entry
    points adpd410x_get_data_packet and adpd410x_get_data built on the
    packet logic of AdpdData. */
module AdpdRead {
  import opened Common
  import opened AdpdRegs
  import opened AdpdData

  /** What a read of samples hands back: the chip afterwards, the return
      code, and the samples in the order they were produced. */
  datatype Packet = Packet(dev: Device, ret: int, samples: seq<Entry>)

  /** Positions of TS_CTRL and DATA1 in a per-slot register block. */
  const TsCtrlIndex: nat := 0
  const Data1Index: nat := 5

  /** The sample size the driver takes from a DATA1 value: the SIGNAL_SIZE
      bits as they sit in the register (the driver does not shift them
      down), truncated to the byte its size table holds. */
  function SizeOf(chip: Chip, data1: bv16): (n: nat)
    ensures n < 256
  {
    (data1 & chip.signalSize.mask) as nat % 256
  }

  /** The size the data path reads back from what the setup wrote is the
      setup's byte count under the field's mask: the size configured is the
      size used. This relies on SIGNAL_SIZE sitting at bit 0 of DATA1, which
      `ValidChip` requires. */
  lemma SizeOfWritten(chip: ValidChip, byteNo: bv16)
    ensures SizeOf(chip, InField(byteNo, chip.signalSize)) == SizeOf(chip, byteNo)
  {
    LowField(byteNo, chip.signalSize.mask);
  }

  lemma LowField(x: bv16, m: bv16)
    ensures ((x << 0) & m) & m == x & m
  {
  }

  /** Per-slot register `index` of slot `i`. */
  function SlotKey(chip: ValidChip, i: nat, index: nat): Reg
    requires i < 16 && index < 10
  {
    Key(SlotReg(chip, i as bv16, index))
  }

  /** A read of per-slot register `index` of slot `i`. */
  function SlotRead(chip: ValidChip, d: Device, i: nat, index: nat): (r: Option<bv16>)
    requires i < 16 && index < 10
    ensures r.Some? <==> SlotKey(chip, i, index) in d.regs
    ensures r.Some? ==> r.value == d.regs[SlotKey(chip, i, index)]
  {
    Read(d, SlotReg(chip, i as bv16, index))
  }

  /** Per-slot register `index` is reachable for each of the first `n`
      slots. */
  predicate Present(chip: ValidChip, d: Device, index: nat, n: nat)
    requires index < 10 && n <= 16
  {
    n == 0 || (Present(chip, d, index, n - 1) && SlotKey(chip, n - 1, index) in d.regs)
  }

  /** A register of a slot below `n` is reachable when all are. */
  lemma {:induction false} PresentBelow(chip: ValidChip, d: Device, index: nat, n: nat, i: nat)
    requires index < 10 && n <= 16 && i < n && Present(chip, d, index, n)
    ensures SlotKey(chip, i, index) in d.regs
    decreases n
  {
    if i < n - 1 {
      PresentBelow(chip, d, index, n - 1, i);
    }
  }

  /** A slot below `n` whose register is missing makes the first `n` slots
      not all reachable. */
  lemma MissingSlotReg(chip: ValidChip, d: Device, index: nat, n: nat, i: nat)
    requires index < 10 && n <= 16 && i < n && SlotKey(chip, i, index) !in d.regs
    ensures !Present(chip, d, index, n)
  {
    if Present(chip, d, index, n) {
      PresentBelow(chip, d, index, n, i);
    }
  }

  /** The DATA1 registers of the first `n` slots are reachable. */
  predicate DataRegsPresent(chip: ValidChip, d: Device, n: nat)
    requires n <= 16
  {
    Present(chip, d, Data1Index, n)
  }

  /** The TS_CTRL registers of the first `n` slots are reachable. */
  predicate CtrlRegsPresent(chip: ValidChip, d: Device, n: nat)
    requires n <= 16
  {
    Present(chip, d, TsCtrlIndex, n)
  }

  /** The formats of the slots, from their DATA1 registers and the given
      channel flags. */
  function Formats(chip: ValidChip, d: Device, dual: seq<bool>): (f: seq<SlotFormat>)
    requires |dual| <= 16 && DataRegsPresent(chip, d, |dual|)
    ensures |f| == |dual|
    decreases |dual|
  {
    if dual == [] then []
    else
      var k := |dual| - 1;
      Formats(chip, d, dual[..k]) + [SlotFormat(SizeOf(chip, d.regs[SlotKey(chip, k, Data1Index)]), dual[k])]
  }

  /** Reading `count` FIFO words succeeds: nothing to read, or the data
      register is reachable and the FIFO holds enough words. An empty FIFO
      is taken to fail the read. */
  predicate FifoHolds(chip: Chip, d: Device, count: nat) {
    count == 0 || (Key(chip.fifoData) in d.regs && count <= |d.fifo|)
  }

  /** `d2` is `d` after some words have left its FIFO, and nothing else
      changed. */
  predicate Drained(d: Device, d2: Device) {
    |d2.fifo| <= |d.fifo| && d2 == d.(fifo := d.fifo[|d.fifo| - |d2.fifo|..])
  }

  /** The FIFO read loop: `count` reads of FIFO_DATA, each taking the oldest
      word, stopping at the first failure. */
  method ReadWords(chip: Chip, d: Device, count: nat) returns (dev: Device, ret: int, words: seq<bv16>)
    ensures ret == SUCCESS || ret == FAILURE
    ensures ret == SUCCESS <==> FifoHolds(chip, d, count)
    ensures Drained(d, dev)
    ensures ret == SUCCESS ==> words == d.fifo[..count] && dev.fifo == d.fifo[count..]
  {
    dev := d;
    words := [];
    var i := 0;
    while i < count
      invariant i <= count && i <= |d.fifo|
      invariant dev == d.(fifo := d.fifo[i..])
      invariant words == d.fifo[..i]
      invariant i > 0 ==> Key(chip.fifoData) in d.regs
    {
      if Key(chip.fifoData) !in dev.regs || dev.fifo == [] {
        return dev, FAILURE, [];
      }
      words := words + [dev.fifo[0]];
      dev := dev.(fifo := dev.fifo[1..]);
      i := i + 1;
      assert d.fifo[..i] == d.fifo[..i - 1] + [d.fifo[i - 1]];
    }
    ret := SUCCESS;
  }

  /** The DATA1 loop of adpd410x_get_data_packet: one read per slot,
      stopping at the first failure. */
  method ReadFormats(chip: ValidChip, d: Device, dual: seq<bool>) returns (ok: bool, formats: seq<SlotFormat>)
    requires |dual| <= 16
    ensures ok <==> DataRegsPresent(chip, d, |dual|)
    ensures ok ==> formats == Formats(chip, d, dual)
  {
    formats := [];
    var i := 0;
    while i < |dual|
      invariant i <= |dual|
      invariant DataRegsPresent(chip, d, i)
      invariant formats == Formats(chip, d, dual[..i])
    {
      var v := SlotRead(chip, d, i, Data1Index);
      if v.None? {
        MissingSlotReg(chip, d, Data1Index, |dual|, i);
        return false, [];
      }
      formats := formats + [SlotFormat(SizeOf(chip, v.value), dual[i])];
      i := i + 1;
      assert dual[..i][..i - 1] == dual[..i - 1];
    }
    assert dual[..i] == dual;
    ok := true;
  }

  /** adpd410x_get_data_packet for `|dual|` active slots, `dual[i]` telling
      whether slot `i` has its second channel on: the DATA1 reads, the byte
      count, the FIFO reads, the split into bytes and the unpacking (with
      a slot of size 0 skipped). It fails, with the chip untouched, when a
      DATA1 read fails, and when the FIFO cannot give the packet's words;
      on success exactly the packet's words have left the FIFO and the
      samples are those the packet carries. */
  method GetDataPacket(chip: ValidChip, d: Device, dual: seq<bool>) returns (r: Packet)
    requires 1 <= |dual| <= 16
    ensures r.ret == SUCCESS || r.ret == FAILURE
    ensures r.ret == SUCCESS <==>
      DataRegsPresent(chip, d, |dual|) && FifoHolds(chip, d, PacketBytes(Formats(chip, d, dual)) / 2)
    ensures !DataRegsPresent(chip, d, |dual|) ==> r.dev == d
    ensures Drained(d, r.dev)
    ensures r.ret == SUCCESS ==>
      var f := Formats(chip, d, dual);
      var w := PacketBytes(f) / 2;
      && r.dev.fifo == d.fifo[w..]
      && r.samples == PacketSamples(f, d.fifo[..w])
  {
    var ok, formats := ReadFormats(chip, d, dual);
    if !ok {
      return Packet(d, FAILURE, []);
    }
    var byteCount := ExpectedByteCount(formats);
    var dev, ret, words := ReadWords(chip, d, byteCount / 2);
    if ret != SUCCESS {
      return Packet(dev, FAILURE, []);
    }
    ConsumedWithinSum(Channels(formats));
    var samples := UnpackPacket(formats, SplitWords(words));
    r := Packet(dev, SUCCESS, samples);
  }

  /** The number of active slots: the TIMESLOT_EN field of OPMODE plus
      one. */
  function ActiveSlots(chip: ValidChip, opmode: bv16): (n: nat)
    requires chip.timeslotEn.pos <= 12 && chip.timeslotEn.mask == Place(0x0F, chip.timeslotEn.pos)
    ensures 1 <= n <= 16
  {
    NibbleFieldBound(opmode, chip.timeslotEn.mask, chip.timeslotEn.pos);
    FieldOf(opmode, chip.timeslotEn) as nat + 1
  }

  /** A four-bit field reads at most 15. */
  lemma NibbleFieldBound(v: bv16, m: bv16, p: bv16)
    requires p <= 12 && m == Place(0x0F, p)
    ensures (v & m) >> p <= 15
  {
  }

  /** A TS_CTRL value has the second channel on. */
  predicate Ch2On(chip: Chip, tsCtrl: bv16) {
    tsCtrl & chip.ch2En.mask != 0
  }

  /** Whether each of the first `n` slots has its second channel on, as
      the TS_CH2_EN bits of their TS_CTRL registers say. */
  function DualFlags(chip: ValidChip, d: Device, n: nat): (dual: seq<bool>)
    requires n <= 16 && CtrlRegsPresent(chip, d, n)
    ensures |dual| == n
  {
    if n == 0 then []
    else DualFlags(chip, d, n - 1) + [Ch2On(chip, d.regs[SlotKey(chip, n - 1, TsCtrlIndex)])]
  }

  /** The TS_CTRL loop of adpd410x_get_data: one read per slot, stopping
      at the first failure. */
  method ReadDualFlags(chip: ValidChip, d: Device, n: nat) returns (ok: bool, dual: seq<bool>)
    requires n <= 16
    ensures ok <==> CtrlRegsPresent(chip, d, n)
    ensures ok ==> dual == DualFlags(chip, d, n)
  {
    dual := [];
    var i := 0;
    while i < n
      invariant i <= n
      invariant CtrlRegsPresent(chip, d, i)
      invariant dual == DualFlags(chip, d, i)
    {
      var v := SlotRead(chip, d, i, TsCtrlIndex);
      if v.None? {
        MissingSlotReg(chip, d, TsCtrlIndex, n, i);
        return false, [];
      }
      dual := dual + [Ch2On(chip, v.value)];
      i := i + 1;
    }
    ok := true;
  }

  /** adpd410x_get_data: read OPMODE for the number of active slots, read
      each slot's TS_CTRL for its second channel, then read the packet.
      A failed OPMODE or TS_CTRL read fails with the chip untouched. */
  method GetData(chip: ValidChip, d: Device) returns (r: Packet)
    requires chip.timeslotEn.pos <= 12 && chip.timeslotEn.mask == Place(0x0F, chip.timeslotEn.pos)
    ensures r.ret == SUCCESS || r.ret == FAILURE
    ensures r.ret == SUCCESS <==>
      && Key(chip.opmode) in d.regs
      && var n := ActiveSlots(chip, d.regs[Key(chip.opmode)]);
      && CtrlRegsPresent(chip, d, n)
      && DataRegsPresent(chip, d, n)
      && FifoHolds(chip, d, PacketBytes(Formats(chip, d, DualFlags(chip, d, n))) / 2)
    ensures Drained(d, r.dev)
    ensures r.ret == SUCCESS ==>
      var n := ActiveSlots(chip, d.regs[Key(chip.opmode)]);
      var f := Formats(chip, d, DualFlags(chip, d, n));
      var w := PacketBytes(f) / 2;
      && r.dev.fifo == d.fifo[w..]
      && r.samples == PacketSamples(f, d.fifo[..w])
  {
    var op := Read(d, chip.opmode);
    if op.None? {
      return Packet(d, FAILURE, []);
    }
    var n := ActiveSlots(chip, op.value);
    var ok, dual := ReadDualFlags(chip, d, n);
    if !ok {
      return Packet(d, FAILURE, []);
    }
    r := GetDataPacket(chip, d, dual);
  }

  /** After adpd410x_set_last_timeslot(ts) succeeds, the data path reads
      `ts + 1` active slots. */
  lemma LastTimeslotSetsActiveSlots(chip: ValidChip, d: Device, ts: bv16)
    requires chip.timeslotEn.pos <= 12 && chip.timeslotEn.mask == Place(0x0F, chip.timeslotEn.pos)
    requires ts < 12
    requires SetLastTimeslot(chip, d, ts).ret == SUCCESS
    ensures ActiveSlots(chip, SetLastTimeslot(chip, d, ts).dev.regs[Key(chip.opmode)]) == ts as nat + 1
  {
  }

  /** After a successful setup of a slot, its TS_CTRL tells the data path
      the slot's second channel is on exactly when the setup enabled it. */
  lemma SetupSelectsChannels(chip: ValidChip, d: Device, d2: Device, slot: bv16, init: SlotInit)
    requires slot < 16 && init.inputPair < 4 && chip.ch2En.mask != 0
    requires SlotWritten(chip, d, d2, slot, init)
    ensures Key(SlotReg(chip, slot, TsCtrlIndex)) in d2.regs
    ensures Ch2On(chip, d2.regs[Key(SlotReg(chip, slot, TsCtrlIndex))]) == init.enableCh2
  {
    var k := Key(SlotReg(chip, slot, 0));
    var op := SlotOps(chip, slot, init)[0];
    assert k in d.regs && k in d2.regs && d2.regs[k] == op.NewValue(d.regs[k]);
    SetThenClear(d.regs[k], chip.ch2En.mask);
  }

  /** Setting the bits of a non-empty mask leaves some of them set;
      clearing them leaves none. */
  lemma SetThenClear(prev: bv16, m: bv16)
    requires m != 0
    ensures ((prev & !0) | m) & m != 0
    ensures ((prev & !m) | 0) & m == 0
  {
  }

}

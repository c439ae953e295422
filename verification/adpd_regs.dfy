/** Register-level logic of the ADPD410x driver: register reads and writes
    over the bus frames, the read-modify-write helpers (reset, operating
    mode, last time slot), the sampling-frequency split and the time-slot
    setup. The chip is an abstract map from 15-bit register addresses to
    16-bit values; an address the map does not hold stands for a bus
    transaction that fails. */
module AdpdRegs {
  import opened Common
  import opened AdpdFrames

  /** A register field, as a BITM_/BITP_ pair of the driver's header
      describes it: `mask` is BITM_, `pos` is BITP_. */
  datatype Field = Field(mask: bv16, pos: bv16)

  /** `x` moved up to bit `pos`, as `x << BITP_` in the driver. */
  function Place(x: bv16, pos: bv16): bv16
    requires pos < 16
  {
    x << pos
  }

  /** The contents of field `f` in register value `v`, shifted down. */
  function FieldOf(v: bv16, f: Field): bv16
    requires f.pos < 16
  {
    (v & f.mask) >> f.pos
  }

  /** Base addresses (time slot A) of the per-slot register blocks. */
  datatype SlotBases = SlotBases(
    tsCtrl: bv16, inputs: bv16, cathode: bv16, afeTrim: bv16, pattern: bv16,
    data1: bv16, decimate: bv16, ledPow12: bv16, ledPow34: bv16, counts: bv16)
  {
    function All(): seq<bv16> {
      [tsCtrl, inputs, cathode, afeTrim, pattern, data1, decimate, ledPow12, ledPow34, counts]
    }

    /** Every block, for all sixteen slot numbers, stays below 0x8000. */
    predicate InRange() {
      forall i | 0 <= i < |All()| :: All()[i] <= 0x7E1F
    }

    /** No two blocks share a base. */
    predicate Distinct() {
      forall i, j | 0 <= i < j < |All()| :: All()[i] != All()[j]
    }
  }

  /** The constants of the driver's header, which is not part of this
      model: register addresses, field positions and masks, and the two
      internal low-frequency oscillator rates. */
  datatype Chip = Chip(
    sysCtl: bv16, opmode: bv16, tsFreq: bv16, tsFreqH: bv16,
    fifoStatus: bv16, fifoData: bv16,
    slots: SlotBases,
    swReset: Field, opMode: Field, timeslotEn: Field, lfoscSel: Field, ch2En: Field,
    precon: Field, signalSize: Field, decimateFactor: Field,
    fifoByteCount: bv16,
    afeTrimVrefPos: bv16, vrefPulseValPos: bv16, tiaGainCh2Pos: bv16, tiaGainCh1Pos: bv16,
    subtractPos: bv16, reverseIntegPos: bv16, ledCurrent2Pos: bv16, ledCurrent4Pos: bv16,
    numIntPos: bv16,
    lfoFreq1: bv32, lfoFreq2: bv32)
  {
    /** What the header guarantees and the proofs rely on: field and plain
        positions are below 16, SIGNAL_SIZE sits at bit 0 of DATA1 (the
        data path reads the field without shifting it down, so the size the
        set-up writes is only the size read back when the field starts at
        bit 0), TS_FREQ and TS_FREQH are different registers, and the
        per-slot blocks are in range and apart. */
    predicate Valid() {
      && swReset.pos < 16 && opMode.pos < 16 && timeslotEn.pos < 16 && lfoscSel.pos < 16
      && ch2En.pos < 16 && precon.pos < 16 && signalSize.pos == 0 && decimateFactor.pos < 16
      && afeTrimVrefPos < 16 && vrefPulseValPos < 16 && tiaGainCh2Pos < 16
      && tiaGainCh1Pos < 16 && subtractPos < 16 && reverseIntegPos < 16
      && ledCurrent2Pos < 16 && ledCurrent4Pos < 16 && numIntPos < 16
      && Key(tsFreq) != Key(tsFreqH)
      && slots.InRange() && slots.Distinct()
    }
  }

  /** A chip description that meets `Chip.Valid`. */
  type ValidChip = c: Chip | c.Valid() witness ExampleChip()

  /** One valid description, standing in for the header's constants where a
      witness is needed. */
  function ExampleChip(): (c: Chip)
    ensures c.Valid()
  {
    Chip(0x000F, 0x0010, 0x000D, 0x000E, 0x0000, 0x002F,
         SlotBases(0x0100, 0x0102, 0x0104, 0x0106, 0x0108, 0x010A, 0x010C, 0x0110, 0x0112, 0x0114),
         Field(0x8000, 15), Field(0x0003, 0), Field(0x0F00, 8), Field(0x0001, 0), Field(0x4000, 14),
         Field(0x0700, 8), Field(0x0007, 0), Field(0x07F0, 4),
         0x07FF,
         0, 6, 3, 0, 0, 8, 8, 8, 8,
         1000000, 32000)
  }

  /** `base + slot * 0x20`: the copy of a per-slot register for `slot`. */
  function SlotAddr(base: bv16, slot: bv16): (a: bv16)
    requires base <= 0x7E1F && slot < 16
    ensures Key(a) == Reg(a)
  {
    base + slot * 0x20
  }

  /** The clock configuration chosen at setup. */
  datatype ClockOpt = IntLfoIntHfo | IntLfoExtHfo | ExtLfoIntHfo | ExtLfoExtHfo {
    predicate InternalLfo() {
      IntLfoIntHfo? || IntLfoExtHfo?
    }
  }

  /** A register of the chip, named by its 15-bit address. */
  datatype Reg = Reg(addr: bv16)

  /** The driver's device handle together with the chip it talks to: the
      register file and the words waiting in the data FIFO. */
  datatype Device = Device(bus: Bus, clk: ClockOpt, extLfoFreq: bv32,
                           regs: map<Reg, bv16>, fifo: seq<bv16>)

  /** The register a frame for `addr` reaches: the top address bit is
      dropped by both frame layouts. */
  function Key(addr: bv16): Reg {
    Reg(addr & 0x7FFF)
  }

  /** `d2` is `d` with at most the registers in `touched` changed: the same
      bus, clock, FIFO and register set, and every other register as it was. */
  predicate SameOutside(d: Device, d2: Device, touched: set<Reg>) {
    && d2.bus == d.bus && d2.clk == d.clk && d2.extLfoFreq == d.extLfoFreq && d2.fifo == d.fifo
    && d2.regs.Keys == d.regs.Keys
    && (forall k | k in d.regs && k !in touched :: d2.regs[k] == d.regs[k])
  }

  /** The effect of a register read on the chip: the value held at the
      addressed register, or a failed transaction. */
  function Read(d: Device, addr: bv16): (r: Option<bv16>)
    ensures r.Some? <==> Key(addr) in d.regs
    ensures r.Some? ==> r.value == d.regs[Key(addr)]
  {
    if Key(addr) in d.regs then Some(d.regs[Key(addr)]) else None
  }

  /** The effect of a register write on the chip. */
  function Write(d: Device, addr: bv16, v: bv16): (r: Option<Device>)
    ensures r.Some? <==> Key(addr) in d.regs
    ensures r.Some? ==> SameOutside(d, r.value, {Key(addr)})
    ensures r.Some? ==> r.value.regs[Key(addr)] == v
  {
    if Key(addr) in d.regs then Some(d.(regs := d.regs[Key(addr) := v])) else None
  }

  /** adpd410x_reg_read as a bus transaction: send the read request, let the
      chip answer with the addressed register's two bytes, rebuild the value.
      It has the effect of `Read`. */
  function RegRead(d: Device, addr: bv16): (r: Option<bv16>)
    ensures r == Read(d, addr)
  {
    var req := ReadRequest(d.bus, addr);
    var a := Reg(ChipAddress(d.bus, req[0], req[1]));
    if a in d.regs then
      var (hi, lo) := ValueBytes(d.regs[a]);
      Some(JoinValue(hi, lo))
    else
      None
  }

  /** adpd410x_reg_write as a bus transaction: send the four-byte write
      frame; the chip stores the value at the address it decodes. It has
      the effect of `Write`. */
  function RegWrite(d: Device, addr: bv16, v: bv16): (r: Option<Device>)
    ensures r == Write(d, addr, v)
  {
    var f := WriteFrame(d.bus, addr, v);
    var a := Reg(ChipAddress(d.bus, f[0], f[1]));
    if a in d.regs then Some(d.(regs := d.regs[a := JoinValue(f[2], f[3])])) else None
  }

  /** The result of a driver call: the device afterwards and the status. */
  datatype Outcome = Outcome(dev: Device, ret: int)

  /** The value a read-modify-write leaves in a register that held `prev`. */
  function Merge(prev: bv16, clearBits: bv16, setBits: bv16): bv16 {
    (prev & !clearBits) | setBits
  }

  /** A read-modify-write of one register: read, clear, set, write back. */
  function UpdateReg(d: Device, addr: bv16, clearBits: bv16, setBits: bv16): (r: Option<Device>)
    ensures r.Some? <==> Key(addr) in d.regs
    ensures r.Some? ==> SameOutside(d, r.value, {Key(addr)})
    ensures r.Some? ==> r.value.regs[Key(addr)] == Merge(d.regs[Key(addr)], clearBits, setBits)
  {
    match Read(d, addr)
    case None => None
    case Some(v) => Write(d, addr, Merge(v, clearBits, setBits))
  }

  /** A read-modify-write as one driver step with its status: FAILURE and
      no change when the register cannot be reached. */
  function Modify(d: Device, addr: bv16, clearBits: bv16, setBits: bv16): (r: Outcome)
    ensures r.ret == SUCCESS <==> Key(addr) in d.regs
    ensures r.ret != SUCCESS ==> r.ret == FAILURE && r.dev == d
    ensures SameOutside(d, r.dev, {Key(addr)})
    ensures r.ret == SUCCESS ==> r.dev.regs[Key(addr)] == Merge(d.regs[Key(addr)], clearBits, setBits)
  {
    var u := UpdateReg(d, addr, clearBits, setBits);
    if u.Some? then Outcome(u.value, SUCCESS) else Outcome(d, FAILURE)
  }

  /** One register access of a longer sequence: a read-modify-write that
      clears the bits of `clearBits` and sets those of `setBits`, or a plain
      write. */
  datatype RegOp = Update(addr: bv16, clearBits: bv16, setBits: bv16) | Put(addr: bv16, value: bv16) {
    /** The value this access leaves in a register that held `prev`. */
    function NewValue(prev: bv16): bv16 {
      match this
      case Update(_, clearBits, setBits) => Merge(prev, clearBits, setBits)
      case Put(_, value) => value
    }
  }

  /** Perform one access. */
  function ApplyOp(d: Device, op: RegOp): (r: Option<Device>)
    ensures r.Some? <==> Key(op.addr) in d.regs
    ensures r.Some? ==> SameOutside(d, r.value, {Key(op.addr)})
    ensures r.Some? ==> r.value.regs[Key(op.addr)] == op.NewValue(d.regs[Key(op.addr)])
  {
    match op
    case Update(addr, clearBits, setBits) => UpdateReg(d, addr, clearBits, setBits)
    case Put(addr, value) => Write(d, addr, value)
  }

  /** The registers a sequence of accesses reaches. */
  function Targets(ops: seq<RegOp>): set<Reg> {
    set i | 0 <= i < |ops| :: Key(ops[i].addr)
  }

  /** The registers of a sequence are those of all but its last access,
      plus the last one's. */
  lemma TargetsOfLast(ops: seq<RegOp>)
    requires ops != []
    ensures Targets(ops) == Targets(ops[..|ops| - 1]) + {Key(ops[|ops| - 1].addr)}
  {
    var n := |ops| - 1;
    forall k | k in Targets(ops) ensures k in Targets(ops[..n]) + {Key(ops[n].addr)} {
      var i :| 0 <= i < |ops| && Key(ops[i].addr) == k;
      if i < n {
        assert ops[..n][i] == ops[i];
      }
    }
    forall k | k in Targets(ops[..n]) ensures k in Targets(ops) {
      var i :| 0 <= i < n && Key(ops[..n][i].addr) == k;
      assert ops[..n][i] == ops[i];
    }
  }

  /** No two accesses reach the same register. */
  predicate DistinctTargets(ops: seq<RegOp>) {
    forall i, j | 0 <= i < j < |ops| :: Key(ops[i].addr) != Key(ops[j].addr)
  }

  /** Perform the accesses in order; the first failing transaction stops
      the sequence with FAILURE, leaving the earlier writes in place. */
  function RunOps(d: Device, ops: seq<RegOp>): (r: Outcome)
    ensures SameOutside(d, r.dev, Targets(ops))
    ensures r.ret == SUCCESS || r.ret == FAILURE
    ensures r.ret == SUCCESS <==> Targets(ops) <= d.regs.Keys
    decreases |ops|
  {
    if ops == [] then Outcome(d, SUCCESS)
    else
      assert Targets(ops) == {Key(ops[0].addr)} + Targets(ops[1..]);
      match ApplyOp(d, ops[0])
      case None => Outcome(d, FAILURE)
      case Some(d1) => RunOps(d1, ops[1..])
  }

  /** When the accesses reach distinct registers and all succeed, each
      register ends up holding what its own access computed from the value
      it held before the sequence. */
  lemma {:induction false} RunOpsWrites(d: Device, ops: seq<RegOp>)
    requires RunOps(d, ops).ret == SUCCESS && DistinctTargets(ops)
    ensures forall i | 0 <= i < |ops| ::
      RunOps(d, ops).dev.regs[Key(ops[i].addr)] == ops[i].NewValue(d.regs[Key(ops[i].addr)])
    decreases |ops|
  {
    if ops != [] {
      var k := Key(ops[0].addr);
      var d1 := ApplyOp(d, ops[0]).value;
      assert Targets(ops) == {k} + Targets(ops[1..]);
      assert DistinctTargets(ops[1..]) by {
        forall i, j | 0 <= i < j < |ops[1..]|
          ensures Key(ops[1..][i].addr) != Key(ops[1..][j].addr)
        {
          assert ops[1..][i] == ops[i + 1] && ops[1..][j] == ops[j + 1];
        }
      }
      RunOpsWrites(d1, ops[1..]);
      forall i | 1 <= i < |ops|
        ensures RunOps(d, ops).dev.regs[Key(ops[i].addr)] == ops[i].NewValue(d.regs[Key(ops[i].addr)])
      {
        assert ops[i] == ops[1..][i - 1];
        assert Key(ops[i].addr) != k;
      }
      forall j | 0 <= j < |ops[1..]|
        ensures Key(ops[1..][j].addr) != k
      {
        assert ops[1..][j] == ops[j + 1];
      }
      assert k !in Targets(ops[1..]);
    }
  }

  /** `v` is `prev` with every bit of `m` set and every other bit kept. */
  predicate SetsBits(prev: bv16, v: bv16, m: bv16) {
    v & m == m && v & !m == prev & !m
  }

  /** `v` is `prev` with the bits under `m` replaced by those of `x`; bits of
      `x` outside `m` are ORed into the rest. */
  predicate ReplacesBits(prev: bv16, v: bv16, m: bv16, x: bv16) {
    v & m == x & m && v & !m == (prev | x) & !m
  }

  /** `v` is `prev` with field `f` reading `x` and every other bit kept. */
  predicate HoldsField(prev: bv16, v: bv16, f: Field, x: bv16)
    requires f.pos < 16
  {
    FieldOf(v, f) == x && v & !f.mask == prev & !f.mask
  }

  lemma MergeSetsBits(prev: bv16, v: bv16, m: bv16)
    requires v == Merge(prev, 0, m)
    ensures SetsBits(prev, v, m)
  {
    assert v & m == m;
    assert v & !m == prev & !m;
  }

  lemma MergeReplacesBits(prev: bv16, v: bv16, m: bv16, x: bv16)
    requires v == Merge(prev, m, x)
    ensures ReplacesBits(prev, v, m, x)
  {
    assert v & m == x & m;
    assert v & !m == (prev | x) & !m;
  }

  lemma MergeHoldsField(prev: bv16, v: bv16, f: Field, ts: bv16)
    requires f.pos <= 12 && f.mask == Place(0x0F, f.pos) && ts < 16
    requires v == Merge(prev, f.mask, Place(ts & 0x0F, f.pos))
    ensures HoldsField(prev, v, f, ts)
  {
    NibbleReadsBack(prev, f.mask, f.pos, ts);
    assert (Place(ts & 0x0F, f.pos)) & !f.mask == 0;
    MergeKeepsOthers(prev, f.mask, Place(ts & 0x0F, f.pos));
  }

  lemma NibbleReadsBack(prev: bv16, m: bv16, p: bv16, ts: bv16)
    requires p <= 12 && m == Place(0x0F, p) && ts < 16
    ensures (Merge(prev, m, Place(ts & 0x0F, p)) & m) >> p == ts
  {
    var x := Place(ts & 0x0F, p);
    assert x & m == x;
    assert Merge(prev, m, x) & m == x;
  }

  lemma MergeKeepsOthers(prev: bv16, m: bv16, x: bv16)
    requires x & !m == 0
    ensures Merge(prev, m, x) & !m == prev & !m
  {
  }

  /** adpd410x_reset: set the software-reset bits of SYS_CTL. */
  function Reset(chip: Chip, d: Device): (r: Outcome)
    ensures r.ret == SUCCESS <==> Key(chip.sysCtl) in d.regs
    ensures r.ret != SUCCESS ==> r.ret == FAILURE && r.dev == d
    ensures SameOutside(d, r.dev, {Key(chip.sysCtl)})
    ensures r.ret == SUCCESS ==>
      SetsBits(d.regs[Key(chip.sysCtl)], r.dev.regs[Key(chip.sysCtl)], chip.swReset.mask)
  {
    var k := Key(chip.sysCtl);
    var r := Modify(d, chip.sysCtl, 0, chip.swReset.mask);
    if r.ret == SUCCESS then MergeSetsBits(d.regs[k], r.dev.regs[k], chip.swReset.mask); r else r
  }

  /** adpd410x_set_opmode: clear the OP_MODE field, then OR in `mode`. */
  function SetOpmode(chip: Chip, d: Device, mode: bv16): (r: Outcome)
    ensures r.ret == SUCCESS <==> Key(chip.opmode) in d.regs
    ensures r.ret != SUCCESS ==> r.ret == FAILURE && r.dev == d
    ensures SameOutside(d, r.dev, {Key(chip.opmode)})
    ensures r.ret == SUCCESS ==>
      ReplacesBits(d.regs[Key(chip.opmode)], r.dev.regs[Key(chip.opmode)], chip.opMode.mask, mode)
  {
    var k := Key(chip.opmode);
    var r := Modify(d, chip.opmode, chip.opMode.mask, mode);
    if r.ret == SUCCESS then MergeReplacesBits(d.regs[k], r.dev.regs[k], chip.opMode.mask, mode); r else r
  }

  /** adpd410x_set_last_timeslot: write the low four bits of the slot
      number into the cleared TIMESLOT_EN field. */
  function SetLastTimeslot(chip: Chip, d: Device, ts: bv16): (r: Outcome)
    requires chip.timeslotEn.pos <= 12 && chip.timeslotEn.mask == Place(0x0F, chip.timeslotEn.pos)
    requires ts < 12
    ensures r.ret == SUCCESS <==> Key(chip.opmode) in d.regs
    ensures r.ret != SUCCESS ==> r.ret == FAILURE && r.dev == d
    ensures SameOutside(d, r.dev, {Key(chip.opmode)})
    ensures r.ret == SUCCESS ==>
      HoldsField(d.regs[Key(chip.opmode)], r.dev.regs[Key(chip.opmode)], chip.timeslotEn, ts)
  {
    var k := Key(chip.opmode);
    var r := Modify(d, chip.opmode, chip.timeslotEn.mask, Place(ts & 0x0F, chip.timeslotEn.pos));
    if r.ret == SUCCESS then MergeHoldsField(d.regs[k], r.dev.regs[k], chip.timeslotEn, ts); r else r
  }

  /** The low sixteen bits of a time-slot load: the TS_FREQ value. */
  function Lo16(load: bv32): bv16 {
    (load & 0xFFFF) as bv16
  }

  /** Bits 16 to 22 of a time-slot load, moved down: the TS_FREQH value. */
  function Hi7(load: bv32): bv16 {
    ((load & 0x7F_0000) >> 16) as bv16
  }

  /** The 23-bit load that a TS_FREQH/TS_FREQ register pair programs. */
  function ProgrammedLoad(hi: bv16, lo: bv16): bv32 {
    ((hi as bv32 & 0x7F) << 16) | lo as bv32
  }

  /** Splitting a load over TS_FREQ and TS_FREQH keeps exactly its low 23
      bits. */
  lemma SplitLoadKeeps23Bits(load: bv32)
    ensures ProgrammedLoad(Hi7(load), Lo16(load)) == load & 0x7F_FFFF
  {
  }

  /** Write a load into TS_FREQ, then TS_FREQH; a failed first write stops
      before the second. */
  function WriteLoad(chip: Chip, d: Device, load: bv32): (r: Outcome)
    requires Key(chip.tsFreq) != Key(chip.tsFreqH)
    ensures r.ret == SUCCESS <==> Key(chip.tsFreq) in d.regs && Key(chip.tsFreqH) in d.regs
    ensures r.ret != SUCCESS ==> r.ret == FAILURE
    ensures SameOutside(d, r.dev, {Key(chip.tsFreq), Key(chip.tsFreqH)})
    ensures r.ret == SUCCESS ==>
      ProgrammedLoad(r.dev.regs[Key(chip.tsFreqH)], r.dev.regs[Key(chip.tsFreq)]) == load & 0x7F_FFFF
  {
    var w1 := Write(d, chip.tsFreq, Lo16(load));
    if w1.None? then Outcome(d, FAILURE)
    else
      var w2 := Write(w1.value, chip.tsFreqH, Hi7(load));
      if w2.None? then Outcome(w1.value, FAILURE)
      else SplitLoadKeeps23Bits(load); Outcome(w2.value, SUCCESS)
  }

  /** The internal oscillator rate a SYS_CTL value selects: FREQ1 when the
      LFOSC_SEL bit is set. */
  function InternalLfoRate(chip: Chip, sysCtl: bv16): bv32 {
    if sysCtl & chip.lfoscSel.mask != 0 then chip.lfoFreq1 else chip.lfoFreq2
  }

  /** The rate selection as adpd410x.c:205 writes it: the SYS_CTL value is
      ANDed with the bit position of LFOSC_SEL instead of its mask. */
  function InternalLfoRateAsWritten(chip: Chip, sysCtl: bv16): bv32 {
    if sysCtl & chip.lfoscSel.pos != 0 then chip.lfoFreq1 else chip.lfoFreq2
  }

  /** With LFOSC_SEL at bit 0 its position is 0, so the test as written
      never sees the bit and always picks FREQ2, while the bit is set. */
  lemma LfoSelectionAsWrittenIgnoresBit(chip: Chip)
    requires chip.lfoscSel == Field(0x0001, 0) && chip.lfoFreq1 != chip.lfoFreq2
    ensures InternalLfoRate(chip, 0x0001) == chip.lfoFreq1
    ensures InternalLfoRateAsWritten(chip, 0x0001) == chip.lfoFreq2
  {
  }

  /** The rate the time-slot timer runs from: the internal oscillator the
      SYS_CTL register selects, or the external LFO frequency of the
      device. Needs SYS_CTL to be readable for an internal clock. */
  function LfoRate(chip: Chip, d: Device): bv32
    requires d.clk.InternalLfo() ==> Key(chip.sysCtl) in d.regs
  {
    if d.clk.InternalLfo() then InternalLfoRate(chip, d.regs[Key(chip.sysCtl)]) else d.extLfoFreq
  }

  /** Unsigned 32-bit division of a rate by the sampling frequency. */
  function Divide(rate: bv32, freq: bv32): bv32
    requires freq != 0
  {
    rate / freq
  }

  /** The first half of adpd410x_set_sampling_freq: pick the oscillator
      rate (reading SYS_CTL for an internal clock) and divide it by the
      sampling frequency; None when SYS_CTL cannot be read. */
  function TimeslotLoad(chip: Chip, d: Device, freq: bv32): (r: Option<bv32>)
    requires freq != 0
    ensures r.Some? <==> (d.clk.InternalLfo() ==> Key(chip.sysCtl) in d.regs)
    ensures r.Some? ==> r.value == Divide(LfoRate(chip, d), freq)
  {
    if d.clk.InternalLfo() then
      var t := Read(d, chip.sysCtl);
      if t.None? then None else Some(Divide(InternalLfoRate(chip, t.value), freq))
    else
      Some(Divide(d.extLfoFreq, freq))
  }

  /** adpd410x_set_sampling_freq: the time-slot load is the oscillator rate
      divided by the sampling frequency, programmed into TS_FREQ and
      TS_FREQH. */
  function SetSamplingFreq(chip: Chip, d: Device, freq: bv32): (r: Outcome)
    requires freq != 0 && Key(chip.tsFreq) != Key(chip.tsFreqH)
    ensures r.ret == SUCCESS <==>
      && (d.clk.InternalLfo() ==> Key(chip.sysCtl) in d.regs)
      && Key(chip.tsFreq) in d.regs && Key(chip.tsFreqH) in d.regs
    ensures r.ret != SUCCESS ==> r.ret == FAILURE
    ensures SameOutside(d, r.dev, {Key(chip.tsFreq), Key(chip.tsFreqH)})
    ensures r.ret == SUCCESS ==>
      ProgrammedLoad(r.dev.regs[Key(chip.tsFreqH)], r.dev.regs[Key(chip.tsFreq)])
        == Divide(LfoRate(chip, d), freq) & 0x7F_FFFF
  {
    var load := TimeslotLoad(chip, d, freq);
    if load.None? then Outcome(d, FAILURE) else WriteLoad(chip, d, load.value)
  }

  /** The options of one time slot (struct adpd410x_timeslot_init). */
  datatype SlotInit = SlotInit(
    enableCh2: bool, inputPair: bv16, inputOption: bv16, preconOption: bv16,
    afeTrimOpt: bv16, vrefPulseOpt: bv16, chan2: bv16, chan1: bv16,
    subtract: bv16, reverse: bv16, byteNo: bv16, decFactor: bv16,
    led1: bv16, led2: bv16, led3: bv16, led4: bv16,
    adcCycles: bv16, repeatsNo: bv16)

  /** The options with a zero ADC cycle count or repeat count replaced by 1,
      as the setup rewrites them in the caller's structure. */
  function Normalized(init: SlotInit): (n: SlotInit)
    ensures n.adcCycles != 0 && n.repeatsNo != 0
    ensures init.adcCycles != 0 ==> n.adcCycles == init.adcCycles
    ensures init.repeatsNo != 0 ==> n.repeatsNo == init.repeatsNo
    ensures n.(adcCycles := init.adcCycles, repeatsNo := init.repeatsNo) == init
  {
    init.(adcCycles := if init.adcCycles == 0 then 1 else init.adcCycles,
          repeatsNo := if init.repeatsNo == 0 then 1 else init.repeatsNo)
  }

  /** The copy for `slot` of the i-th per-slot register, in the order the
      setup writes them (TS_CTRL, INPUTS, CATHODE, AFE_TRIM, PATTERN, DATA1,
      DECIMATE, LED_POW12, LED_POW34, COUNTS). */
  function SlotReg(chip: ValidChip, slot: bv16, i: nat): bv16
    requires slot < 16 && i < 10
  {
    SlotAddr(chip.slots.All()[i], slot)
  }

  /** The registers the setup of `slot` may write. */
  function SlotRegs(chip: ValidChip, slot: bv16): set<Reg>
    requires slot < 16
  {
    set i: nat | i < 10 :: Key(SlotReg(chip, slot, i))
  }

  /** INPUTS: the input option moved to the nibble of the input pair. */
  function InputsValue(init: SlotInit): bv16
    requires init.inputPair < 4
  {
    Place(init.inputOption, init.inputPair * 4)
  }

  /** The bits of `x` moved into field `f`, the rest dropped. */
  function InField(x: bv16, f: Field): bv16
    requires f.pos < 16
  {
    Place(x, f.pos) & f.mask
  }

  function AfeTrimValue(chip: ValidChip, init: SlotInit): bv16
  {
    Place(init.afeTrimOpt, chip.afeTrimVrefPos) | Place(init.vrefPulseOpt, chip.vrefPulseValPos)
    | Place(init.chan2, chip.tiaGainCh2Pos) | Place(init.chan1, chip.tiaGainCh1Pos)
  }

  function PatternValue(chip: ValidChip, init: SlotInit): bv16
  {
    Place(init.subtract, chip.subtractPos) | Place(init.reverse, chip.reverseIntegPos)
  }

  function CountsValue(chip: ValidChip, init: SlotInit): bv16
  {
    init.repeatsNo | Place(init.adcCycles, chip.numIntPos)
  }

  /** The ten register accesses of adpd410x_timeslot_setup once the slot
      has passed the enable check, in order. */
  function SlotOps(chip: ValidChip, slot: bv16, init: SlotInit): (ops: seq<RegOp>)
    requires slot < 16 && init.inputPair < 4
    ensures |ops| == 10
  {
    var ch2 := chip.ch2En.mask;
    [ if init.enableCh2 then Update(SlotReg(chip, slot, 0), 0, ch2) else Update(SlotReg(chip, slot, 0), ch2, 0),
      Put(SlotReg(chip, slot, 1), InputsValue(init)),
      Update(SlotReg(chip, slot, 2), chip.precon.mask, InField(init.preconOption, chip.precon)),
      Put(SlotReg(chip, slot, 3), AfeTrimValue(chip, init)),
      Put(SlotReg(chip, slot, 4), PatternValue(chip, init)),
      Put(SlotReg(chip, slot, 5), InField(init.byteNo, chip.signalSize)),
      Put(SlotReg(chip, slot, 6), InField(init.decFactor, chip.decimateFactor)),
      Put(SlotReg(chip, slot, 7), init.led1 | Place(init.led2, chip.ledCurrent2Pos)),
      Put(SlotReg(chip, slot, 8), init.led3 | Place(init.led4, chip.ledCurrent4Pos)),
      Put(SlotReg(chip, slot, 9), CountsValue(chip, init)) ]
  }

  /** Access i of the setup goes to the i-th per-slot register. */
  lemma SlotOpsAddresses(chip: ValidChip, slot: bv16, init: SlotInit)
    requires slot < 16 && init.inputPair < 4
    ensures forall i | 0 <= i < 10 :: SlotOps(chip, slot, init)[i].addr == SlotReg(chip, slot, i)
  {
  }

  /** Different per-slot blocks give different registers for the same slot. */
  lemma SlotRegsApart(chip: ValidChip, slot: bv16, i: nat, j: nat)
    requires slot < 16 && i < j < 10
    ensures Key(SlotReg(chip, slot, i)) != Key(SlotReg(chip, slot, j))
  {
    var b := chip.slots.All();
    assert b[i] != b[j];
  }

  /** The setup reaches exactly the per-slot registers of the slot, each
      once. */
  lemma SlotOpsTargets(chip: ValidChip, slot: bv16, init: SlotInit)
    requires slot < 16 && init.inputPair < 4
    ensures Targets(SlotOps(chip, slot, init)) == SlotRegs(chip, slot)
    ensures DistinctTargets(SlotOps(chip, slot, init))
  {
    var ops := SlotOps(chip, slot, init);
    SlotOpsAddresses(chip, slot, init);
    forall i, j | 0 <= i < j < |ops| ensures Key(ops[i].addr) != Key(ops[j].addr) {
      SlotRegsApart(chip, slot, i, j);
    }
  }

  /** The result of a time-slot setup: the device, the status, and the
      caller's option structure as the setup leaves it. */
  datatype SetupOutcome = SetupOutcome(dev: Device, ret: int, init: SlotInit)

  /** The slot is within the enabled time slots: OPMODE can be read and its
      TIMESLOT_EN field is at least the slot number. */
  predicate SlotEnabled(chip: ValidChip, d: Device, slot: bv16)
  {
    Key(chip.opmode) in d.regs && FieldOf(d.regs[Key(chip.opmode)], chip.timeslotEn) >= slot
  }

  /** Changes confined to two sets of registers, one after the other, are
      confined to their union. */
  lemma SameOutsideChain(d1: Device, d2: Device, d3: Device, s1: set<Reg>, s2: set<Reg>)
    requires SameOutside(d1, d2, s1) && SameOutside(d2, d3, s2)
    ensures SameOutside(d1, d3, s1 + s2)
  {
  }

  /** The ten accesses reach the slot's registers and each leaves the value
      it computes from the register's previous value. */
  predicate SlotWritten(chip: ValidChip, d: Device, d2: Device, slot: bv16, init: SlotInit)
    requires slot < 16 && init.inputPair < 4
  {
    forall i | 0 <= i < 10 ::
      && Key(SlotReg(chip, slot, i)) in d.regs && Key(SlotReg(chip, slot, i)) in d2.regs
      && d2.regs[Key(SlotReg(chip, slot, i))]
           == SlotOps(chip, slot, init)[i].NewValue(d.regs[Key(SlotReg(chip, slot, i))])
  }

  /** The part of adpd410x_timeslot_setup after the enable check: the ten
      accesses in order, stopping at the first failure. The caller's counts
      are normalized once the first nine accesses have succeeded, just
      before COUNTS is written; the first nine accesses do not look at the
      counts, so all ten are taken from the normalized options. */
  method ConfigureSlot(chip: ValidChip, d: Device, slot: bv16, init: SlotInit) returns (r: SetupOutcome)
    requires slot < 16 && init.inputPair < 4
    ensures r.ret == SUCCESS || r.ret == FAILURE
    ensures r.ret == SUCCESS <==> SlotRegs(chip, slot) <= d.regs.Keys
    ensures SameOutside(d, r.dev, SlotRegs(chip, slot))
    ensures r.init == init || r.init == Normalized(init)
    ensures r.ret == SUCCESS ==> r.init == Normalized(init)
    ensures r.ret == SUCCESS ==> SlotWritten(chip, d, r.dev, slot, Normalized(init))
  {
    var ops := SlotOps(chip, slot, Normalized(init));
    SlotOpsTargets(chip, slot, Normalized(init));
    TargetsOfLast(ops);
    var run := RunOps(d, ops);
    if run.ret == SUCCESS {
      SlotOpsAddresses(chip, slot, Normalized(init));
      RunOpsWrites(d, ops);
    }
    r := SetupOutcome(run.dev, run.ret, if Targets(ops[..9]) <= d.regs.Keys then Normalized(init) else init);
  }

  /** adpd410x_timeslot_setup: check the slot against TIMESLOT_EN, failing
      before any write when it is beyond the enabled slots, then configure
      the slot's registers. */
  method TimeslotSetup(chip: ValidChip, d: Device, slot: bv16, init: SlotInit) returns (r: SetupOutcome)
    requires slot < 12 && init.inputPair < 4
    ensures !SlotEnabled(chip, d, slot) ==> r == SetupOutcome(d, FAILURE, init)
    ensures r.ret == SUCCESS ==> SlotEnabled(chip, d, slot)
    ensures SlotEnabled(chip, d, slot) ==> (r.ret == SUCCESS <==> SlotRegs(chip, slot) <= d.regs.Keys)
    ensures SameOutside(d, r.dev, SlotRegs(chip, slot))
    ensures r.init == init || r.init == Normalized(init)
    ensures r.ret == SUCCESS ==> r.init == Normalized(init)
    ensures r.ret == SUCCESS ==> SlotWritten(chip, d, r.dev, slot, Normalized(init))
    ensures r.ret != SUCCESS ==> r.ret == FAILURE
  {
    var m := Read(d, chip.opmode);
    if m.None? || FieldOf(m.value, chip.timeslotEn) < slot {
      return SetupOutcome(d, FAILURE, init);
    }
    r := ConfigureSlot(chip, d, slot, init);
  }

  /** adpd410x_get_fifo_bytecount: the byte-count bits of FIFO_STATUS, the
      other status bits cleared; None when the register cannot be read. */
  function GetFifoByteCount(chip: Chip, d: Device): (r: Option<bv16>)
    ensures r.Some? <==> Key(chip.fifoStatus) in d.regs
    ensures r.Some? ==> r.value & chip.fifoByteCount == d.regs[Key(chip.fifoStatus)] & chip.fifoByteCount
    ensures r.Some? ==> r.value & !chip.fifoByteCount == 0
  {
    var v := Read(d, chip.fifoStatus);
    if v.None? then None else Some(v.value & chip.fifoByteCount)
  }
}

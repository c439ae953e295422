/** The data path of the ADPD410x driver (adpd410x_get_data and its helper
    adpd410x_get_data_packet): how many bytes a packet holds, how the 16-bit
    FIFO words become bytes, how the bytes of one sample are laid out, and
    the loop that turns a packet into samples, one per active channel. */
module AdpdData {
  import opened Common
  import opened AdpdRegs

  /** What the driver knows of one active time slot: the sample size in
      bytes (DATA1's SIGNAL_SIZE bits, truncated to a byte) and whether
      its second channel is on. The driver keeps the second fact as bit
      `i` of the 16-bit `dual_chan` mask. */
  datatype SlotFormat = SlotFormat(size: nat, dual: bool)

  /** One entry of the caller's sample array after the unpacking: a value
      written, or left as it was (a size the switch has no case for). */
  datatype Entry = Written(value: bv32) | Untouched

  /** The sample sizes of the channels in the order the packet carries
      them: a dual slot contributes its size twice. */
  function Channels(slots: seq<SlotFormat>): (cs: seq<nat>)
  {
    if slots == [] then []
    else (if slots[0].dual then [slots[0].size, slots[0].size] else [slots[0].size]) + Channels(slots[1..])
  }

  /** The sum of a list of sizes. */
  function Sum(cs: seq<nat>): nat {
    if cs == [] then 0 else cs[0] + Sum(cs[1..])
  }

  /** The bytes a sample of the given size takes out of the packet: sizes
      the switch has no case for take none. */
  function Consumed(size: nat): nat {
    if 1 <= size <= 4 then size else 0
  }

  /** The bytes the unpacking takes for a list of channel sizes. */
  function ConsumedBytes(cs: seq<nat>): (n: nat)
  {
    if cs == [] then 0 else Consumed(cs[0]) + ConsumedBytes(cs[1..])
  }

  /** The unpacking never takes more bytes than the sizes add up to. */
  lemma {:induction false} ConsumedWithinSum(cs: seq<nat>)
    ensures ConsumedBytes(cs) <= Sum(cs)
    decreases |cs|
  {
    if cs != [] {
      ConsumedWithinSum(cs[1..]);
    }
  }

  lemma {:induction false} ChannelsAppend(a: seq<SlotFormat>, b: seq<SlotFormat>)
    ensures Channels(a + b) == Channels(a) + Channels(b)
    decreases |a|
  {
    if a != [] {
      assert (a + b)[1..] == a[1..] + b;
      ChannelsAppend(a[1..], b);
    } else {
      assert a + b == b;
    }
  }

  lemma {:induction false} SumAppend(a: seq<nat>, b: seq<nat>)
    ensures Sum(a + b) == Sum(a) + Sum(b)
    decreases |a|
  {
    if a != [] {
      assert (a + b)[1..] == a[1..] + b;
      SumAppend(a[1..], b);
    } else {
      assert a + b == b;
    }
  }

  /** The channels of the slots from `i` on are those of slot `i` followed
      by those of the later slots. */
  lemma ChannelsFrom(slots: seq<SlotFormat>, i: nat)
    requires i < |slots|
    ensures Channels(slots[i..]) == Channels([slots[i]]) + Channels(slots[i + 1..])
  {
    assert slots[i..] == [slots[i]] + slots[i + 1..];
    ChannelsAppend([slots[i]], slots[i + 1..]);
  }

  /** The byte count of a packet: the total of the channel sizes, plus one
      pad byte when that is odd, since the FIFO is read in 16-bit words. */
  function PacketBytes(slots: seq<SlotFormat>): nat {
    var total := Sum(Channels(slots));
    if total % 2 != 0 then total + 1 else total
  }

  /** The count loop of adpd410x_get_data_packet: add each slot's size, a
      second time for a dual slot, then round up to even. The result is the
      smallest even number at least the packet's total. */
  method ExpectedByteCount(slots: seq<SlotFormat>) returns (n: nat)
    ensures n % 2 == 0
    ensures Sum(Channels(slots)) <= n <= Sum(Channels(slots)) + 1
    ensures n == PacketBytes(slots)
  {
    n := 0;
    var i := 0;
    while i < |slots|
      invariant 0 <= i <= |slots|
      invariant n == Sum(Channels(slots[..i]))
    {
      var s := slots[i];
      assert slots[..i + 1] == slots[..i] + [s];
      ChannelsAppend(slots[..i], [s]);
      assert Channels([s]) == (if s.dual then [s.size, s.size] else [s.size]);
      SumAppend(Channels(slots[..i]), Channels([s]));
      n := n + s.size;
      if s.dual {
        n := n + s.size;
      }
      i := i + 1;
    }
    assert slots[..i] == slots;
    if n % 2 != 0 {
      n := n + 1;
    }
  }

  /** The FIFO words as bytes, high byte first. */
  function SplitWords(words: seq<bv16>): (bytes: seq<byte>)
    ensures |bytes| == 2 * |words|
  {
    if words == [] then []
    else [(words[0] >> 8) as byte, (words[0] & 0xFF) as byte] + SplitWords(words[1..])
  }

  /** Word `i` lands at bytes `2i` (its high byte) and `2i + 1` (its low
      byte), as the driver's split loop places them. */
  lemma {:induction false} SplitWordsPlaces(words: seq<bv16>, i: nat)
    requires i < |words|
    ensures SplitWords(words)[2 * i] == (words[i] >> 8) as byte
    ensures SplitWords(words)[2 * i + 1] == (words[i] & 0xFF) as byte
    decreases i
  {
    if i > 0 {
      SplitWordsPlaces(words[1..], i - 1);
    }
  }

  /** Pairs of bytes as words, the first byte of each pair the high one. */
  function JoinWords(bytes: seq<byte>): (words: seq<bv16>)
    requires |bytes| % 2 == 0
    ensures |words| == |bytes| / 2
  {
    if bytes == [] then []
    else [((bytes[0] as bv16) << 8) | bytes[1] as bv16] + JoinWords(bytes[2..])
  }

  lemma WordBytesRoundTrip(w: bv16)
    ensures ((((w >> 8) as byte) as bv16) << 8) | ((w & 0xFF) as byte) as bv16 == w
  {
  }

  lemma ByteWordRoundTrip(hi: byte, lo: byte)
    ensures ((((hi as bv16) << 8) | lo as bv16) >> 8) as byte == hi
    ensures ((((hi as bv16) << 8) | lo as bv16) & 0xFF) as byte == lo
  {
  }

  /** Joining the split bytes gives the words back. */
  lemma {:induction false} SplitThenJoin(words: seq<bv16>)
    ensures JoinWords(SplitWords(words)) == words
    decreases |words|
  {
    if words != [] {
      var w := words[0];
      var rest := SplitWords(words[1..]);
      JoinCons((w >> 8) as byte, (w & 0xFF) as byte, rest);
      SplitThenJoin(words[1..]);
      WordBytesRoundTrip(w);
    }
  }

  /** Joining two bytes in front of an even run puts their word in front. */
  lemma JoinCons(hi: byte, lo: byte, rest: seq<byte>)
    requires |rest| % 2 == 0
    ensures JoinWords([hi, lo] + rest) == [((hi as bv16) << 8) | lo as bv16] + JoinWords(rest)
  {
    assert ([hi, lo] + rest)[2..] == rest;
  }

  /** Splitting the joined words gives the bytes back. */
  lemma {:induction false} JoinThenSplit(bytes: seq<byte>)
    requires |bytes| % 2 == 0
    ensures SplitWords(JoinWords(bytes)) == bytes
    decreases |bytes|
  {
    if bytes != [] {
      ByteWordRoundTrip(bytes[0], bytes[1]);
      JoinThenSplit(bytes[2..]);
      assert bytes == [bytes[0], bytes[1]] + bytes[2..];
    }
  }

  /** A sample from its bytes as the switch of adpd410x_get_data_packet
      assembles it: one byte as is; two bytes big-endian; a third byte
      supplies bits 23..16; with four, bytes three and four supply bits
      31..24 and 23..16. */
  function Assemble(b: seq<byte>): bv32
    requires 1 <= |b| <= 4
  {
    match |b|
    case 1 => b[0] as bv32
    case 2 => ((b[0] as bv32) << 8) | b[1] as bv32
    case 3 => ((b[0] as bv32) << 8) | b[1] as bv32 | ((b[2] as bv32) << 16)
    case 4 => ((b[0] as bv32) << 8) | b[1] as bv32 | ((b[2] as bv32) << 24) | ((b[3] as bv32) << 16)
  }

  /** Byte `k` of a value, counting from the least significant. */
  function ByteOf(v: bv32, k: nat): byte
    requires k < 4
  {
    match k
    case 0 => (v & 0xFF) as byte
    case 1 => ((v >> 8) & 0xFF) as byte
    case 2 => ((v >> 16) & 0xFF) as byte
    case 3 => (v >> 24) as byte
  }

  /** The order in which the chip puts a sample of `size` bytes into the
      FIFO: the low 16 bits first, high byte first, then the bits above
      them, again high byte first. */
  function Layout(size: nat, v: bv32): (b: seq<byte>)
    requires 1 <= size <= 4
    ensures |b| == size
  {
    match size
    case 1 => [ByteOf(v, 0)]
    case 2 => [ByteOf(v, 1), ByteOf(v, 0)]
    case 3 => [ByteOf(v, 1), ByteOf(v, 0), ByteOf(v, 2)]
    case 4 => [ByteOf(v, 1), ByteOf(v, 0), ByteOf(v, 3), ByteOf(v, 2)]
  }

  /** A value fits a sample of `size` bytes. */
  predicate Fits(size: nat, v: bv32)
    requires 1 <= size <= 4
  {
    match size
    case 1 => v <= 0xFF
    case 2 => v <= 0xFFFF
    case 3 => v <= 0xFF_FFFF
    case 4 => true
  }

  lemma AssembleLayout1(v: bv32)
    requires v <= 0xFF
    ensures Assemble(Layout(1, v)) == v
  {
    assert Layout(1, v) == [ByteOf(v, 0)];
  }

  lemma AssembleLayout2(v: bv32)
    requires v <= 0xFFFF
    ensures Assemble(Layout(2, v)) == v
  {
    assert Layout(2, v) == [ByteOf(v, 1), ByteOf(v, 0)];
  }

  lemma AssembleLayout3(v: bv32)
    requires v <= 0xFF_FFFF
    ensures Assemble(Layout(3, v)) == v
  {
    assert Layout(3, v) == [ByteOf(v, 1), ByteOf(v, 0), ByteOf(v, 2)];
  }

  lemma AssembleLayout4(v: bv32)
    ensures Assemble(Layout(4, v)) == v
  {
    assert Layout(4, v) == [ByteOf(v, 1), ByteOf(v, 0), ByteOf(v, 3), ByteOf(v, 2)];
  }

  /** Assembling the bytes of a laid-out value gives the value back. */
  lemma AssembleLayout(size: nat, v: bv32)
    requires 1 <= size <= 4 && Fits(size, v)
    ensures Assemble(Layout(size, v)) == v
  {
    match size
    case 1 => AssembleLayout1(v);
    case 2 => AssembleLayout2(v);
    case 3 => AssembleLayout3(v);
    case 4 => AssembleLayout4(v);
  }

  lemma Fields2(b0: byte, b1: byte)
    ensures var v := ((b0 as bv32) << 8) | b1 as bv32;
      v <= 0xFFFF && ByteOf(v, 1) == b0 && ByteOf(v, 0) == b1
  {
  }

  lemma Fields3(b0: byte, b1: byte, b2: byte)
    ensures var v := ((b0 as bv32) << 8) | b1 as bv32 | ((b2 as bv32) << 16);
      v <= 0xFF_FFFF && ByteOf(v, 1) == b0 && ByteOf(v, 0) == b1 && ByteOf(v, 2) == b2
  {
  }

  lemma Fields4(b0: byte, b1: byte, b2: byte, b3: byte)
    ensures var v := ((b0 as bv32) << 8) | b1 as bv32 | ((b2 as bv32) << 24) | ((b3 as bv32) << 16);
      ByteOf(v, 1) == b0 && ByteOf(v, 0) == b1 && ByteOf(v, 3) == b2 && ByteOf(v, 2) == b3
  {
  }

  lemma LayoutAssemble1(b: seq<byte>)
    requires |b| == 1
    ensures Fits(1, Assemble(b)) && Layout(1, Assemble(b)) == b
  {
    assert Layout(1, Assemble(b)) == [ByteOf(Assemble(b), 0)];
  }

  lemma LayoutAssemble2(b: seq<byte>)
    requires |b| == 2
    ensures Fits(2, Assemble(b)) && Layout(2, Assemble(b)) == b
  {
    var v := Assemble(b);
    Fields2(b[0], b[1]);
    assert Layout(2, v) == [ByteOf(v, 1), ByteOf(v, 0)];
  }

  lemma LayoutAssemble3(b: seq<byte>)
    requires |b| == 3
    ensures Fits(3, Assemble(b)) && Layout(3, Assemble(b)) == b
  {
    var v := Assemble(b);
    Fields3(b[0], b[1], b[2]);
    assert Layout(3, v) == [ByteOf(v, 1), ByteOf(v, 0), ByteOf(v, 2)];
  }

  lemma LayoutAssemble4(b: seq<byte>)
    requires |b| == 4
    ensures Fits(4, Assemble(b)) && Layout(4, Assemble(b)) == b
  {
    var v := Assemble(b);
    Fields4(b[0], b[1], b[2], b[3]);
    assert Layout(4, v) == [ByteOf(v, 1), ByteOf(v, 0), ByteOf(v, 3), ByteOf(v, 2)];
  }

  /** Laying out an assembled sample gives its bytes back. */
  lemma LayoutAssemble(b: seq<byte>)
    requires 1 <= |b| <= 4
    ensures Fits(|b|, Assemble(b))
    ensures Layout(|b|, Assemble(b)) == b
  {
    match |b|
    case 1 => LayoutAssemble1(b);
    case 2 => LayoutAssemble2(b);
    case 3 => LayoutAssemble3(b);
    case 4 => LayoutAssemble4(b);
  }

  /** What the switch produces for one channel of `size` bytes whose bytes
      start the given buffer: no entry for size 0 (the slot is skipped), an
      assembled sample for sizes 1 to 4, an entry left as it was otherwise. */
  function SampleOf(size: nat, bytes: seq<byte>): (e: seq<Entry>)
    requires Consumed(size) <= |bytes|
    ensures |e| == if size == 0 then 0 else 1
  {
    if size == 0 then []
    else if size <= 4 then [Written(Assemble(bytes[..size]))]
    else [Untouched]
  }

  /** The samples of a packet: the channels in order, each taking its bytes
      from where the previous one stopped. */
  function Decode(cs: seq<nat>, bytes: seq<byte>): seq<Entry>
    requires ConsumedBytes(cs) <= |bytes|
    decreases |cs|
  {
    if cs == [] then []
    else SampleOf(cs[0], bytes) + Decode(cs[1..], bytes[Consumed(cs[0])..])
  }

  /** Every channel size is one the switch handles. */
  predicate Handled(cs: seq<nat>) {
    forall i | 0 <= i < |cs| :: 1 <= cs[i] <= 4
  }

  /** The bytes the chip puts into the FIFO for the given samples, each laid
      out for its channel's size. */
  function Encode(cs: seq<nat>, vs: seq<bv32>): (b: seq<byte>)
    requires Handled(cs) && |vs| == |cs|
    ensures |b| == ConsumedBytes(cs)
  {
    if cs == [] then [] else Layout(cs[0], vs[0]) + Encode(cs[1..], vs[1..])
  }

  /** Every value written. */
  function AllWritten(vs: seq<bv32>): (e: seq<Entry>)
    ensures |e| == |vs|
  {
    if vs == [] then [] else [Written(vs[0])] + AllWritten(vs[1..])
  }

  /** Decoding what the chip encoded, whatever padding follows, gives the
      samples back, each written in order. */
  lemma {:induction false} DecodeEncode(cs: seq<nat>, vs: seq<bv32>, pad: seq<byte>)
    requires Handled(cs) && |vs| == |cs|
    requires forall i | 0 <= i < |cs| :: Fits(cs[i], vs[i])
    ensures ConsumedBytes(cs) <= |Encode(cs, vs) + pad|
    ensures Decode(cs, Encode(cs, vs) + pad) == AllWritten(vs)
    decreases |cs|
  {
    if cs != [] {
      var k := cs[0];
      var lay := Layout(k, vs[0]);
      var rest := Encode(cs[1..], vs[1..]);
      var b := Encode(cs, vs) + pad;
      assert b == lay + (rest + pad);
      assert b[..k] == lay;
      assert b[k..] == rest + pad;
      AssembleLayout(k, vs[0]);
      assert Handled(cs[1..]) by {
        forall i | 0 <= i < |cs[1..]| ensures 1 <= cs[1..][i] <= 4 {
          assert cs[1..][i] == cs[i + 1];
        }
      }
      forall i | 0 <= i < |cs[1..]| ensures Fits(cs[1..][i], vs[1..][i]) {
        assert cs[1..][i] == cs[i + 1] && vs[1..][i] == vs[i + 1];
      }
      DecodeEncode(cs[1..], vs[1..], pad);
    }
  }

  /** With every size one the switch handles, the unpacking takes all
      the bytes the sizes add up to. */
  lemma {:induction false} HandledConsumesAll(cs: seq<nat>)
    requires Handled(cs)
    ensures ConsumedBytes(cs) == Sum(cs)
    decreases |cs|
  {
    if cs != [] {
      assert Handled(cs[1..]) by {
        forall i | 0 <= i < |cs[1..]| ensures 1 <= cs[1..][i] <= 4 {
          assert cs[1..][i] == cs[i + 1];
        }
      }
      HandledConsumesAll(cs[1..]);
    }
  }

  /** The samples of a packet read as FIFO words. */
  function PacketSamples(slots: seq<SlotFormat>, words: seq<bv16>): (e: seq<Entry>)
    requires Sum(Channels(slots)) <= 2 * |words|
  {
    ConsumedWithinSum(Channels(slots));
    Decode(Channels(slots), SplitWords(words))
  }

  /** The chip's side of a packet: every sample laid out for its channel,
      then the pad byte that makes the count even, paired into FIFO words.
      Reading those words back gives every sample, written in order. */
  lemma PacketRoundTrip(slots: seq<SlotFormat>, vs: seq<bv32>, pad: seq<byte>)
    requires Handled(Channels(slots)) && |vs| == |Channels(slots)|
    requires forall i | 0 <= i < |vs| :: Fits(Channels(slots)[i], vs[i])
    requires |pad| == PacketBytes(slots) - Sum(Channels(slots))
    ensures |Encode(Channels(slots), vs) + pad| == PacketBytes(slots)
    ensures PacketSamples(slots, JoinWords(Encode(Channels(slots), vs) + pad)) == AllWritten(vs)
  {
    var cs := Channels(slots);
    var b := Encode(cs, vs) + pad;
    HandledConsumesAll(cs);
    JoinThenSplit(b);
    DecodeEncode(cs, vs, pad);
  }

  /** Where the unpacking loop stands: the slot index `i`, whether the
      first channel of a dual slot is done (`got_one`), the next byte, and
      the entries produced so far (`sample_index` is their count). */
  datatype Cursor = Cursor(slot: nat, gotOne: bool, pos: nat, out: seq<Entry>)

  /** The cursor before the first pass. */
  const Start: Cursor := Cursor(0, false, 0, [])

  /** One pass of the do-while loop with `case 0` skipping the slot: emit
      the channel's sample, take its bytes, then move to the second channel
      of a dual slot or on to the next slot. */
  function Step(slots: seq<SlotFormat>, bytes: seq<byte>, c: Cursor): Cursor
    requires c.slot < |slots| && c.pos + Consumed(slots[c.slot].size) <= |bytes|
  {
    var s := slots[c.slot];
    var next := if s.dual && !c.gotOne then c.(gotOne := true) else c.(slot := c.slot + 1, gotOne := false);
    next.(pos := c.pos + Consumed(s.size), out := c.out + SampleOf(s.size, bytes[c.pos..]))
  }

  /** The channels the loop has still to visit from a cursor. */
  function Pending(slots: seq<SlotFormat>, c: Cursor): seq<nat>
    requires c.slot <= |slots|
  {
    if c.slot == |slots| then []
    else if c.gotOne then [slots[c.slot].size] + Channels(slots[c.slot + 1..])
    else Channels(slots[c.slot..])
  }

  /** The first pending channel is the current slot's. */
  lemma PendingHead(slots: seq<SlotFormat>, c: Cursor)
    requires c.slot < |slots|
    ensures Pending(slots, c) != []
    ensures Pending(slots, c)[0] == slots[c.slot].size
  {
    assert slots[c.slot..] == [slots[c.slot]] + slots[c.slot + 1..];
  }

  /** A pass consumes exactly the first pending channel. */
  lemma StepPending(slots: seq<SlotFormat>, bytes: seq<byte>, c: Cursor)
    requires c.slot < |slots| && c.pos + Consumed(slots[c.slot].size) <= |bytes|
    requires c.gotOne ==> slots[c.slot].dual
    ensures Pending(slots, Step(slots, bytes, c)) == Pending(slots, c)[1..]
  {
    var s := slots[c.slot];
    var later := Channels(slots[c.slot + 1..]);
    ChannelsFrom(slots, c.slot);
    if c.slot + 1 == |slots| {
      assert slots[c.slot + 1..] == [];
    }
    if s.dual && !c.gotOne {
      assert Pending(slots, c) == [s.size] + ([s.size] + later);
    } else {
      assert Pending(slots, c) == [s.size] + later;
    }
  }

  /** A cursor of the loop over `slots`: in range, half way through a slot
      only when the slot is dual, with the pending channels' bytes still in
      the buffer. */
  predicate Reachable(slots: seq<SlotFormat>, bytes: seq<byte>, c: Cursor) {
    && c.slot <= |slots|
    && (c.gotOne ==> c.slot < |slots| && slots[c.slot].dual)
    && c.pos + ConsumedBytes(Pending(slots, c)) <= |bytes|
  }

  /** The entries produced so far followed by those of the pending
      channels are the packet's samples. */
  predicate OnTrack(slots: seq<SlotFormat>, bytes: seq<byte>, c: Cursor)
    requires Reachable(slots, bytes, c) && ConsumedBytes(Channels(slots)) <= |bytes|
  {
    c.out + Decode(Pending(slots, c), bytes[c.pos..]) == Decode(Channels(slots), bytes)
  }

  /** A pass keeps the cursor reachable and leaves one channel fewer to
      visit. */
  lemma StepKeepsReachable(slots: seq<SlotFormat>, bytes: seq<byte>, c: Cursor)
    requires Reachable(slots, bytes, c) && c.slot < |slots|
    ensures c.pos + Consumed(slots[c.slot].size) <= |bytes|
    ensures Reachable(slots, bytes, Step(slots, bytes, c))
    ensures |Pending(slots, Step(slots, bytes, c))| < |Pending(slots, c)|
  {
    PendingHead(slots, c);
    StepPending(slots, bytes, c);
  }

  /** A pass keeps the cursor on track. */
  lemma StepKeepsTrack(slots: seq<SlotFormat>, bytes: seq<byte>, c: Cursor)
    requires ConsumedBytes(Channels(slots)) <= |bytes|
    requires Reachable(slots, bytes, c) && c.slot < |slots| && OnTrack(slots, bytes, c)
    ensures Reachable(slots, bytes, Step(slots, bytes, c))
    ensures OnTrack(slots, bytes, Step(slots, bytes, c))
  {
    var p := Pending(slots, c);
    PendingHead(slots, c);
    assert c.pos + Consumed(p[0]) <= |bytes|;
    var c2 := Step(slots, bytes, c);
    assert c2.pos == c.pos + Consumed(p[0]);
    StepKeepsReachable(slots, bytes, c);
    assert Pending(slots, c2) == p[1..] by {
      StepPending(slots, bytes, c);
    }
    DecodeStep(p, bytes, c.pos, c2.pos, Pending(slots, c2));
    Recombine(c.out, SampleOf(p[0], bytes[c.pos..]), Decode(Pending(slots, c2), bytes[c2.pos..]),
      Decode(Channels(slots), bytes));
  }

  /** Decoding from a position takes the first channel's sample there and
      decodes the rest from just after its bytes. */
  lemma DecodeStep(p: seq<nat>, bytes: seq<byte>, pos: nat, pos2: nat, p2: seq<nat>)
    requires p != [] && pos + ConsumedBytes(p) <= |bytes|
    requires p2 == p[1..] && pos2 == pos + Consumed(p[0])
    ensures pos2 + ConsumedBytes(p2) <= |bytes|
    ensures Decode(p, bytes[pos..]) == SampleOf(p[0], bytes[pos..]) + Decode(p2, bytes[pos2..])
  {
    assert bytes[pos..][Consumed(p[0])..] == bytes[pos2..];
  }

  /** Moving the first part of what remains into what is done keeps the
      whole. */
  lemma Recombine(done: seq<Entry>, first: seq<Entry>, rest: seq<Entry>, whole: seq<Entry>)
    requires done + (first + rest) == whole
    ensures (done + first) + rest == whole
  {
  }

  /** The unpacking loop of adpd410x_get_data_packet, with `case 0`
      skipping the slot. The do-while's first pass needs no test since
      there is at least one slot. It produces the packet's samples in
      channel order. */
  method UnpackPacket(slots: seq<SlotFormat>, bytes: seq<byte>) returns (out: seq<Entry>)
    requires |slots| >= 1
    requires ConsumedBytes(Channels(slots)) <= |bytes|
    ensures out == Decode(Channels(slots), bytes)
  {
    var c := Start;
    assert slots[0..] == slots;
    assert bytes[0..] == bytes;
    while c.slot < |slots|
      invariant Reachable(slots, bytes, c) && OnTrack(slots, bytes, c)
      decreases |Pending(slots, c)|
    {
      StepKeepsReachable(slots, bytes, c);
      StepKeepsTrack(slots, bytes, c);
      c := Step(slots, bytes, c);
    }
    out := c.out;
  }

  /** One pass of the loop as adpd410x.c:417-418 writes it: `case 0`
      continues the do-while without touching the slot index, so the pass
      changes nothing. */
  function StepAsWritten(slots: seq<SlotFormat>, bytes: seq<byte>, c: Cursor): Cursor
    requires c.slot < |slots| && c.pos + Consumed(slots[c.slot].size) <= |bytes|
  {
    if slots[c.slot].size == 0 then c else Step(slots, bytes, c)
  }

  /** `k` passes of the loop as written, stopping once the slots are done. */
  function RunAsWritten(slots: seq<SlotFormat>, bytes: seq<byte>, c: Cursor, k: nat): Cursor
    requires ConsumedBytes(Channels(slots)) <= |bytes| && Reachable(slots, bytes, c)
    decreases k
  {
    if k == 0 || c.slot == |slots| then c
    else
      StepKeepsReachable(slots, bytes, c);
      RunAsWritten(slots, bytes, StepAsWritten(slots, bytes, c), k - 1)
  }

  /** On every slot with data the pass as written is the corrected pass. */
  lemma StepAsWrittenAgrees(slots: seq<SlotFormat>, bytes: seq<byte>, c: Cursor)
    requires c.slot < |slots| && c.pos + Consumed(slots[c.slot].size) <= |bytes|
    requires slots[c.slot].size != 0
    ensures StepAsWritten(slots, bytes, c) == Step(slots, bytes, c)
  {
  }

  /** On a slot with no data the loop as written stays where it is,
      however many passes it makes. */
  lemma {:induction false} AsWrittenStuck(slots: seq<SlotFormat>, bytes: seq<byte>, c: Cursor, k: nat)
    requires ConsumedBytes(Channels(slots)) <= |bytes| && Reachable(slots, bytes, c)
    requires c.slot < |slots| && slots[c.slot].size == 0
    ensures RunAsWritten(slots, bytes, c, k) == c
    decreases k
  {
    if k > 0 {
      StepKeepsReachable(slots, bytes, c);
      AsWrittenStuck(slots, bytes, c, k - 1);
    }
  }

  /** A packet whose first slot has no data: however many passes the loop
      as written makes, it never leaves that slot, so the do-while never
      ends; the corrected loop skips the slot and finishes. */
  lemma EmptySlotHangsAsWritten(bytes: seq<byte>, k: nat)
    ensures RunAsWritten([SlotFormat(0, false)], bytes, Start, k).slot == 0
    ensures Step([SlotFormat(0, false)], bytes, Start).slot == 1
  {
    var slots := [SlotFormat(0, false)];
    assert slots[0..] == slots;
    assert Channels(slots) == [0] + Channels([]);
    assert Pending(slots, Start) == [0];
    AsWrittenStuck(slots, bytes, Start, k);
  }
}

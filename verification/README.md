# IIO layer and ADPD410x driver: a Dafny model

This project models two pieces of a no-OS embedded firmware tree and proves
properties of them.

**The IIO layer** (`libraries/iio/iio.c`) sits between the tinyiiod protocol
engine and the device drivers. It covers:

- resolving device, channel and attribute names (the channel number is the
  last run of digits in the channel name);
- routing an attribute read or write to one accessor, or to all of an
  element's attributes at once through the bulk codec;
- the bulk codec itself: for each attribute, a 4-byte big-endian length
  header, then the value padded to a 4-byte boundary;
- the channel mask of an opened device;
- the interface registry;
- the TCP connection multiplexer, which queues up to four client sockets in
  a circular buffer and serves them in turn.

**The ADPD410x photometric front-end driver**
(`drivers/photo-electronic/adpd410x/adpd410x.c`) covers:

- the SPI and I2C register frames;
- read-modify-write of the control registers;
- time-slot set-up;
- the sampling-frequency divider;
- reading and unpacking a FIFO data packet into per-channel samples.

The modules follow the source's structure:

| module | file | models |
|---|---|---|
| `Common` | common.dfy | byte types, `Option`, status and errno codes |
| `IioTypes` | iio_types.dfy | attributes, channels, device descriptors, interfaces, the registry |
| `IioNames` | iio_names.dfy | `iio_get_channel_number`, `iio_get_channel_id`, `iio_get_attribute_id`, `iio_get_interface`, `iio_supported_dev` |
| `IioRegistry` | iio_registry.dfy | `iio_register`, `iio_unregister`, `iio_open_dev`, `iio_close_dev`, `iio_get_mask` |
| `IioCodec` | iio_codec.dfy | `iio_read_all_attr`, `iio_write_all_attr` |
| `IioDispatch` | iio_dispatch.dfy | `iio_rd_wr_attribute`, `iio_rd_wr_channel_attribute`, the four attribute entry points |
| `IioMux` | iio_mux.dfy | `_push_sock`, `_pop_sock`, `_nb_active_sockets`, `_get_next_socket`, `network_read`, `iio_step` |
| `AdpdFrames` | adpd_frames.dfy | the address and value bytes of register reads and writes |
| `AdpdRegs` | adpd_regs.dfy | register access, reset, op mode, last time slot, sampling frequency, time-slot set-up, FIFO byte count |
| `AdpdData` | adpd_data.dfy | expected byte count, the word/byte split, sample assembly and the unpack loop |
| `AdpdRead` | adpd_read.dfy | `adpd410x_get_data_packet`, `adpd410x_get_data` |

**How things outside this code are represented:**

- Device accessors (`show`, `store`) are uninterpreted functions of their
  inputs. A write reply lists the `store` calls made, in order.
- The socket layer (`socket_accept`, `socket_recv`) is a finite script of
  outcomes.
- A busy-wait that the script does not end comes out as `Blocked`.
- The chip is a map from register addresses to 16-bit values, plus a FIFO of
  16-bit words. A bus transaction on an address the map lacks fails.
- The register addresses, bit fields and oscillator frequencies of the
  driver's header are the fields of a `Chip` record. `ValidChip` states what
  the driver relies on about them. `ExampleChip` shows that the requirements
  can be met.

## Model

| member | source | states |
|---|---|---|
| IioNames.ScanFinds | libraries/iio/iio.c:244-249 | the scan over the name ends with the value of the last digit run, or the initial value when no digits follow |
| IioNames.ChannelNumberIsLastNumber | libraries/iio/iio.c:239-252 | the channel number is the decimal value of the last run of digits in the name; it is FAILURE exactly when the name has no digit |
| IioNames.IndexedName | libraries/iio/iio.c:239-252 | a name made of a non-digit-terminated prefix and the decimal form of n ("voltage2") yields n |
| IioNames.ChannelId | libraries/iio/iio.c:261-276 | -EINVAL exactly for an empty channel list; -ENOENT exactly when no channel has that name and direction; otherwise the index of the first channel that matches both |
| IioNames.AttributeId | libraries/iio/iio.c:284-299 | -EINVAL exactly for an empty list; -ENOENT exactly when no attribute has that name; otherwise the index of the first one that does |
| IioNames.InterfaceIndex | libraries/iio/iio.c:307-321 | the position of the first registered interface with that name; none exactly when no interface has it |
| IioNames.GetInterface | libraries/iio/iio.c:307-321 | the first interface registered under the name; none exactly when the name is unregistered |
| IioRegistry.Register | libraries/iio/iio.c:876-906 | succeeds and appends the interface after the existing ones, which are kept in order |
| IioRegistry.LookupAfterRegister | libraries/iio/iio.c:893-903 | after registering, a lookup of a name that was already registered gives the old interface; a lookup of a new name gives the added one |
| IioRegistry.Unregister | libraries/iio/iio.c:914-945 | FAILURE exactly when the name is not registered, and then the registry is unchanged; on success, one entry fewer |
| IioRegistry.LookupAfterUnregister | libraries/iio/iio.c:932-939 | with unique names, the removed name is no longer found and every other lookup is unchanged |
| IioRegistry.RegisterThenUnregister | libraries/iio/iio.c:876-945 | unregistering a freshly registered name restores the previous registry and succeeds |
| IioRegistry.UnregisterAsWritten | libraries/iio/iio.c:914-945 | the code as written: FAILURE with the registry untouched when an allocation fails; otherwise SUCCESS exactly when the name is present, and the global registry is freed and left dangling |
| IioRegistry.UnregisterAsWrittenOverruns | libraries/iio/iio.c:924-939 | for an absent name the copy loop writes index n-1 into an array of n-1 slots and returns FAILURE |
| IioRegistry.UnregisterAsWrittenDangles | libraries/iio/iio.c:941-944 | as written, unregistering the only interface reports SUCCESS, the rebuilt list is never installed and the global registry is left dangling; the corrected one leaves the registry empty |
| IioRegistry.ChannelMaskAccepts | libraries/iio/iio.c:649-652 | a mask is refused exactly when it sets a bit at or above the channel count |
| IioRegistry.ChannelCount | libraries/iio/iio.c:649 | the channel count the shift is computed from lies in 1..32 |
| IioRegistry.WithMask | libraries/iio/iio.c:654 | only the named interface's mask changes; every other lookup and every name are unchanged |
| IioRegistry.OpenDev | libraries/iio/iio.c:639-657 | -ENODEV exactly for an unknown device; -ENOENT exactly when the mask names a channel the device lacks; the registry is unchanged on error |
| IioRegistry.CloseDev | libraries/iio/iio.c:664-674 | FAILURE exactly for an unknown device, with the registry unchanged |
| IioRegistry.GetMask | libraries/iio/iio.c:682-693 | -ENODEV exactly for an unknown device, and then no mask is reported |
| IioRegistry.MaskBookkeeping | libraries/iio/iio.c:639-693 | get_mask returns what a successful open_dev stored, and 0 after close_dev; other devices' masks are untouched |
| IioRegistry.FourChannelScenario | libraries/iio/iio.c:649-652 | a four-channel device accepts mask 0x0F and refuses 0x10 with -ENOENT |
| IioCodec.Align4 | libraries/iio/iio.c:353-354 | the padded length is the least multiple of 4 not below the value length |
| IioCodec.Align4IsShiftFormula | libraries/iio/iio.c:353-354 | padding equals the source's shift formula: ((n >> 2) + 1) << 2 when n is not a multiple of 4 |
| IioCodec.Be32RoundTrip | libraries/iio/iio.c:349 | the byte-swapped header read back big-endian gives the value |
| IioCodec.Word32 | libraries/iio/iio.c:349 | the header word is the length itself whenever it fits in 32 bits |
| IioCodec.RecordHeader | libraries/iio/iio.c:348-350 | each record starts with the 4-byte big-endian image of the accessor's return value |
| IioCodec.RecordLength | libraries/iio/iio.c:350-356 | a record is 4 bytes plus the padded value length, and just the 4-byte header for a negative length |
| IioCodec.EncodeLength | libraries/iio/iio.c:346-360 | the bulk reply's length is the sum of its record sizes |
| IioCodec.Shows | libraries/iio/iio.c:347 | one `show` call per attribute, in list order, each with the channel info and buffer length |
| IioCodec.ReadAllAttr | libraries/iio/iio.c:332-361 | FAILURE exactly for a NULL list or buffer; otherwise it returns the encoded length, which is the number of bytes produced |
| IioCodec.DecodeFrom | libraries/iio/iio.c:384-392 | decoding n records yields n values and a cursor that does not move backwards |
| IioCodec.WriteAllAttr | libraries/iio/iio.c:372-395 | FAILURE exactly for a NULL list or buffer; on success returns the buffer length and hands one value to each attribute |
| IioCodec.DecodeEncode | libraries/iio/iio.c:346-392 | decoding an encoded reply gives back every value, cut to its reported length, and ends at the reply's end |
| IioCodec.BulkRoundTrip | libraries/iio/iio.c:332-395 | writing back a bulk read hands each store exactly the value that was read for it, and returns the reply length |
| IioCodec.Int16 | libraries/iio/iio.c:376 | the truncation to `int16_t` lands in -32768..32767 |
| IioCodec.HeaderAsWrittenMisreads | libraries/iio/iio.c:385 | for a 12-byte reply carrying "hello", the intended decoding returns "hello", but the code as written reads a length of 32 from a typical buffer address |
| IioDispatch.Single | libraries/iio/iio.c:429-438 | an unknown attribute name gives -ENOENT and calls nothing; a write stores the request's bytes under that name |
| IioDispatch.SingleFinds | libraries/iio/iio.c:479-488 | the accessor called is that of the first attribute with the name |
| IioDispatch.Bulk | libraries/iio/iio.c:419-426 | an empty attribute name reads or writes all attributes through the codec, in list order, each with the same channel info |
| IioDispatch.RdWrChannelAttribute | libraries/iio/iio.c:407-442 | every accessor of a channel request receives the channel number parsed from the name and the direction |
| IioDispatch.ChannelBranch | libraries/iio/iio.c:490-496 | a channel missing from the device, in that direction, gives -ENOENT |
| IioDispatch.ChannelBranchAsWritten | libraries/iio/iio.c:492-495 | the code as written reaches an undefined array access exactly when no channel matches, and otherwise agrees with the checked branch |
| IioDispatch.ChannelBranchAsWrittenOverreads | libraries/iio/iio.c:492-495 | a channel-less device, or a channel asked for in the wrong direction, makes the code as written index with a negative code |
| IioDispatch.RdWrAttribute | libraries/iio/iio.c:454-499 | -ENOENT for a NULL descriptor; device attributes get no channel info; a channel request for a channel the device lacks gives -ENOENT |
| IioDispatch.ReadAttr | libraries/iio/iio.c:520-538 | FAILURE for an unknown device; a read never calls a store |
| IioDispatch.WriteAttr | libraries/iio/iio.c:549-568 | -ENODEV for an unknown device; a single write stores the data under the attribute name, without channel info |
| IioDispatch.ChReadAttr | libraries/iio/iio.c:580-599 | FAILURE for an unknown device; a read never calls a store |
| IioDispatch.ChWriteAttr | libraries/iio/iio.c:611-630 | -ENODEV for an unknown device; every store receives the channel number of the name and the direction |
| IioDispatch.ReadDeviceAttribute | libraries/iio/iio.c:520-538 | reading a device attribute returns the first matching accessor's `show` result, called without channel info |
| IioDispatch.WriteChannelAttribute | libraries/iio/iio.c:611-630 | writing to channel "prefix + n" calls the matching `store` once, with channel number n |
| IioDispatch.UnknownElement | libraries/iio/iio.c:454-499 | an unknown attribute or channel name of a known device gives -ENOENT for all four entry points |
| IioDispatch.NoDescriptor | libraries/iio/iio.c:462-463 | an interface registered without a descriptor answers reads with -ENOENT |
| IioDispatch.ChannelBulkRoundTrip | libraries/iio/iio.c:407-426 | writing a channel's bulk read back stores each attribute's read value under its name, with the channel's info |
| IioDispatch.LaterRegistrationInvisible | libraries/iio/iio.c:893-903 | registering another interface does not change what requests to an already registered device return |
| IioMux.Push | libraries/iio/iio.c:122-126 | appends the socket at the back, or refuses with the queue unchanged exactly when four sockets are queued |
| IioMux.Pop | libraries/iio/iio.c:116-120 | takes the front socket and keeps the rest in order; reports empty exactly for an empty queue |
| IioMux.TakeNext | libraries/iio/iio.c:165-171 | the front socket becomes current; an empty queue clears the current slot and reports the error |
| IioMux.GetNextSocket | libraries/iio/iio.c:139-172 | consumes a non-empty part of the accept script; on success a client is current; on error the slot is unchanged or cleared |
| IioMux.GetNextSocketIsFifo | libraries/iio/iio.c:139-172 | the client served is the oldest of the queued and newly accepted sockets; the others stay queued in arrival order |
| IioMux.FifoWaited | libraries/iio/iio.c:149-153 | with nothing queued, a "no connection yet" outcome is skipped and waiting goes on |
| IioMux.FifoServed | libraries/iio/iio.c:149-155 | with clients queued, "no new connection" ends accepting and serves the oldest client |
| IioMux.FifoQueued | libraries/iio/iio.c:159-163 | an accepted socket is queued behind the waiting ones before any of them is served |
| IioMux.FifthClientRefused | libraries/iio/iio.c:160-162 | with four sockets queued, a newly accepted fifth makes the call fail with the queue unchanged |
| IioMux.WaitsForFirstClient | libraries/iio/iio.c:149-153 | with an empty queue and no connection, the call keeps waiting for any number of attempts |
| IioMux.GetNextSocketKeepsInv | libraries/iio/iio.c:139-172 | accepting and serving keeps clients distinct and at most four in the multiplexer |
| IioMux.RecvLoop | libraries/iio/iio.c:188-198 | never gathers more than asked; without a failure it gathers exactly the requested length |
| IioMux.RecvLoopGathers | libraries/iio/iio.c:188-198 | the bytes gathered are the received chunks in order, and the loop stops at the first failure |
| IioMux.Marked | libraries/iio/iio.c:192-194 | after a failed receive, the first buffer byte is '*' and the rest is what arrived |
| IioMux.Receive | libraries/iio/iio.c:188-207 | returns how many bytes were gathered, at most the length asked for; a short read is marked with '*'; the queue is untouched |
| IioMux.NetworkRead | libraries/iio/iio.c:174-208 | -1 without reading for a dropped client; otherwise a client is fetched first if none is current, and then its bytes are read |
| IioMux.NetworkReadKeepsInv | libraries/iio/iio.c:174-208 | a read keeps the multiplexer's invariant |
| IioMux.Step | libraries/iio/iio.c:854-866 | a live client goes to the back of the queue and the current slot is cleared; the step fails only when the queue is full |
| IioMux.StepKeepsInv | libraries/iio/iio.c:854-866 | under the invariant, the step always succeeds and keeps the invariant |
| IioMux.RoundRobin | libraries/iio/iio.c:854-866 | after a step, the next read serves the client at the front of the queue, and the client just served waits at the back |
| IioMux.DisconnectedUntilStep | libraries/iio/iio.c:179-180 | after a client drops, reads return -1 until the next step clears the slot without requeueing it |
| IioMux.NotConnectedScenario | libraries/iio/iio.c:200-207 | a client that disconnects after 3 of 8 bytes: 3 is returned, the buffer is marked, and the client is dropped |
| AdpdFrames.AddressBytes | drivers/photo-electronic/adpd410x/adpd410x.c:67-78 | the SPI frame keeps the read/write bit clear and the I2C frame sets the long-address bit; the chip decodes the 15-bit address from either |
| AdpdFrames.AddressBytesInvertChipAddress | drivers/photo-electronic/adpd410x/adpd410x.c:67-78 | any address bytes with the frame's marker bit in place are exactly the bytes of the address they decode to |
| AdpdFrames.SpiBytesRoundTrip | drivers/photo-electronic/adpd410x/adpd410x.c:108-110 | the SPI address split into 8 high and 7 low bits is rebuilt exactly |
| AdpdFrames.I2cBytesRoundTrip | drivers/photo-electronic/adpd410x/adpd410x.c:116-118 | the I2C address split into 7 high and 8 low bits is rebuilt exactly |
| AdpdFrames.ValueBytes | drivers/photo-electronic/adpd410x/adpd410x.c:111-112 | the data bytes of a write rejoin to the value |
| AdpdFrames.JoinValueSplits | drivers/photo-electronic/adpd410x/adpd410x.c:89-90 | the read reply rebuilt from two bytes splits back into the same bytes |
| AdpdFrames.WriteFrame | drivers/photo-electronic/adpd410x/adpd410x.c:107-120 | four bytes from which the chip decodes the 15-bit address and the value |
| AdpdFrames.ReadRequest | drivers/photo-electronic/adpd410x/adpd410x.c:67-78 | four bytes on SPI and two on I2C, addressing the 15-bit register |
| AdpdRegs.SlotAddr | drivers/photo-electronic/adpd410x/adpd410x.c:381 | the register of a slot stays inside the 15-bit address space |
| AdpdRegs.Read | drivers/photo-electronic/adpd410x/adpd410x.c:61-93 | a read gives the register's value, and fails exactly for an address the chip lacks |
| AdpdRegs.Write | drivers/photo-electronic/adpd410x/adpd410x.c:102-125 | a write sets the addressed register and no other, and fails exactly for an address the chip lacks |
| AdpdRegs.RegRead | drivers/photo-electronic/adpd410x/adpd410x.c:61-93 | the bus transaction (request frame, reply bytes, rebuilt value) has exactly the effect of reading the register |
| AdpdRegs.RegWrite | drivers/photo-electronic/adpd410x/adpd410x.c:102-125 | the write frame as the chip decodes it has exactly the effect of writing the register |
| AdpdRegs.UpdateReg | drivers/photo-electronic/adpd410x/adpd410x.c:137-142 | read-modify-write: the register ends as the old value with some bits cleared and some set; no other register changes |
| AdpdRegs.Modify | drivers/photo-electronic/adpd410x/adpd410x.c:137-142 | FAILURE with the chip untouched when the register cannot be read; otherwise the merge is written back |
| AdpdRegs.ApplyOp | drivers/photo-electronic/adpd410x/adpd410x.c:243-335 | one register update of a set-up sequence changes only its target register |
| AdpdRegs.TargetsOfLast | drivers/photo-electronic/adpd410x/adpd410x.c:243-335 | the registers a sequence touches are those of its prefix plus the last target |
| AdpdRegs.RunOps | drivers/photo-electronic/adpd410x/adpd410x.c:243-335 | a sequence of register updates succeeds exactly when all targets exist, and touches nothing else |
| AdpdRegs.RunOpsWrites | drivers/photo-electronic/adpd410x/adpd410x.c:243-335 | with distinct targets, each register ends with its own update applied to its original value |
| AdpdRegs.MergeSetsBits | drivers/photo-electronic/adpd410x/adpd410x.c:137-142 | setting bits leaves them set and keeps every other bit |
| AdpdRegs.MergeReplacesBits | drivers/photo-electronic/adpd410x/adpd410x.c:157-163 | a masked replace puts the new field value in place and keeps the bits outside the mask |
| AdpdRegs.MergeHoldsField | drivers/photo-electronic/adpd410x/adpd410x.c:178-184 | writing a 4-bit field leaves exactly that value in the field and keeps every other bit |
| AdpdRegs.NibbleReadsBack | drivers/photo-electronic/adpd410x/adpd410x.c:178-184 | a 4-bit field written with the RMW reads back as the value written |
| AdpdRegs.MergeKeepsOthers | drivers/photo-electronic/adpd410x/adpd410x.c:157-163 | an update whose bits lie inside the mask leaves every bit outside the mask alone |
| AdpdRegs.Reset | drivers/photo-electronic/adpd410x/adpd410x.c:132-143 | sets the software-reset bit of SYS_CTL, keeps its other bits and touches no other register; FAILURE exactly when SYS_CTL cannot be accessed |
| AdpdRegs.SetOpmode | drivers/photo-electronic/adpd410x/adpd410x.c:151-164 | replaces the operating-mode field of OPMODE and keeps its other bits |
| AdpdRegs.SetLastTimeslot | drivers/photo-electronic/adpd410x/adpd410x.c:172-185 | puts the slot number in the TIMESLOT_EN field and keeps the rest of OPMODE |
| AdpdRegs.SplitLoadKeeps23Bits | drivers/photo-electronic/adpd410x/adpd410x.c:214-219 | the load split into TS_FREQ (low 16 bits) and TS_FREQH (next 7) reassembles to the load's low 23 bits |
| AdpdRegs.WriteLoad | drivers/photo-electronic/adpd410x/adpd410x.c:214-219 | on success the two registers hold the load's low 23 bits, and nothing else changes |
| AdpdRegs.LfoSelectionAsWrittenIgnoresBit | drivers/photo-electronic/adpd410x/adpd410x.c:205 | with LFOSC_SEL at bit 0 and the bit set, the intended test picks FREQ1 but the code as written picks FREQ2 |
| AdpdRegs.TimeslotLoad | drivers/photo-electronic/adpd410x/adpd410x.c:200-213 | the load is the selected oscillator rate divided by the sampling frequency; it is missing exactly when an internal clock's SYS_CTL is unreadable |
| AdpdRegs.SetSamplingFreq | drivers/photo-electronic/adpd410x/adpd410x.c:193-220 | on success, TS_FREQH:TS_FREQ hold the low 23 bits of rate / frequency and no other register changes; otherwise FAILURE |
| AdpdRegs.Normalized | drivers/photo-electronic/adpd410x/adpd410x.c:328-333 | zero ADC-cycle and repeat counts become 1, non-zero ones and every other option are kept |
| AdpdRegs.SlotOps | drivers/photo-electronic/adpd410x/adpd410x.c:243-335 | the set-up writes ten registers of the slot |
| AdpdRegs.SlotOpsAddresses | drivers/photo-electronic/adpd410x/adpd410x.c:243-335 | the ten writes go to TS_CTRL, INPUTS, CATHODE, AFE_TRIM, PATTERN, DATA1, DECIMATE, LED_POW12, LED_POW34 and COUNTS of that slot |
| AdpdRegs.SlotRegsApart | drivers/photo-electronic/adpd410x/adpd410x.c:243-335 | the ten per-slot registers are distinct |
| AdpdRegs.SlotOpsTargets | drivers/photo-electronic/adpd410x/adpd410x.c:243-335 | the set-up touches exactly the slot's ten registers, each once |
| AdpdRegs.SameOutsideChain | drivers/photo-electronic/adpd410x/adpd410x.c:243-335 | the registers untouched by two steps in a row are those untouched by either |
| AdpdRegs.ConfigureSlot | drivers/photo-electronic/adpd410x/adpd410x.c:243-335 | succeeds exactly when the slot's registers exist; then each holds its update with the normalised counts; no other register changes |
| AdpdRegs.TimeslotSetup | drivers/photo-electronic/adpd410x/adpd410x.c:229-336 | FAILURE, with nothing written, for a slot beyond the last enabled one; otherwise as ConfigureSlot |
| AdpdRegs.GetFifoByteCount | drivers/photo-electronic/adpd410x/adpd410x.c:344-355 | the FIFO_STATUS byte-count bits and nothing else; missing exactly when the register cannot be read |
| AdpdData.ConsumedWithinSum | drivers/photo-electronic/adpd410x/adpd410x.c:413-461 | the unpack loop never consumes more bytes than the slot sizes add up to |
| AdpdData.ChannelsAppend | drivers/photo-electronic/adpd410x/adpd410x.c:380-390 | the per-channel sizes of two slot lists are those of each list, concatenated |
| AdpdData.ExpectedByteCount | drivers/photo-electronic/adpd410x/adpd410x.c:380-392 | the byte count is even, at least the sum of sizes (counted twice for dual-channel slots) and at most one more |
| AdpdData.SplitWordsPlaces | drivers/photo-electronic/adpd410x/adpd410x.c:408-411 | word i lands in bytes 2i (high byte) and 2i+1 (low byte) |
| AdpdData.SplitThenJoin | drivers/photo-electronic/adpd410x/adpd410x.c:408-411 | joining the split bytes gives back the FIFO words |
| AdpdData.JoinThenSplit | drivers/photo-electronic/adpd410x/adpd410x.c:408-411 | splitting joined words gives back any even-length byte string |
| AdpdData.Layout | drivers/photo-electronic/adpd410x/adpd410x.c:419-452 | the wire layout of a sample has as many bytes as the slot size |
| AdpdData.AssembleLayout | drivers/photo-electronic/adpd410x/adpd410x.c:419-452 | assembling the wire layout of a value that fits the size gives back the value |
| AdpdData.LayoutAssemble | drivers/photo-electronic/adpd410x/adpd410x.c:419-452 | any 1 to 4 bytes assemble to a value that fits, whose layout is those bytes: the byte orders of cases 1-4 lose nothing |
| AdpdData.SampleOf | drivers/photo-electronic/adpd410x/adpd410x.c:416-452 | one entry per non-empty channel, none for an empty one |
| AdpdData.Encode | drivers/photo-electronic/adpd410x/adpd410x.c:413-461 | the bytes a packet carries for given samples are as many as the loop consumes |
| AdpdData.DecodeEncode | drivers/photo-electronic/adpd410x/adpd410x.c:413-461 | decoding the bytes of fitting samples, whatever padding follows, gives back every sample |
| AdpdData.HandledConsumesAll | drivers/photo-electronic/adpd410x/adpd410x.c:413-461 | when every size is 1 to 4, the loop consumes exactly the sum of the sizes |
| AdpdData.PacketRoundTrip | drivers/photo-electronic/adpd410x/adpd410x.c:380-461 | a packet of expected length built from fitting samples unpacks to those samples, in order |
| AdpdData.PendingHead | drivers/photo-electronic/adpd410x/adpd410x.c:454-460 | the next pending channel is that of the cursor's slot |
| AdpdData.StepPending | drivers/photo-electronic/adpd410x/adpd410x.c:454-460 | one loop iteration handles exactly the next pending channel: the second channel of a dual slot, then the next slot |
| AdpdData.StepKeepsReachable | drivers/photo-electronic/adpd410x/adpd410x.c:413-461 | each iteration stays within the buffer and strictly shortens the pending work, so the loop ends |
| AdpdData.StepKeepsTrack | drivers/photo-electronic/adpd410x/adpd410x.c:413-461 | each iteration keeps the bytes consumed consistent with the channels handled |
| AdpdData.DecodeStep | drivers/photo-electronic/adpd410x/adpd410x.c:413-461 | decoding the pending channels is the next sample followed by the decoding of the rest |
| AdpdData.UnpackPacket | drivers/photo-electronic/adpd410x/adpd410x.c:413-461 | the loop produces exactly the decoding of the packet: one entry per non-empty channel, in slot order |
| AdpdData.StepAsWrittenAgrees | drivers/photo-electronic/adpd410x/adpd410x.c:419-460 | for a non-empty slot, the loop as written takes the corrected step |
| AdpdData.AsWrittenStuck | drivers/photo-electronic/adpd410x/adpd410x.c:417-418 | once the loop as written reaches an empty slot, no number of iterations moves it |
| AdpdData.EmptySlotHangsAsWritten | drivers/photo-electronic/adpd410x/adpd410x.c:417-418 | a single empty slot: the code as written never leaves slot 0, while the corrected loop finishes after one step |
| AdpdRead.SizeOf | drivers/photo-electronic/adpd410x/adpd410x.c:385-386 | the size taken from DATA1 is its SIGNAL_SIZE bits, fitting the byte its table holds |
| AdpdRead.SizeOfWritten | drivers/photo-electronic/adpd410x/adpd410x.c:298-304 | the sample size the data path reads is the byte count the set-up wrote, under the field's mask, when SIGNAL_SIZE sits at bit 0 of DATA1, which a valid chip description requires (the data path reads the field unshifted, adpd410x.c:385-386) |
| AdpdRead.SlotRead | drivers/photo-electronic/adpd410x/adpd410x.c:381-382 | reads the per-slot register, failing exactly when it is missing |
| AdpdRead.PresentBelow | drivers/photo-electronic/adpd410x/adpd410x.c:380-384 | when the registers of the first n slots are present, each single one is |
| AdpdRead.MissingSlotReg | drivers/photo-electronic/adpd410x/adpd410x.c:380-384 | one missing slot register makes the whole set absent |
| AdpdRead.Formats | drivers/photo-electronic/adpd410x/adpd410x.c:380-390 | one size and dual flag per active slot |
| AdpdRead.ReadWords | drivers/photo-electronic/adpd410x/adpd410x.c:402-407 | succeeds exactly when the FIFO holds the requested words, and then returns them and removes them |
| AdpdRead.ReadFormats | drivers/photo-electronic/adpd410x/adpd410x.c:380-390 | succeeds exactly when each slot's DATA1 can be read, and then returns the slots' sizes |
| AdpdRead.GetDataPacket | drivers/photo-electronic/adpd410x/adpd410x.c:367-477 | succeeds exactly when the sizes and enough FIFO words are there; then it drains exactly the expected words and returns their unpacked samples |
| AdpdRead.ActiveSlots | drivers/photo-electronic/adpd410x/adpd410x.c:493-497 | the number of active slots, TIMESLOT_EN + 1, is 1 to 16 |
| AdpdRead.DualFlags | drivers/photo-electronic/adpd410x/adpd410x.c:499-506 | one dual-channel flag per active slot |
| AdpdRead.ReadDualFlags | drivers/photo-electronic/adpd410x/adpd410x.c:499-506 | succeeds exactly when every active slot's TS_CTRL can be read, and then returns their channel-2 flags |
| AdpdRead.GetData | drivers/photo-electronic/adpd410x/adpd410x.c:486-509 | succeeds exactly when OPMODE, the slot registers and enough FIFO words are there; then it returns the unpacked samples of the active slots and drains the words read |
| AdpdRead.LastTimeslotSetsActiveSlots | drivers/photo-electronic/adpd410x/adpd410x.c:172-185 | after setting the last time slot to ts, the data path reads ts + 1 slots |
| AdpdRead.SetupSelectsChannels | drivers/photo-electronic/adpd410x/adpd410x.c:243-255 | after a slot's set-up, the data path sees its second channel on exactly when the set-up enabled it |

## Left out

- Integer widths in iio.c are not modelled:
  - the `int16_t` cursors and indices of the codec and lookups (iio.c:264, 287, 335, 375, 411);
  - the `uint8_t`-sized interface count;
  - the `uint32_t` return of `network_read`.

  Lists and buffers are assumed small enough that none of these wraps. `IS_ERR_VALUE` is modelled as "negative".
- IioCodec.ReadAllAttr: the pad bytes after a value are modelled as zeros. The source leaves them as whatever the buffer held, and no reader looks at them. No capacity check is modelled on the caller's buffer or on the 256-byte local buffer, because the source does none.
- IioCodec.WriteAllAttr: returns -EINVAL when a header or a value would reach past the end of the buffer. The source has no such check and reads past the end. The model makes that undefined read an explicit error.
- IioCodec.Fit: a value is cut to, or padded to, the length the accessor reports. The source copies the accessor's text with `sprintf` up to its NUL terminator, which is not modelled.
- IioNames.ChannelNumberIsLastNumber: `strtol` saturation and the `int32_t` truncation of very long digit runs are not modelled. The value is an unbounded natural.
- IioDispatch.Single: a NULL attribute list in a single-attribute lookup is treated as an empty list. The source dereferences it.
- IioDispatch.ReadAttr: the `!iio_device` check after a successful lookup (iio.c:534) can never fail and is omitted. `iio_ch_read_attr` tests `!device` instead of the interface (iio.c:595); the model follows that, so the test never fails either.
- The `dev_instance` argument of the accessors is dropped. Accessors are functions of the channel info and the buffer or data only.
- IioMux.Step: stops before `tinyiiod_read_command`. The protocol engine is not part of this model.
- The circular buffer (`cb_init`, `cb_read`, `cb_write`, `cb_size`) is not part of this model. Its full and empty errors are modelled as -ENOSPC and -EAGAIN; only their sign matters to the callers.
- A socket accepted when the queue is full is neither queued nor closed, as in the source. The model does not track that leaked resource.
- The blocking loops of `_get_next_socket` and `network_read` are driven by finite outcome scripts. A script that ends before the loop does gives `Blocked`, not a hang.
- Left out with no model:
  - the UART transport;
  - `iio_phy_read` and `iio_phy_write`;
  - `socket_send`;
  - `iio_get_xml`;
  - `iio_transfer_dev_to_mem`, `iio_transfer_mem_to_dev`, `iio_read_dev`, `iio_write_dev`;
  - `iio_init`, `iio_remove`, and the rest of `iio_init`'s socket set-up.

  These are I/O and set-up code outside the modelled core. device_drivers/ADF4153/adf4153_cfg.h is not part of this model.
- Left out of the ADPD410x model:
  - `adpd410x_setup` and `adpd410x_remove` (adpd410x.c:517-660): allocation, GPIO and bus initialisation;
  - the bus drivers (`spi_write_and_read`, `i2c_write`, `i2c_read`): abstracted to "the addressed register exists or the transaction fails";
  - the allocation-failure paths of `adpd410x_get_data_packet`.
- The register addresses, bit masks and oscillator frequencies of adpd410x.h are not part of this model. They are parameters of the `Chip` record, constrained only by what the driver relies on.
- AdpdRead.GetDataPacket: the `int8_t` loop counter is assumed not to wrap. It would wrap only for packets of more than 127 words. An empty FIFO makes the read fail rather than return stale data.
- AdpdRead.GetDataPacket: a slot size above 4 falls through the switch as in the source. The sample index advances and the entry is left unwritten (`Untouched`). Such sizes are not covered by the round-trip lemmas.
- AdpdRegs.SetLastTimeslot: requires a slot number below 12, the range of the `enum adpd410x_timeslots` parameter.
- AdpdRegs.SlotOps: requires a slot below 16, the range of the per-slot register blocks, and an input pair (`ts_inputs.pair`) below 4: the set-up shifts the option by `pair * 4` within a 16-bit register (adpd410x.c:258), so only pairs 0 to 3 have a nibble of INPUTS; the enum that bounds the field is in adpd410x.h, which is not part of this model.
- AdpdRegs.ConfigureSlot: requires a slot below 16 and an input pair below 4, for the same reasons as SlotOps.
- AdpdRegs.TimeslotSetup: requires a slot below 12, the range of the `enum adpd410x_timeslots` parameter, and an input pair below 4.
- AdpdRead.SizeOfWritten: holds only because a valid chip description puts SIGNAL_SIZE at bit 0 of DATA1. The data path masks DATA1 without shifting (adpd410x.c:385-386), so with the field anywhere else the size written and the size read would differ; adpd410x.h, which fixes the real position, is not part of this model.
- IioRegistry.Register: the -ENOMEM returns when `calloc` or `realloc` fails (iio.c:884-885, 890-891, 896-898) are not modelled; the allocator is taken to succeed. On those paths the source also leaves the registry damaged (the count already incremented, or the array freed), which the model does not describe.
- IioRegistry.Unregister: the FAILURE returned when either `calloc` fails (iio.c:920-927) is not modelled by the corrected operation; there the source leaves the registry unchanged. UnregisterAsWritten does take the allocation outcome as a parameter.
- IioNames.ChannelId: a NULL `channels` pointer cannot be represented by a sequence of channels. The source dereferences it (iio.c:266); the model's -EINVAL is for a list whose first entry is NULL, that is an empty list.
- IioCodec.Be32: the header is read big-endian because `bswap_constant_32` is applied to a value that is then stored on a little-endian CPU (iio.c:349). A big-endian host is not modelled.
- AdpdRegs.SetSamplingFreq: requires a non-zero frequency; the source divides by it unchecked.
- IioRegistry.OpenDev: requires a channel count of 1 to 32. The source's `32 - num_ch` shift is undefined outside that range.

## Findings

| source | as written | input that shows it | evidently intended | confidence | as-written member | corrected member |
|---|---|---|---|---|---|---|
| libraries/iio/iio.c:385 | the length header is read by byte-swapping the buffer's address (`(uint32_t)(buf + j)`), not the word stored there, then truncated to `int16_t` | a bulk write of a reply carrying "hello" (header 5) from a buffer at 0x20000000: the length taken is 32, beyond the 12-byte reply | read the 32-bit big-endian word at `buf + j` | high; not executed | IioCodec.HeaderAsWritten, IioCodec.HeaderAsWrittenMisreads | IioCodec.WriteAllAttr, IioCodec.BulkRoundTrip |
| libraries/iio/iio.c:924-942 | the new array has n-1 slots, but a name that is absent makes the loop write slot n-1; the new list is never installed; the global registry is freed and left dangling | unregistering a name that is not registered from a registry of one interface: index 0 is written into a 0-slot array; unregistering the only interface reports SUCCESS, the rebuilt list is never installed and the global pointer designates freed memory | install the rebuilt list, and copy only when the name is present | high; not executed | IioRegistry.UnregisterAsWritten, IioRegistry.UnregisterAsWrittenOverruns, IioRegistry.UnregisterAsWrittenDangles | IioRegistry.Unregister, IioRegistry.LookupAfterUnregister |
| libraries/iio/iio.c:492-495 | the channel lookup result indexes the channel array without a check, so -EINVAL or -ENOENT is used as an index | channel "voltage0" as an output channel of a device with no channels, or with only an input "voltage0" | return -ENOENT, as for an unknown attribute | high; not executed | IioDispatch.ChannelBranchAsWritten, IioDispatch.ChannelBranchAsWrittenOverreads | IioDispatch.ChannelBranch, IioDispatch.RdWrAttribute |
| drivers/photo-electronic/adpd410x/adpd410x.c:417-418 | a slot of size 0 hits `continue` in the do-while, which re-tests `i < no_slots` without advancing `i`: the loop never ends | one active slot whose DATA1 signal size is 0 | skip the empty slot without producing a sample | high; not executed | AdpdData.AsWrittenStuck, AdpdData.EmptySlotHangsAsWritten | AdpdData.UnpackPacket, AdpdData.StepKeepsReachable |
| drivers/photo-electronic/adpd410x/adpd410x.c:205 | the SYS_CTL value is ANDed with the bit position of LFOSC_SEL (BITP) instead of its mask (BITM) | LFOSC_SEL at bit 0 (position 0) with the bit set: the test is always false and FREQ2 is chosen | test the LFOSC_SEL bit with its mask | medium (depends on the header's bit position); not executed | AdpdRegs.InternalLfoRateAsWritten, AdpdRegs.LfoSelectionAsWrittenIgnoresBit | AdpdRegs.InternalLfoRate, AdpdRegs.SetSamplingFreq |

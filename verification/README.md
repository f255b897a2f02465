# Verified models of the FiC control library

The FiC library drives FPGA boards from a Raspberry Pi's GPIO pins. This project models four of
its parts in Dafny and proves what they guarantee:

* **Configuration over SelectMAP** (`Gpio`, `RunLength`, `SelectMap`). The four programming
  functions write level and mode registers; what the FPGA receives is the trace of its data pins
  at rising edges of CCLK, whichever kind of write makes them, each sample read as the number its
  pins show. The slow functions clock exactly the bytes given. The fast ones are proved to clock
  the buffer's own bytes up to an exactly computed end that may lie behind `size`, everything
  behind `size` being copies of the last byte or half-word; their stream equals a slow one up to
  the number of those copies. In front of any of these streams there is one more sample, a zero,
  exactly if an earlier run left the clock's level high. Traced as well are the resets of the FPGA
  and what the program saw on INIT_B and DONE: a run that is reported as done has seen INIT_B high
  at each check and, unless it is a partial reconfiguration, DONE high at last.
* **The strobe link** (`Handshake`, `Device`, `Link`). `Handshake` is the four-phase protocol as
  a state machine, over all interleavings of host and device, for the checked and the unchecked
  send. `Link` is the host code itself over the pin registers with a device reacting to the
  wires; `Device` is that device: it takes words, parses command, address, header and payload,
  and keeps a register file and the DDR memory. A call that fails leaves its transaction open.
  Wherever that happens, by the time the next call has set up the link a register write has been
  carried out in full or not at all, and a DDR write has changed nothing outside its own range,
  whatever the device makes of an incomplete one.
* **The `/mem` file** (`Cuts`, `Flat`, `Fuse`). Reads and writes of any offset and length over a
  memory of aligned four-byte words, with their read-modify-write of the first and last word and
  their error exits, down to the words on the wire. Whatever fails, no word outside the request's
  own is changed, and the memory behaves like one flat byte array in every run. If the DDR module
  buffers whole transfers, a write that fails has stored a prefix of its buffer and nothing else.
* **The managed memory allocator** (`Areas`, `Mmalloc`). A first-fit allocator on a doubly linked
  list with a sentinel, tied to functions on sequences about which whole runs are proved.

`Bytes` holds bytes, half-words and little-endian words, `Subsequences` what is left of a stream
that lost words.

## How the model reads

A 32-bit register value stands as the set of its one bits: `|` is union, `& ~` is difference,
`1 << g` is `{g}`. A byte is a number below 256, a half-word a number below 65536. `size_t` is 32
bits wide, and `int` conversions and `size_t` subtractions wrap where the program lets them.
Objects the program updates in place (registers, `PROG_STAT`, the list, the receive buffer) are
classes and arrays; each method is proved against a function of the old state.

A failing read-back check, a timed-out wait or a status pin at the wrong level can happen at any
time. Each is counted in the ghost counter `Registers.faults`, and an operation is proved to report
failure if and only if there was a fault (`Explained`) or it refuses the request: without faults
everything goes through, and no fault is swallowed. The one exception is in the program: the
`/mem` callbacks ignore what `fic_comm_reset` returns, whose faults `Mount.ignored` counts apart.
`Registers.readings` is what the program saw on INIT_B, DONE and FREQ, `Registers.resets` when it
pulled PROG_B low.

What is assumed of the outside world, and nowhere else:

* output pins show their latch when driven, and undriven wires read low;
* the device answers a rising RSTB after any delay, possibly only after the host has stopped
  looking, or not at all, and a falling one after any delay. One that lowers FACK before the next
  rise is called prompt; what the link does is stated for it, and for any other device that it
  takes some of the words sent (`Link.Host.HlsWrite`);
* RREQ frames a transaction, which the device ends when RREQ falls, before the host's next access.
  It then carries out a register write of the right length, or a DDR write with as many bytes as
  its header says. A DDR write with too few bytes leaves bytes of the device's choosing, picked
  afresh for each call, in the write's own range (`torn`), unless the DDR module buffers transfers;
* the DDR module ignores the low two address bits, as the comment at ficfuse.c:107 has it, and
  address 0x1000 is its stream, not a register;
* INIT_B rises in the end after a reset, and the levels that `fic_set_gpio_fast` and
  `fic_clr_gpio_fast` wait for are reached; `mmap` returns pointers that are not in use, and fails
  on an empty length;
* the fast programming functions may read 15 bytes behind `size`, whatever those hold.

## Where the program falls short of its description

* The fast programming functions may clock, and return, up to 15 (x8) or 14 (x16, even sizes)
  more bytes than `size`, although the result is described as the bytes transferred.
  `RunLength.StopsExactly` gives the exact end and the exact condition for no overrun;
  `SelectMap.FastMayOverrun` is an example. `tx_size` then counts passes of the loop rather than
  bytes, and only bounds the number of bytes.
* A programming function that finds CCLK's level high, as a partial reconfiguration or a run that
  failed in its data loop leaves it, makes the FPGA sample a zero when it turns CCLK into an
  output before clearing its level (ficlib2.c:912-917, 928-933). CSI_B and RDWR_B are inputs at
  that moment; where they are pulled up the FPGA is not selected and ignores the edge.
  `SelectMap.Programmer.InitPins` gives the exact condition, `SelectMap.Programmer.PartialTwice`
  is a run of two calls.
* A programming function that finds PROG_B's level low resets the FPGA when it turns PROG_B into an
  output before raising it (ficlib2.c:907-911, 923-927), even for a partial reconfiguration; a reset
  that failed half-way leaves it low. `SelectMap.Programmer.InitPins` has the exact condition.
* A failed programming function returns 0, not the -1 its description promises.
* `fic_hls_send` is described as masking every byte to four bits; it sends all eight, as two
  nibbles on mk1 and in pairs on mk2.
* `fic_comm_send_fast` loses words, without an error, to a device that is slow to lower FACK:
  `Handshake.FastMayLose`. `Handshake.FastDelivers` gives the exact condition for delivery,
  `Handshake.FastOnlyLoses` that it never does worse than lose words. What that does to a DDR
  write is another matter: `Device.SilentLossGoesAstray` is one that ends up at another address.
* A `/mem` write that neither starts on a word boundary nor reaches the next one subtracts the
  wrong length (ficfuse.c:259-261), `size_left` wraps around, and the next transfer runs behind
  the caller's buffer. There the model stops with `OutOfBounds` and promises nothing any more;
  `HeadFits` is the exact condition for the write to be carried out instead, and
  `Cuts.ShortWriteWraps` a request that is not.
* A `/mem` read whose aligned body has 2^31 bytes or more and whose end is not aligned skips that
  body, because its length goes through an `int` (ficfuse.c:144). `Cuts.ReadCutShort` is the exact
  condition, `Cuts.LongReadFails` an example; reads of less than 2^31 bytes are never affected,
  and FUSE does not normally hand down longer ones.
* `mmalloc` may hand out overlapping areas when a hole is too small (mmalloc.c:69-73):
  `Areas.MixedSizesOverlap` is a run. From a list that is sorted with guard blocks,
  `Areas.AllocateKeepsDisjointIff` is the exact condition for the new area to overlap none, and
  `Areas.AllocateKeepsSpacedIff` the slightly stronger one for the list to stay sorted with guard
  blocks; `Areas.MixedRun` carries the latter over whole runs with requests of any size. The
  former cannot be followed call by call: it needs the guard blocks again before the next call
  (`Areas.DisjointIsNotKept`). The length reserved wraps around to 0 for requests that reach into
  the last block of `size_t`, which then fail in `mmap` (`Areas.FreeSizeHolds`). The search starts at 0 whatever offset the allocator was set up
  with (`Areas.FirstAreaAtZero`).

## Model

| member | source | states |
|---|---|---|
| `Bytes.Le32RoundTrip` | ficlib2.c:732-737 | the header's 32-bit numbers are recovered from their four little-endian bytes |
| `Gpio.FieldsPartition` | ficlib2.h:64-65 | the three-bit fields of a word share out its lower thirty bits |
| `Gpio.Registers.SetInput` | ficlib2.h:64-64 | clearing a packed three-bit field makes exactly that pin an input, leaves the mode of every other pin alone and never raises the clock |
| `Gpio.Registers.SetOutput` | ficlib2.h:65-65 | adds the output bit to exactly that pin's mode; a pin whose level is high rises on the wires, and if it is CCLK the slave samples; a PROG_B whose level is low resets the FPGA |
| `Gpio.Registers.MakeOutput` | ficlib2.c:912-917 | makes exactly that pin an output; on CCLK exactly one sample if its level is high, on PROG_B exactly one reset if its level is low, and otherwise neither |
| `Gpio.Registers.SetAllInput` | ficlib2.h:66-66 | all thirty pins are inputs, all wires low, and no sample or reset is made |
| `Gpio.Registers.SetChecked` | ficlib2.c:33-46 | sets exactly the given pins, samples the wires if that raises CCLK on them, makes no reset, and fails if and only if there was a fault |
| `Gpio.Registers.ClrChecked` | ficlib2.c:48-61 | clears exactly the given pins, never makes a sample, resets the FPGA exactly if that lowers PROG_B on the wires, and fails if and only if there was a fault |
| `Gpio.ValueOnShifted` | ficlib2.c:1096-1096 | a number shifted onto a range of pins is read back from them unchanged |
| `Gpio.ShowsIff` | ficlib2.c:1096-1096 | the pins show a number if and only if exactly those of its one bits are high |
| `RunLength.PassAtLeast` | ficlib2.c:1418-1443 | the nested comparisons of a fast pass decide the number of clocks: at least 4, 8, 12 or 16 iff that many words ahead repeat the word on the bus |
| `RunLength.CopiesExtend` | ficlib2.c:1418-1455 | the clocks of a pass deliver the next words of the buffer themselves, and leave the last of them on the bus |
| `RunLength.OverrunRepeats` | ficlib2.c:1414-1468 | whatever a fast loop clocks behind `size` is a copy of the last word within it |
| `RunLength.FastRefinesSlow` | ficlib2.c:1414-1491 | fast and slow streams, with their waits for DONE, are the same words followed by copies of the last; they are equal iff the numbers of copies are; the overrun is below one window |
| `RunLength.StopsExactly` | ficlib2.c:1414-1468 | closed form of where a fast loop stops, for any buffer and any bytes behind it, and iff-condition for stopping at `size` |
| `RunLength.FreshWordStops` | ficlib2.c:1418-1443 | a different word right behind the data rules out the overrun |
| `SelectMap.SamplesDetermine8` | ficlib2.c:1332-1341 | the samples at CCLK edges determine the byte stream |
| `SelectMap.SamplesDetermine16` | ficlib2.c:1095-1110 | the samples at CCLK edges determine the half-word stream |
| `SelectMap.ByteOnPins` | ficlib2.c:1332-1340 | the sample a byte makes is the one whose pins, from RP_CD0 on and lowest bit first, show that number, and no other |
| `SelectMap.PairOnPins` | ficlib2.c:1094-1108 | the sample a byte pair makes shows its first byte on the lower eight data pins and its second on the upper eight, and no other sample does |
| `SelectMap.RunCarries8` | ficlib2.c:1330-1378 | whatever run: sample for sample the number on the data pins, which is zero in the lead, then byte for byte the buffer, then its last byte |
| `SelectMap.RunCarries16` | ficlib2.c:1093-1146 | the same for both bytes of every pair |
| `SelectMap.PassByBytes` | ficlib2.c:1189-1206 | the byte comparisons of the fast 16-bit loop count repeated half-words |
| `SelectMap.Programmer.InitPins` | ficlib2.c:838-947 | clock, data and control lines are outputs, the former low and the latter high, all others inputs; on success exactly one sample, of zero, if CCLK's level was high before, and none otherwise; exactly one reset if PROG_B's level was low before, and none otherwise |
| `SelectMap.Programmer.InitFpga` | ficlib2.c:952-993 | from a high PROG_B, exactly one reset in normal mode and none for partial reconfiguration; ends with PROG_B high and CSI_B and RDWR_B low on outputs in both modes, with clock and data pins untouched; in normal mode has seen INIT_B rise and then DONE low |
| `SelectMap.Programmer.ClockDatum` | ficlib2.c:1338-1340 | exactly one sample of the datum, set up before the edge |
| `SelectMap.Programmer.ToggleCclk` | ficlib2.c:1004-1034 | exactly n more samples of what is on the pins, with the data pins unchanged |
| `SelectMap.Programmer.AwaitDone` | ficlib2.c:1131-1146 | the wait for DONE clocks the last datum once more between two looks at DONE, the first time only if the clock was low, never changes the data pins under a high clock, succeeds if and only if there was no fault, and then has seen DONE high at last and INIT_B never low, and leaves clock and data low |
| `SelectMap.Programmer.Bytes8` | ficlib2.c:1330-1358 | the bytes sampled are a prefix of the buffer, all of it on success, and `tx_size` is their number; it succeeds if and only if INIT_B was high after every byte and nothing else failed |
| `SelectMap.Programmer.ProgSm8` | ficlib2.c:1308-1389 | the FPGA's edges show a zero if CCLK's level was high, then the buffer, then copies of its last byte, one between two looks at DONE except the first two, and behind that zero it is selected at each; its resets; `PM_STAT_DONE` if and only if there was no fault, and then INIT_B was high after every byte and, in normal mode, DONE high at last; result and `tx_size`; data wires stable throughout; pins released on both exits; CCLK's level afterwards |
| `SelectMap.Programmer.FastPass8` | ficlib2.c:1415-1455 | one pass clocks exactly as many copies as the look-ahead says |
| `SelectMap.Programmer.Bytes8Fast` | ficlib2.c:1414-1468 | the bytes sampled are the buffer's up to exactly where the fast loop stops; `tx_size <= i <= 16 * tx_size` |
| `SelectMap.Programmer.ProgSm8Fast` | ficlib2.c:1392-1505 | the same with the bytes up to the exact end of the fast loop and one check of INIT_B: stream, resets, readings, result, status, data stability and CCLK's level |
| `SelectMap.Programmer.Halves16` | ficlib2.c:1093-1129 | the half-words sampled are a prefix of the buffer's little-endian pairs, all of it if and only if there was no fault, INIT_B being high after each; `tx_size` counts those not spoiled by a failed check |
| `SelectMap.Programmer.ProgSm16` | ficlib2.c:1071-1160 | stream with its leading sample, resets, readings of INIT_B and DONE, result, status if and only if no fault, data stability and CCLK's level of the whole slow 16-bit run |
| `SelectMap.Programmer.FastPass16` | ficlib2.c:1186-1218 | one pass clocks exactly as many copies as the look-ahead says, with the pins equal to the previous pair throughout |
| `SelectMap.Programmer.Halves16Fast` | ficlib2.c:1185-1234 | the half-words sampled are the buffer's up to exactly where the fast loop stops; `tx_size <= i <= 8 * tx_size` |
| `SelectMap.Programmer.ProgSm16Fast` | ficlib2.c:1163-1271 | stream with its leading sample, resets, readings of INIT_B and DONE, result, status if and only if no fault, data stability and CCLK's level of the whole fast 16-bit run |
| `SelectMap.Programmer.PartialTwice` | ficlib2.c:1361-1377 | of two partial reconfigurations in a row the second sends a zero byte that is in neither buffer |
| `SelectMap.FastMayOverrun` | ficlib2.c:1418-1426 | seventeen zero bytes followed by zeros are clocked as thirty-two |
| `Handshake.FullDelivers` | ficlib2.c:277-314 | under every interleaving the words taken are a prefix of those offered, at most one ahead; after a returned send exactly the words sent |
| `Handshake.FullCompletes` | ficlib2.c:277-314 | whatever the words, there is a run that sends them all and ends with each taken once |
| `Handshake.FastDelivers` | ficlib2.c:319-342 | without time-outs exactly the words whose strobe found FACK down are taken; all of them iff FACK fell before every strobe |
| `Handshake.FastOnlyLoses` | ficlib2.c:319-342 | in every run, time-outs included, the words taken are a subsequence of those offered, and all of them iff the counts agree |
| `Handshake.FastMayLose` | ficlib2.c:319-342 | a run in which the fast send loses a word without an error |
| `Device.BytesRoundTrip` | ficlib2.c:577-713 | decoding the nibbles or pairs of any bytes gives the bytes back |
| `Device.SendableInWords` | ficlib2.c:597-605 | the lengths mk2 does not refuse are those of one or more whole words |
| `Device.AddrRoundTrip` | ficlib2.c:428-449 | the device recovers every 16-bit address from the words sent for it |
| `Device.FirstWords1` | ficlib2.c:540-556 | the words that open a transfer on mk1, and the nibbles of its command, as numbers |
| `Device.FirstWords2` | ficlib2.c:731-760 | all the words of a DDR command on mk2, as numbers |
| `Device.WriteFrame` | ficlib2.c:731-765 | parsing the words of a DDR write recovers command, address, size and payload, and changes exactly the addressed range |
| `Device.ReadFrame` | ficlib2.c:774-786 | parsing the words of a DDR read makes the device ready with the addressed range |
| `Device.RegisterFrame` | ficlib2.c:454-487 | parsing the words of a register write sets exactly that register, to 8 bits on mk1 and 16 on mk2 |
| `Device.RegisterCut` | ficlib2.c:454-487 | wherever a register write is cut short, ending it carries it out in full or not at all |
| `Device.HeaderCut` | ficlib2.c:731-765 | a header that lost words anywhere does nothing |
| `Device.PayloadCut` | ficlib2.c:731-765 | behind a whole header, a payload that lost words does what no payload would, or nothing |
| `Device.HeaderOnly` | ficlib2.c:731-765 | a DDR write with no payload, or too little of it, may spoil its own range and nothing else, and not even that if the device buffers |
| `Device.SilentLossGoesAstray` | ficlib2.c:319-342 | words of the header lost without an error can send the rest of a write to another address |
| `Link.BusCarries` | ficlib2.c:298-300 | the device reads off the data pins the word the host put there |
| `Link.Host.CommSetup` | ficlib2.c:114-130 | from any register state, exactly RREQ, RSTB and the data pins end as outputs, low, although the loop stops before pin 27; a transaction left open ends |
| `Link.Host.PortDir` | ficlib2.c:149-161 | turns the data pins around and no other |
| `Link.Host.CommSend` | ficlib2.c:277-342 | a send that returns 0 has delivered its word once, slow or fast, if FACK was down or the device is prompt; otherwise, or if it fails, once or not at all; it fails if and only if there was a fault, of which the slow form's wait for FACK to fall is one; RSTB is low afterwards |
| `Link.Host.SetAddr` | ficlib2.c:428-449 | sends the words of the address, high nibble first on mk1; however it fails, a device that was ready has a prefix of them, and any device a subsequence |
| `Link.Host.CommReceive` | ficlib2.c:344-397 | a receive that returns 0 has fetched the device's next word |
| `Link.Host.Begin` | ficlib2.c:540-564 | the device ends with command and address and nothing else, or, on failure, a prefix of them; one that was not ready with a subsequence |
| `Link.Host.End` | ficlib2.c:566-575 | exactly the given pins are lowered and the transaction has ended with the effect it was due to have; it succeeds if and only if there was no fault, and then FREQ was seen low and all pins are inputs |
| `Link.Host.CommReset` | ficlib2.c:135-145 | whatever a failed call left open has ended, with the effect it was due to have and no other; on success RREQ is low and RSTB high on the wires |
| `Link.Host.SendBytes` | ficlib2.c:577-623 | the device gets a subsequence of the words of the bytes, and exactly those words if the call succeeds and the device is prompt; odd or empty transfers are refused on mk2 |
| `Link.Host.ReceiveBytes` | ficlib2.c:642-713 | on success the buffer holds the bytes the device had ready, and nothing else in it changed |
| `Link.Host.HlsSend` | ficlib2.c:625-636 | on success the DDR module has processed exactly the bytes sent and the transaction has ended with FREQ low and all pins inputs; otherwise what is left of them |
| `Link.Host.HlsWrite` | ficlib2.c:731-765 | any device works on a subsequence of the words sent; on success a prompt one has processed header and payload; otherwise that, or the header without its payload, or nothing, once the link is set up again |
| `Link.Host.DdrWrite` | ficlib2.c:767-769 | on success exactly the addressed range is replaced; a call fails if and only if there was a fault or its length is refused, and then changes nothing outside that range, and if the DDR module buffers it is carried out in full or not at all |
| `Link.Host.DdrRead` | ficlib2.c:774-815 | on success the buffer holds the addressed range; memory and registers never change |
| `Link.Host.FicWrite` | ficlib2.c:454-487 | on success exactly the register is set, FREQ was seen low and all pins are inputs; a call fails if and only if there was a fault, and is then carried out in full or not at all; the stream's address is no register |
| `Link.Host.FicRead` | ficlib2.c:492-534 | the register's value, or the stream's first bytes, or -1 if and only if there was a fault; what the device has stored does not change |
| `Link.Host.WriteThenRead` | ficlib2.c:454-534 | after a write that got through and any writes to other registers, got through or not, a read gives the low 8 bits on mk1 and all 16 on mk2 |
| `Cuts.HeadLeft` | ficfuse.c:259-276 | the subtraction of the head word's length wraps around exactly when the request does not reach the word boundary |
| `Cuts.ShortWriteWraps` | ficfuse.c:253-261 | one byte at offset 1 makes `size_left` wrap around |
| `Cuts.WriteCallsTile` | ficfuse.c:238-307 | every DDR call of a write is a positive multiple of four bytes within the memory; its writes tile the words of the request without gap or overlap |
| `Cuts.ReadCallsTile` | ficfuse.c:107-169 | the same for reads, which tile the request iff they are not cut short |
| `Cuts.DdrCallFits` | ficlib2.c:597-605 | such calls pass the length checks of both boards, and their addresses and sizes fit the header |
| `Cuts.ReadExact` | ficfuse.c:140-169 | a read returns the memory's bytes for all contents iff it is not cut short |
| `Cuts.ReadCutShort` | ficfuse.c:142-153 | which requests are cut short, in terms of offset and size |
| `Cuts.LongReadFails` | ficfuse.c:142-153 | a read of 2^31 + 1 bytes from offset 0 fetches a single word |
| `Cuts.AllButLast` | ficfuse.c:87-98 | the bytes some accepted request covers are all of the four gigabytes but the last |
| `Flat.StoreExplained` | ficfuse.c:238-307 | a stored range makes every byte in it the latest and keeps the history of all others |
| `Flat.SpoilExplained` | ficfuse.c:339-341 | a failed write costs the knowledge of its own words and of no others |
| `Flat.WrittenStays` | ficfuse.c:238-307 | in every run, failed writes included, a byte keeps the value written to it through everything that misses it |
| `Flat.DisjointStoresCommute` | ficfuse.c:238-307 | disjoint writes do not disturb each other, whatever their order |
| `Fuse.SpliceInWord` | ficfuse.c:249-264 | writing back a word with some bytes replaced replaces exactly those bytes |
| `Fuse.SpliceMore` | ficfuse.c:285-291 | storing the next bytes behind those already stored is storing them all at once |
| `Fuse.JobGrows` | ficfuse.c:238-307 | each transfer of a write, failed or not, keeps every word outside the request, and if its effect is known exactly extends the stored prefix or not |
| `Fuse.Mount.ModifyWord` | ficfuse.c:248-274 | read-modify-write of a word replaces exactly the given bytes, whatever the low address bits; a failed one changes no other word, and if the DDR module buffers replaces all of the bytes or none |
| `Fuse.Mount.DdrWrite` | ficfuse.c:229-236 | each transfer is made with the GPIO open and the link reset since, and changes nothing outside its own words |
| `Fuse.Mount.WriteTail` | ficfuse.c:283-302 | body and last word together store exactly the bytes left; a failure in between changes no word outside the request, and if the DDR module buffers leaves a prefix stored |
| `Fuse.Mount.Write` | ficfuse.c:211-343 | the whole write: refusals, failure if and only if there was a fault other than the ignored one, the wrap-around, or exactly `[offset, offset + size)` replaced; whatever fails, nothing outside the aligned hull of the request changes, and if the DDR module buffers a prefix is stored and nothing else; DDR calls are made only with the GPIO open and the link reset, or, if it cannot be opened, not at all, and it is closed again; every byte stays explained by the run so far |
| `Fuse.Mount.ReadTail` | ficfuse.c:142-162 | body and last word are read, or only the last word's length at the body's place when the body is too long |
| `Fuse.Mount.Read` | ficfuse.c:79-209 | the whole read: refusals, failure if and only if there was a fault other than the ignored one, or the memory's bytes as far as the read is not cut short; the memory does not change; DDR calls are made only with the GPIO open and the link reset, and it is closed again |
| `Areas.SearchStuck` | mmalloc.c:65-77 | behind a hole that is too small the candidate address never moves again |
| `Areas.FreeSizeHolds` | mmalloc.c:59-59 | the length reserved is more than the request by at most a block, and wraps around to 0 exactly for requests that reach into the last block of `size_t` |
| `Areas.KeepsSpacedIff` | mmalloc.c:58-77 | the new entry keeps the list sorted with a guard block between areas iff there is no hole or the first one is larger than the request |
| `Areas.AllocateKeepsSpacedIff` | mmalloc.c:56-136 | the same for a successful call, for every requested size |
| `Areas.OverlapsIff` | mmalloc.c:58-77 | from a sorted list with guard blocks, the area chosen overlaps a live one iff there is a hole and the first one is smaller than the request |
| `Areas.AllocateKeepsDisjointIff` | mmalloc.c:56-136 | so a successful call keeps all live areas apart iff there is no hole or the first one holds the request |
| `Areas.DisjointIsNotKept` | mmalloc.c:56-136 | from a list with guard blocks, two requests that both hold in the first hole, of which the second overlaps the first |
| `Areas.ReleaseKeepsSpaced` | mmalloc.c:139-165 | freeing keeps the list sorted with guard blocks |
| `Areas.MixedRun` | mmalloc.c:56-165 | a run with requests of any size keeps the list sorted with guard blocks throughout iff each success finds no hole or a larger first one; then no live areas ever overlap |
| `Areas.MixedSizesOverlap` | mmalloc.c:69-73 | a run of five calls that ends with two live areas on top of each other |
| `Areas.UniformRun` | mmalloc.c:56-165 | every run whose requests round to one length keeps its areas on distinct slots |
| `Areas.UniformAllocation` | mmalloc.c:56-136 | in such a run live areas never overlap, a request gets the lowest free slot, and is refused for space iff that slot ends past the limit |
| `Areas.CallKeepsPointer` | mmalloc.c:112-165 | one call changes neither the liveness nor the address of a pointer it does not free, and pointers stay distinct |
| `Areas.AddressIsStable` | mmalloc.c:168-178 | over any run a live pointer is answered with the address chosen at its allocation |
| `Areas.ReleaseUndoesAllocate` | mmalloc.c:139-165 | freeing what was just allocated restores the list |
| `Areas.FirstAreaAtZero` | mmalloc.c:57-82 | the first area of every allocator lies at 0, within its window iff the offset is 0 |
| `Areas.AreasHoldRequests` | mmalloc.c:56-165 | in every run each live area holds what its caller asked for, with at most a block to spare, and ends within the limit |
| `Areas.RequestsStayApart` | mmalloc.c:56-165 | in runs in which each success finds no hole or a larger first one, and in runs whose requests round to one length, no two live areas share a byte either caller asked for |
| `Areas.UnknownPointer` | mmalloc.c:139-178 | a pointer that was freed, or was never allocated, is answered with 0 until it is allocated |
| `Mmalloc.Allocator.constructor` | mmalloc.c:12-28 | an allocator starts with a sentinel and no areas, whatever its offset |
| `Mmalloc.Allocator.FindPlace` | mmalloc.c:58-77 | the loop over the links finds the place and the address the search function gives |
| `Mmalloc.Allocator.AddEntry` | mmalloc.c:112-133 | insertion and append keep both directions of links consistent and add exactly the entry |
| `Mmalloc.Allocator.Mmalloc` | mmalloc.c:56-136 | result and new list are those of the allocation function |
| `Mmalloc.Allocator.Mfree` | mmalloc.c:139-165 | removes exactly the first entry with the pointer, links consistent in both directions |
| `Mmalloc.Allocator.MgetPhyAddr` | mmalloc.c:168-178 | the address of the entry with the pointer, or 0 |

## Left out

- The `/reg` file of ficfuse.c, directory listing, attributes and truncation: plumbing around calls
  modelled here.
- `gpio_lock`, `gpio_unlock`, and the inside of `fic_gpio_open` and `fic_gpio_close`: files and
  `mmap`; only that transfers lie between an open and its close is modelled.
- The asynchronous programming functions: a thread and a buffer copy around the synchronous ones.
- Wall-clock time, hold times, dummy register reads and progress messages.
- `fic_hls_start`, `fic_hls_reset`, `fic_hls_receive`, `fic_done`, `fic_power` and the AXI commands
  of the DDR module: register accesses and transfers of the kind modelled, without a rule of
  their own.
- `mmsync`, `mmread` and `minfo`: loops over the list that only read it. The contents of mapped
  memory, and the leak of a list entry when `mmap` fails, are not modelled.
- The Python wrapper, its tools and the hardware test programs.
- Pointers with their top bit set, which `mmalloc` takes for a failed `mmap`, count as a failure of
  `mmap`.
- Link.Host.DdrRead: reads, and the contracts of `HlsSend`, `DdrWrite`, `FicWrite` and the `/mem`
  file, are stated for a prompt device; with another one words can be lost without an error, and
  a write can then end up anywhere.
- Fuse.Mount.Write: after the wrap-around of a write inside one word the program's behaviour is
  undefined; the model stops at the transfer that would leave the buffer and promises nothing of
  what follows, so that no further call can be reasoned about.

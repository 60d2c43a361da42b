# Verified models of the Telink BLE SDK's algorithms and protocol machines

The SDK for Telink's 826x chips is mostly register setting, but a handful of its files hold
self-contained algorithms and protocol state machines. This project models those files in Dafny
and proves what their callers rely on:

- **Software CRC** (`Words`, `Gf2`, `CrcForms`, `Crc`): a machine word is the sequence of its bits. The bitwise CRC-16 and
  CRC-32, the table form in both bit orders and the reflected CRC-16 are proved against polynomial
  division over GF(2), with linearity, check values and burst detection.
- **USB CDC transport and UART queue** (`CdcTransport`, `UsbCdc`, `CdcReceive`): every entry point is a transition on a value, a class with the
  driver's fields refines the transitions, and the theorems hold for every interleaving of writes, interrupts and
  deferred callbacks.
- **printf** (`PrintText`, `PrintFormat`, `Printf`): the text of numbers with a reader that undoes it, the format language with a
  grammar, and the routines over memory with a cursor.
- **Bit-banged I2C master** (`I2cWire`, `I2c`): the master moves two open-drain wires, and an independent listener decodes the trace.
- **USB control endpoint** (`UsbControl`, `UsbClass`): fragmentation of descriptor responses over SETUP and DATA events, and the
  class requests with the report that writes and reads the chip's registers.
- **Ring FIFO** (`MyFifo`), **hex dump and reader** (`HexText`), **packet-format matcher** (`PacketFormat`), **ADC sample filter** (`Battery`), **pull-resistor registers** (`GpioPull`).
- `Common` holds the types that these share.

Where the source changes state in place the model is a class or a method over arrays, and its `ensures` ties the new state to a
function of the old one; what is promised of the operation is then proved of that function.

## What turned out not to hold

Each of these is stated exactly, as an equivalence, or with a concrete run.

- A write of no bytes to the UART is accepted, sent at once or queued, and never finishes. After any run of events the driver can
  get back to idle if and only if no empty buffer was written in it (`DrainsIff`, `RunDrainsIff`, `WriteFinishesIff`, `EmptyWedges`).
- The pending queue is first-in first-out all through a run if and only if no event in it overtakes: no write finds the driver free
  with older buffers waiting, and no callback has to put the buffer it fetched back behind another. Without writes between a
  completion and its callback neither happens (`RunOrder`, `StepOrder`, `QuietRunInOrder`, `OvertakingRun`).
- A buffer that is a whole number of packets is sent without an empty last packet, so the driver's own receiver
  delivers it only at the time-out, or joined to the next buffer (`SentIsReceived`, `BoundariesKept`, `SenderToReceiver`).
- Left-aligned and zero-padded numbers get zeros behind their digits and read back changed (`NumberReadsBack`).
- Printing two formats one after the other is not always printing them joined: a bare percent sign at the end of the first prints
  nothing, and joined to another it prints one; and arguments left over by the first are taken by the second. Those are the only
  two ways to fail (`ComposesIff`, `BarePercent`).
- A format cut off after a flag or width takes the interpreter past the terminator (`StopsOnTerminator`).
- An I2C write whose last byte is not acknowledged, and every I2C read, ends with a second START on the wires (`TransactionHeard`, `BurstRead`).
- An interface-level descriptor request for something the interface does not have is answered with what was left of the
  previous response, if anything was left of it, unless it is a report descriptor that is asked for: that request stalls
  (`InterfaceRequestLeaks`).
- `my_fifo_push` admits a payload one byte too long for its slot, which damages the oldest entry of an otherwise full ring unless
  the slot is the last, and then leaves the buffer; and the slots alias unless their number is a power of two
  (`SpillIff`, `Push`, `SlotsApartIff`).
- The packet display shows only the first byte of a field of no byte or of more than four, and a time stamp instead of its bytes; every
  other field reads back (`FieldReadsBack`).
- Two of the four CRC generators let errors with an odd number of wrong bits through (`OddDetection`, `GeneratorsDetectOdd`).
- The reader of hexadecimal text takes the terminator for half of a pair, and goes on with what is behind it, exactly when the text
  does not break into pairs (`HexText.StopsOnTerminator`).

## Model

| member | source | states |
|---|---|---|
| `Words.ShiftLeftArithmetic` | ble_lt_sdk/proj/simu/crc_sw.c:118-124 | shifting a bit into a word doubles the unsigned number and wraps exactly when the top bit is set |
| `Words.ShiftRightArithmetic` | ble_lt_sdk/proj/simu/crc_sw.c:194-199 | the low bit and the right shift are parity and halving of the unsigned number |
| `Words.NotArithmetic` | ble_lt_sdk/proj/simu/crc_sw.c:79-81 | the complement of a word is what its number lacks to all ones |
| `Words.ByteArithmetic` | ble_lt_sdk/proj/simu/crc_sw.c:118-124 | a byte is the sum of its bits' weights, the first being 128 |
| `Gf2.DivideIsRemainder` | ble_lt_sdk/proj/simu/crc_sw.c:115-139 | the register ends on the one remainder of schoolbook division by x^w + generator: that value is a remainder, and nothing else is |
| `Gf2.CrcIsRemainder` | ble_lt_sdk/proj/simu/crc_sw.c:108-141 | the CRC is M(x)·x^w modulo the generator, for every message, width and generator |
| `Gf2.CrcOfOne` | ble_lt_sdk/proj/simu/crc_sw.c:115-139 | the message 1, after any number of zeros, has the generator for its CRC |
| `Gf2.CrcXor` | ble_lt_sdk/proj/simu/crc_sw.c:115-139 | XOR-linearity of the CRC in messages of equal length |
| `Gf2.CrcLeadingZeros` | ble_lt_sdk/proj/simu/crc_sw.c:113-139 | zero bits in front of a message do not change its CRC |
| `Gf2.CrcAppended` | ble_lt_sdk/proj/simu/crc_sw.c:108-141 | a message followed by its CRC has CRC zero; with an odd generator exactly its CRC does that |
| `Gf2.StepKeepsNonZero` | ble_lt_sdk/proj/simu/crc_sw.c:131-139 | with an odd generator the shift-and-reduce step never turns a non-zero register into zero |
| `Gf2.BurstDetection` | ble_lt_sdk/proj/simu/crc_sw.c:108-185 | every burst of at most w bits in every message changes the CRC if and only if the generator is odd |
| `Gf2.OddDetection` | ble_lt_sdk/proj/simu/crc_sw.c:108-185 | every error with an odd number of wrong bits in every message changes the CRC if and only if the generator without its leading term has an odd number of ones |
| `CrcForms.CheckBytes` | ble_lt_sdk/proj/simu/crc_sw.c:108-185 | the check-value law for messages and check values in bytes |
| `CrcForms.DamageDetected` | ble_lt_sdk/proj/simu/crc_sw.c:108-185 | bytes XORed with one burst no longer than the register have another CRC |
| `CrcForms.DirectIsCrc` | ble_lt_sdk/proj/simu/crc_sw.c:144-185 | the customary byte-at-a-time loop from a zero register computes the same CRC as the augmented division |
| `CrcForms.DirectIsRemainder` | ble_lt_sdk/proj/simu/crc_sw.c:77-103 | from any start value the byte loop ends on the remainder of the augmented message with that value XORed onto its first bits, and on nothing else |
| `CrcForms.EntryOfOne` | ble_lt_sdk/proj/simu/crc_sw.c:53-72 | the table entry of the byte 1, and its CRC, are the generator |
| `CrcForms.EntryRightOfTop` | ble_lt_sdk/proj/simu/crc_sw.c:53-72 | with the low bit first the entry and CRC of the byte 0x80 are the reversed generator |
| `CrcForms.TurnByTable` | ble_lt_sdk/proj/simu/crc_sw.c:92-96 | eight turns of any register are one look-up of its top byte and a shift by eight |
| `CrcForms.EntriesMirror` | ble_lt_sdk/proj/simu/crc_sw.c:53-72 | the entry of a reversed byte in the right-shifting table is the reversed entry of the byte in the other |
| `CrcForms.LsbFirstMirrors` | ble_lt_sdk/proj/simu/crc_sw.c:237-253 | mirroring register, generator and every byte mirrors the result, for every message |
| `CrcSw.GeneratorNumbers` | ble_lt_sdk/proj/simu/crc_sw.h:12-15 | the generators are the numbers 0x1021, 0x8005, 0x8bb7 and 0x04c11db7, the reversed ones 0x8408 and 0xedb88320 |
| `CrcSw.ReversedPolys` | ble_lt_sdk/proj/simu/crc_sw.c:55-55 | the constant 0xedb88320 is the mirror image of CRC_MODE3_POLY, and 0x8408 that of CRC_MODE0_POLY |
| `CrcSw.GeneratorsDetectBursts` | ble_lt_sdk/proj/simu/crc_sw.h:12-15 | all four generators of the header detect every burst no longer than themselves |
| `CrcSw.GeneratorsDetectOdd` | ble_lt_sdk/proj/simu/crc_sw.h:12-15 | of the four generators of the header, the first two and no others detect every error with an odd number of wrong bits |
| `CrcSw.Bitwise` | ble_lt_sdk/proj/simu/crc_sw.c:108-185 | the result is the CRC of the message that was in the buffer; the message bytes are left zero and the rest of the buffer as it was |
| `CrcSw.ReverseBits` | ble_lt_sdk/proj/simu/crc_sw.c:189-232 | the shifting loop reverses the bits of a word of any width |
| `CrcSw.Crc16Calc` | ble_lt_sdk/proj/simu/crc_sw.c:237-253 | equals a right-shifting, low-bit-first CRC with generator 0x8408 from zero, for every length from 1 to 128, and is the reversed CRC of the reversed bytes; the caller's array is not written |
| `CrcSw.Crc32.BuildTable` | ble_lt_sdk/proj/simu/crc_sw.c:53-72 | entry i is eight turns of i in the bit order asked for |
| `CrcSw.Crc32.CalcCrc` | ble_lt_sdk/proj/simu/crc_sw.c:86-103 | the table loop equals the loop without a table, from any checksum, in both bit orders |
| `CrcSw.Crc32.GetCrc` | ble_lt_sdk/proj/simu/crc_sw.c:77-82 | most significant bit first, the CRC that the bitwise routine computes; the other way, the mirrored complement of the remainder of the message with its first 32 bits complemented, as in clause 3.2.9 of IEEE 802.3, whatever its length |
| `CdcTransport.ChunksCover` | ble_lt_sdk/proj/app/usbcdc.c:255-270 | the packets of a buffer rejoin to it, all but the last are full, the last has at most E bytes and is not empty |
| `CdcTransport.RunKeeps` | ble_lt_sdk/proj/drivers/usb_uart.c:105-187 | every interleaving of writes, empty ones included, IRQs and callbacks keeps: indices in step, each buffer in exactly one place, callbacks in completion order, nothing stranded, the endpoint given the finished buffers and the start of this one |
| `CdcTransport.RunSafe` | ble_lt_sdk/proj/app/usbcdc.c:245-326 | from start-up on, no buffer is completed or freed more often than written, and the endpoint's bytes are exactly the finished buffers and the sent part of the one in flight |
| `CdcTransport.PacketsSent` | ble_lt_sdk/proj/app/usbcdc.c:245-292 | an event with the endpoint busy gives it nothing, and a busy IRQ changes nothing; with the endpoint free it is given exactly one packet of the first E bytes, or all, of what is left of the transfer or of the buffer that is submitted to a free driver, if there is any |
| `CdcTransport.StepOrder` | ble_lt_sdk/proj/drivers/usb_uart.c:115-122 | a step keeps first-in first-out order if and only if it is neither a write that finds the driver free with older buffers waiting nor a callback that must requeue behind another |
| `CdcTransport.RunOrder` | ble_lt_sdk/proj/drivers/usb_uart.c:105-187 | a run is in order at the start and after every event if and only if none of its events overtakes |
| `CdcTransport.QuietRunInOrder` | ble_lt_sdk/proj/drivers/usb_uart.c:168-187 | order holds over every run in which no write falls between a completion and its callback |
| `CdcTransport.OvertakingRun` | ble_lt_sdk/proj/drivers/usb_uart.c:168-187 | a run of three writes in which the third overtakes the second |
| `CdcTransport.Drains` | ble_lt_sdk/proj/drivers/usb_uart.c:105-123 | from every reachable state in which every buffer written has bytes, a bounded number of IRQs and callbacks frees exactly those and leaves the driver idle |
| `CdcTransport.EmptyWedges` | ble_lt_sdk/proj/app/usbcdc.c:256-261 | after a write of no bytes, whatever follows, nothing more is sent or completed |
| `CdcTransport.DrainsIff` | ble_lt_sdk/proj/drivers/usb_uart.c:105-187 | from every reachable state some continuation takes the driver back to idle, with every buffer freed, if and only if no empty buffer was ever written |
| `CdcTransport.RunDrainsIff` | ble_lt_sdk/proj/drivers/usb_uart.c:105-187 | the same of every run of events from start-up, in terms of the writes among them |
| `CdcTransport.WriteFinishesIff` | ble_lt_sdk/proj/app/usbcdc.c:255-292 | after a write in any reachable state, to a free driver or behind a transfer, the driver can get back to idle if and only if it could before and the write has bytes |
| `UsbCdc.UsbUart.SendBulkData` | ble_lt_sdk/proj/app/usbcdc.c:245-295 | one packet per call if the endpoint is free: the fields become those of the transition |
| `UsbCdc.UsbUart.SendData` | ble_lt_sdk/proj/app/usbcdc.c:301-320 | busy and unchanged while a transfer is on; otherwise begins one |
| `UsbCdc.UsbUart.UartWrite` | ble_lt_sdk/proj/drivers/usb_uart.c:168-187 | the fields become those of the write transition, with the status |
| `UsbCdc.UsbUart.TxFinishCb` | ble_lt_sdk/proj/drivers/usb_uart.c:105-123 | frees the buffer and submits the oldest pending one |
| `UsbCdc.UsbUart.Drive` | ble_lt_sdk/proj/drivers/usb_uart.c:105-187 | the driver run on any list of events ends in the state the transitions lead to |
| `CdcReceive.ReceiveConserves` | ble_lt_sdk/proj/app/usbcdc.c:184-241 | over every sequence of packets and time-outs, messages and the open part are exactly the bytes that arrived, in order; an open part always has its timer on |
| `CdcReceive.DeliveriesCounted` | ble_lt_sdk/proj/app/usbcdc.c:184-241 | over every sequence of packets and time-outs the messages are as many as the short packets and the time-outs that found full packets waiting, and the timer is on exactly when bytes are open |
| `CdcReceive.MessageArrives` | ble_lt_sdk/proj/app/usbcdc.c:203-241 | full packets and a short one, the empty one included, or a time-out, are one message with what was open before them, and leave nothing open and no timer on |
| `CdcReceive.SentIsReceived` | ble_lt_sdk/proj/app/usbcdc.c:203-320 | a sent buffer arrives as one message at its last packet if and only if it is not a whole number of packets; otherwise at the time-out |
| `CdcReceive.BoundariesKept` | ble_lt_sdk/proj/app/usbcdc.c:203-320 | buffers sent one after another arrive as messages of their own if and only if none is a whole number of packets |
| `CdcReceive.SenderToReceiver` | ble_lt_sdk/proj/app/usbcdc.c:184-326 | after every run of the sender the receiver has exactly the bytes of the completed buffers and of the sent part of the one in flight, in order, and the completed buffers as its messages if and only if none is a whole number of packets |
| `CdcReceive.Receiver.Drive` | ble_lt_sdk/proj/app/usbcdc.c:184-241 | the driver run on any packets and time-outs, with room for each packet, ends in the state of the specification |
| `CdcReceive.Receiver.RecvData` | ble_lt_sdk/proj/app/usbcdc.c:203-241 | a packet extends the buffer; a short one delivers it and starts a fresh one at index zero |
| `CdcReceive.Receiver.RecvTimeoutCb` | ble_lt_sdk/proj/app/usbcdc.c:184-200 | the time-out delivers what has come and starts a fresh buffer |
| `PrintText.NumberReadsBack` | ble_lt_sdk/proj/common/printf.c:82-122 | for every 32-bit value, base, width and padding the text reads back as the value if and only if no zeros are written behind the digits |
| `PrintText.NumberWidth` | ble_lt_sdk/proj/common/printf.c:82-122 | the text is as long as the greater of the width and the natural length |
| `PrintText.TenDigits` | ble_lt_sdk/proj/common/printf.c:79-109 | an unsigned 32-bit number has at most ten digits, so that they, a sign and a NUL fit twelve characters |
| `PrintText.DigitsCase` | ble_lt_sdk/proj/common/printf.c:103-109 | only digits, and letters of the case asked for |
| `PrintText.DigitsAreRead` | ble_lt_sdk/proj/common/printf.c:103-109 | the reader takes the sixteen digits in either case for what they are |
| `PrintText.PlacesAreRead` | ble_lt_sdk/proj/common/printf.c:103-109 | and each further digit counts those before it ten- or sixteenfold |
| `PrintFormat.PlainPrinted` | ble_lt_sdk/proj/common/printf.c:177-181 | a string without percent signs prints as it stands |
| `PrintFormat.WidthReadsBack` | ble_lt_sdk/proj/common/printf.c:144-148 | the interpreter reads back the decimal width that is written |
| `PrintFormat.StringPrinted` | ble_lt_sdk/proj/common/printf.c:149-153 | %s of any flags and width prints the string itself, or (null), filled up with blanks or zeros on the side asked for |
| `PrintFormat.CharPrinted` | ble_lt_sdk/proj/common/printf.c:170-176 | %c prints the character of the low byte, or nothing for a zero byte, filled up likewise |
| `PrintFormat.NumberPrinted` | ble_lt_sdk/proj/common/printf.c:154-169 | from the format string: %d reads back as the int, %u, %x and %X as the unsigned, exactly unless zeros are written behind it; width, place and letter case |
| `PrintFormat.PlainNumberPrinted` | ble_lt_sdk/proj/common/printf.c:82-122 | 0 for zero, no other leading zeros, and a minus sign exactly for a negative %d |
| `PrintFormat.OthersPrintNothing` | ble_lt_sdk/proj/common/printf.c:149-178 | a directive of any other conversion prints nothing and takes no argument |
| `PrintFormat.ConversionReadsBack` | ble_lt_sdk/proj/common/printf.c:154-169 | what a reader recovers from %d, %u, %x and %X, and exactly when |
| `PrintFormat.RenderedMeans` | ble_lt_sdk/proj/common/printf.c:124-186 | a string built from literals, percent signs and directives prints as the sequence of their meanings |
| `PrintFormat.StopsOnTerminator` | ble_lt_sdk/proj/common/printf.c:129-148 | the interpreter stops on the terminator exactly for the strings of the grammar, with or without a last bare percent sign; any other takes it one past |
| `PrintFormat.ComposesIff` | ble_lt_sdk/proj/common/printf.c:124-186 | a format with its arguments can be joined to every other, so that the texts come one after the other, if and only if its directives take all its arguments and it does not end in a bare percent sign |
| `PrintFormat.BarePercent` | ble_lt_sdk/proj/common/printf.c:129-136 | a percent sign alone prints nothing, two print one |
| `Printf.Sink.Prints` | ble_lt_sdk/proj/common/printf.c:46-77 | emits the padded string, returns its length and changes no other memory |
| `Printf.Sink.Printi` | ble_lt_sdk/proj/common/printf.c:82-122 | emits the text of the number and returns its length, inside a buffer of twelve characters |
| `Printf.Sink.Print` | ble_lt_sdk/proj/common/printf.c:124-186 | emits what the format means, returns how many characters, adds one uncounted NUL in memory, and reads nothing past the format's terminator |
| `Printf.MySprintf` | ble_lt_sdk/proj/common/printf.c:194-198 | the destination begins with the text and a NUL, and is unchanged behind them |
| `Printf.MyPrintf` | ble_lt_sdk/proj/common/printf.c:188-192 | sends the text that the format means and returns its length |
| `I2cWire.ConditionsAreEdges` | ble_lt_sdk/proj/drivers/i2c.c:546-572 | on every trace of the wires STARTs and STOPs are heard exactly where SDA falls and rises while SCL stays high |
| `I2cWire.PulseIsBit` | ble_lt_sdk/proj/drivers/i2c.c:574-579 | a clock pulse with SDA still is a bit of its level |
| `I2cWire.BitsWeigh` | ble_lt_sdk/proj/drivers/i2c.c:590-597 | the bits of a byte on the wires are those of its number, the heaviest first |
| `I2cWire.DecodeTransaction` | ble_lt_sdk/proj/drivers/i2c.c:590-597 | START, frames, STOP decode to the frames |
| `I2c.TransactionHeard` | ble_lt_sdk/proj/drivers/i2c.c:563-572 | a listener makes out the transaction if and only if its last byte is acknowledged |
| `I2c.Bus.SimStop` | ble_lt_sdk/proj/drivers/i2c.c:563-572 | one STOP, after a START in place of the bit on the wires if SDA was high |
| `I2c.Bus.WriteByte` | ble_lt_sdk/proj/drivers/i2c.c:590-597 | eight data bits, most significant first, and the slave's answer, which is returned |
| `I2c.Bus.ReadByte` | ble_lt_sdk/proj/drivers/i2c.c:599-611 | the byte the slave drives, answered with the level passed in |
| `I2c.Bus.ReadFrames` | ble_lt_sdk/proj/drivers/i2c.c:645-647 | each frame of a read holds the byte that goes into the buffer, whose bits are what the slave drives, and only the last is not acknowledged |
| `I2c.Bus.ReadIdIsOdd` | ble_lt_sdk/proj/drivers/i2c.c:643-643 | the id of the second address is the first with its lowest bit set |
| `I2c.Bus.BurstWrite` | ble_lt_sdk/proj/drivers/i2c.c:652-661 | what is heard on the wires is one transaction of id, address and data in order, whatever the slave answers |
| `I2c.Bus.BurstRead` | ble_lt_sdk/proj/drivers/i2c.c:629-650 | the buffer gets exactly what the slave drives, every byte but the last is acknowledged, and the rest of the buffer is unchanged |
| `UsbControl.DescriptorDelivered` | ble_lt_sdk/proj/drivers/usb.c:88-294 | the replies to a descriptor request, of the device or of an interface, and any number of DATA events join to a prefix of the wanted bytes, all of them once there are enough, no packet over eight bytes, the first short one where the data ends |
| `UsbControl.DescriptorBytes` | ble_lt_sdk/proj/drivers/usb.c:88-294 | from the bytes of the SETUP packet and the compiled-in descriptors: which descriptor goes out, and every packet of it |
| `UsbControl.OthersStall` | ble_lt_sdk/proj/drivers/usb.c:582-666 | exactly which other standard requests stall, from the bytes of the SETUP packet |
| `UsbControl.DeviceRequestForgets` | ble_lt_sdk/proj/drivers/usb.c:107-112 | a device descriptor request leaves nothing of any response or request before it |
| `UsbControl.InterfaceRequestLeaks` | ble_lt_sdk/proj/drivers/usb.c:189-294 | an interface that has the descriptor answers with its beginning; one that has not stalls if and only if a report descriptor is asked for, and answers with bytes of the old response if and only if it does not stall, some were left and the host asks for any |
| `UsbControl.AccessKept` | ble_lt_sdk/proj/drivers/usb.c:298-511 | over every run of requests without the data stage of a custom report, registers and the data last read stay as they are |
| `UsbControl.RegistersReadBack` | ble_lt_sdk/proj/drivers/usb.c:328-466 | a host that writes core registers, later reads four at any address and later fetches the report gets the bytes it wrote where the two overlap and the old bytes elsewhere, whatever other requests it makes in between |
| `UsbControl.HostReadsBack` | ble_lt_sdk/proj/drivers/usb.c:328-466 | the same from the bytes of the packets, addresses and widths included |
| `UsbControl.PairingReplied` | ble_lt_sdk/proj/drivers/usb.c:456-465 | after a custom report that is no register command the reply tells whether pairing is done |
| `UsbControl.ClassStalls` | ble_lt_sdk/proj/drivers/usb.c:298-507 | exactly which class requests of an interface stall |
| `UsbControl.FeatureReport` | ble_lt_sdk/proj/drivers/usb.c:315-318 | the data stage of a feature report sets the keyboard status and nothing else |
| `UsbControl.SettingsReadBack` | ble_lt_sdk/proj/drivers/usb.c:389-400 | after any events the idle rate and the protocol read back as last set |
| `UsbClass.CommandBytes` | ble_lt_sdk/proj/drivers/usb.c:338-384 | from the eight bytes of a command: which registers it reads or writes, core or analog, where, how many, and nothing else |
| `UsbClass.AnalogWriteThenRead` | ble_lt_sdk/proj/drivers/usb.c:375-382 | an analog register read after a write: the byte written, if it is the same register, and three zeros |
| `UsbControl.Endpoint.HandleCustomReport` | ble_lt_sdk/proj/drivers/usb.c:331-384 | the eight bytes of a custom report do what the command function says: shifts and byte writes come to reading and writing whole words |
| `UsbControl.Endpoint.SendResponse` | ble_lt_sdk/proj/drivers/usb.c:88-105 | the packet and the advanced response |
| `UsbControl.Endpoint.HandleSetup` | ble_lt_sdk/proj/drivers/usb.c:668-681 | the globals and the reply become those of the SETUP transition |
| `UsbControl.Endpoint.HandleData` | ble_lt_sdk/proj/drivers/usb.c:683-691 | the globals and the reply become those of the DATA transition |
| `UsbControl.Endpoint.Serve` | ble_lt_sdk/proj/drivers/usb.c:582-691 | the handlers run on any SETUP and DATA events end in the state the transitions lead to |
| `UsbControl.Endpoint.Transfer` | ble_lt_sdk/proj/drivers/usb.c:582-691 | a whole control-in transfer driven through the handlers delivers what the host wanted |
| `MyFifo.SlotsApartIff` | ble_lt_sdk/proj/common/utility.c:193-200 | masking a counter keeps entries fewer than num apart in different slots if and only if num is a power of two |
| `MyFifo.WrappedSlot` | ble_lt_sdk/proj/common/utility.c:202-228 | the byte counter stands for the same slot as the unbounded one, across every wrap |
| `MyFifo.SpillIff` | ble_lt_sdk/proj/common/utility.c:214-221 | a push of n bytes leaves everything outside its slot alone, whatever the memory and the payload, if and only if n + 2 bytes fit the slot; this holds of the last slot too |
| `MyFifo.Fifo.Push` | ble_lt_sdk/proj/common/utility.c:207-223 | a bounded queue's push: refused when full or too long, else appended with length and payload as far as they fit; the entries before it are unchanged, except that one byte too many falls on the oldest exactly when one slot was left and it is not the last |
| `MyFifo.Fifo.Wptr` | ble_lt_sdk/proj/common/utility.c:193-200 | not null exactly when there is room, and then the free slot |
| `MyFifo.Fifo.Next` | ble_lt_sdk/proj/common/utility.c:202-205 | appends what is in the free slot |
| `MyFifo.Fifo.FillNext` | ble_lt_sdk/proj/common/utility.c:193-205 | a slot filled through the pointer and then released to the queue is its newest entry and disturbs no other |
| `MyFifo.LengthReadsBack` | ble_lt_sdk/proj/common/utility.c:218-221 | the two length bytes give the length back if and only if it is less than 65536, and the payload is behind them |
| `MyFifo.QueueConserves` | ble_lt_sdk/proj/common/utility.c:193-238 | over any operations a bounded queue: at most num entries, and those taken out followed by those still there are those added, with what was put into them if no payload was one byte too long |
| `MyFifo.OperationsDo` | ble_lt_sdk/proj/common/utility.c:193-238 | what each operation of that queue adds and takes, and when |
| `MyFifo.Fifo.Drive` | ble_lt_sdk/proj/common/utility.c:193-238 | the ring run on any pushes, fills and takes does what that queue does: every slot taken out begins with its entry |
| `MyFifo.Fifo.Get` | ble_lt_sdk/proj/common/utility.c:230-238 | not null exactly when there is an entry, and then the oldest |
| `MyFifo.Fifo.Pop` | ble_lt_sdk/proj/common/utility.c:225-228 | removes the oldest entry and no other |
| `HexText.DumpReadsBack` | tools/vc_beacon_configurator/tl_ble_moduleDlg.cpp:213-260 | reading a dump gives back every byte, for every byte sequence |
| `HexText.DumpAt` | tools/vc_beacon_configurator/tl_ble_moduleDlg.cpp:213-237 | where the text shows each byte, high digit first in lower case, with the second blank and the line end of a line of sixteen |
| `HexText.EitherCase` | tools/vc_beacon_configurator/tl_ble_moduleDlg.cpp:144-163 | the reader takes digits of either case |
| `HexText.ReadsPair` | tools/vc_beacon_configurator/tl_ble_moduleDlg.cpp:239-260 | characters below 48 are skipped, any other is the high half of a byte whose low half is the next, and what is no digit counts 16 |
| `HexText.DumpLength` | tools/vc_beacon_configurator/tl_ble_moduleDlg.cpp:213-237 | the text before its NUL has 3n + (n+8)/16 + 2(n/16) characters |
| `HexText.Bin2Text` | tools/vc_beacon_configurator/tl_ble_moduleDlg.cpp:213-237 | writes the dump of at most 65536 bytes and a NUL, and nothing behind it |
| `HexText.StopsOnTerminator` | tools/vc_beacon_configurator/tl_ble_moduleDlg.cpp:239-260 | the reader stops on the terminator of a text if and only if the text breaks into pairs, and then reads those; otherwise it reads on behind it, and stops where the memory there makes it stop |
| `HexText.Text2Bin` | tools/vc_beacon_configurator/tl_ble_moduleDlg.cpp:239-260 | on any memory in which the reader meets a NUL, writes what it reads on the way, returns the number of bytes, and changes nothing behind them |
| `HexText.DumpAndRead` | tools/vc_beacon_configurator/tl_ble_moduleDlg.cpp:213-260 | the two routines in turn copy up to 65536 bytes |
| `PacketFormat.ComparisonMatches` | tools/vc_beacon_configurator/tl_ble_moduleDlg.cpp:655-664 | comparing under the mask is equality in exactly the bits from s to e, and of none if e < s |
| `PacketFormat.MatchesAtOffsets` | tools/vc_beacon_configurator/tl_ble_moduleDlg.cpp:644-678 | a packet matches a pattern if and only if each field matches at the sum of the widths before it |
| `PacketFormat.MatchesOnBytes` | tools/vc_beacon_configurator/tl_ble_moduleDlg.cpp:653-664 | on the bytes of packet and pattern: bits s to e of the first two bytes are those of the pattern's first two |
| `PacketFormat.OffsetNext` | tools/vc_beacon_configurator/tl_ble_moduleDlg.cpp:655-678 | each field begins behind the one before, whose width is the low half of its fourth byte |
| `PacketFormat.PatternWords` | tools/vc_beacon_configurator/tl_ble_moduleDlg.cpp:647-650 | a pattern is its words before the first zero, sixteen at most |
| `PacketFormat.FieldTextShape` | tools/vc_beacon_configurator/tl_ble_moduleDlg.cpp:166-211 | the characters of a field's text: two digits for each byte shown, the last byte first, and a blank |
| `PacketFormat.StampShown` | tools/vc_beacon_configurator/tl_ble_moduleDlg.cpp:669-672 | a field of kind 0x84 is shown as the time of its four bytes, low byte first |
| `PacketFormat.FieldReadsBack` | tools/vc_beacon_configurator/tl_ble_moduleDlg.cpp:166-211 | the text of a field reads back as the field's bytes, turned around, if and only if it has one to four and is no time stamp |
| `PacketFormat.ShownReadsBack` | tools/vc_beacon_configurator/tl_ble_moduleDlg.cpp:672-691 | the text of a matched packet reads back as all of its bytes, those of each field turned around, if the fields have one to four bytes and none is a time stamp |
| `PacketFormat.TimeReadsBack` | tools/vc_beacon_configurator/tl_ble_moduleDlg.cpp:262-273 | the text of a time stamp is the microseconds in any 32-bit count of ticks |
| `PacketFormat.Hex2Text` | tools/vc_beacon_configurator/tl_ble_moduleDlg.cpp:166-211 | writes a field's bytes, highest first, and a blank, and nothing else |
| `PacketFormat.FormatParse` | tools/vc_beacon_configurator/tl_ble_moduleDlg.cpp:637-696 | returns the least index of a pattern that matches, or -1 if none does; the text is that pattern's fields and a dump of the rest, without a trace of patterns that failed |
| `Battery.TrimmedOfPermutation` | ble_lt_sdk/proj/drivers/battery.c:41-63 | the result does not depend on the order of the samples |
| `Battery.SpikesFilteredOut` | ble_lt_sdk/proj/drivers/battery.c:36-63 | one spike up and one down leave the result in the band of all the other samples |
| `Battery.FilterData` | ble_lt_sdk/proj/drivers/battery.c:41-63 | sorts the samples in place and returns (sum - max - min)/(len - 2) of what they were, without overflow |
| `GpioPull.LayoutInjective` | ble_lt_sdk/proj/mcu_spec/gpio_8267.c:71-129 | no two pins share a field, on either chip |
| `GpioPull.PlaceNumbers` | ble_lt_sdk/proj/mcu_spec/gpio_8267.c:92-99 | the places as numbers: the first and last pin, PE2 and PE3 of the 8267 in 0x08, and every other pin where the 8266 has it |
| `GpioPull.LastCallDecides` | ble_lt_sdk/proj/mcu_spec/gpio_8266.c:82-97 | the last call for a pin decides, with the numbers 0, 1, 2 and 3 of float and the three pulls |
| `GpioPull.LadderPlaces` | ble_lt_sdk/proj/mcu_spec/gpio_8266.c:99-124 | the branches take pin k to register 0x0a + k/4 and shift 2(k mod 4), the layout that initialisation writes |
| `GpioPull.Pulls.Setup` | ble_lt_sdk/proj/mcu_spec/gpio_8266.c:82-127 | sets the pin's two bits and leaves every other field of every register alone |
| `GpioPull.SetupAll` | ble_lt_sdk/proj/mcu_spec/gpio_8267.c:71-129 | after any calls every pin has the pull last set for it |

## Left out

- Register-setting drivers, audio, ADC sampling, flash, hardware I2C, power and radio code: hardware access with no algorithm behind it.
- CDC line coding requests and the busy wait after each packet: the hardware is taken to drain eventually; whether it is busy is a parameter of each call.
- The allocator and the event scheduler: buffers are values with an identity, callbacks run in the order scheduled, allocation is taken to succeed (the source hangs otherwise), and the queue entries of `usb_uart_write` are not separate buffers.
- Writing a transmit buffer while the driver owns it: its bytes are a value fixed at the write.
- A receiver without a buffer, and messages longer than the buffer or 255 bytes: the source hangs on the first and overruns on the others; `RecvData` requires room.
- The first bytes behind a message in a delivered receive buffer, which the callback gets without a length.
- A width in a format string over 2^31 - 1, and an output of as many characters: undefined in C; widths and counts are unbounded here. Negating INT_MIN is taken to wrap, as it does on the chip.
- Variadic arguments of the wrong kind or number: undefined in C; `Print` requires that they fit.
- Clock stretching and other masters on the I2C bus, the delays, and `i2c_sim_reset_e2prom`: timing, and a reset with no data.
- Where in the low half of a clock the slave moves SDA: it moves when SCL has just fallen.
- Builds of `usb.c` with audio or somatic devices, and the Microsoft descriptors, which `usb.h` switches off: their requests stall or do nothing in the build modelled.
- Registers with a life of their own, and the re-enumeration command: registers hold what was written last, and dropping off the bus has no value to model.
- Descriptor contents and the dongle's own descriptors: the descriptors are parameters.
- The configuration file that the packet patterns come from: they are a parameter.
- The battery voltage formula, and filters of fewer than three samples, where the source divides by zero or a negative number.
- Pull settings of several pins in one call: the source documents single pins.
- `swapX`, byte-order helpers, string and sorting helpers: easy.

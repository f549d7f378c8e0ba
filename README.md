# A verified model of the lab1 reliable-data-transfer engine

This project models the reliable-data-transfer (RDT) engine in `lab1/`.
The engine is a selective-repeat sender and receiver. They exchange fixed
128-byte packets over a simulated lossy channel, and a 16-bit checksum
guards every packet. The model has six Dafny modules:

- `ChecksumTool` (`checksum.dfy`) models `checksum_tool::gen_checksum` and
  `verify_checksum`.
  - Bytes are read through a signed `char *`, so 0x80..0xFF are
    sign-extended. They are added into a 64-bit `unsigned long` that wraps
    on every addition.
  - Carries above bit 15 are folded back until none is left (the end-around
    carry of section 4.1 of RFC 1071, applied to single bytes).
  - The result is complemented and truncated to 16 bits.
  - The specification function `Checksum` is `0xFFFF - EndAroundFold(sum mod 2^64)`.
- `RdtStruct` (`rdt_struct.dfy`) holds the constants of `rdt_struct.h` and
  the packet layout.
  - The layout is a `Fields` record with `Encode`/`Decode`, taking the
    multi-byte fields as little-endian.
  - `Intact` is the checksum check that both handlers run on arriving
    packets, and `CheckPacket` implements it.
- `AckTable` (`ack_table.dfy`) models the 0/1 ack tables as `seq<bool>`.
  It defines the length of the leading run of marked slots and the count of
  marked slots.
- `RdtSender` (`rdt_sender.dfy`) has the class `Sender`.
  - Its fields are the sender's globals: `now_seqNumber`, `now_ack`,
    `sender_current_capacity`, `sender_window`, `sender_ack_table` and
    `buffer`.
  - It also has a `timerSet` flag and a ghost log `sent` of packets handed
    to the lower layer.
  - Segmentation is specified by the function `Chunks`.
- `RdtReceiver` (`rdt_receiver.dfy`) has the class `Receiver`.
  - Its fields are `now_ackNumber`, `receiver_current_capacity`,
    `receiver_window` and `receiver_ack_table`.
  - Ghost logs record the packets delivered upwards, the messages handed
    to the upper layer, and the packets echoed to the lower layer as acks.
- `RdtTransfer` (`rdt_transfer.dfy`) connects the two ends. The receiver
  reads back, as messages, exactly the chunks the sender wrote into its
  packets.

Class invariants:

- `Sender.Valid`:
  - `sender_current_capacity == |sender_window| <= WINDOW_SIZE`.
  - `now_ack + capacity + |buffer| == now_seqNumber`.
  - Every packet in flight or queued passes the checksum check and carries
    the next sequence number.
  - The ack table has `WINDOW_SIZE + 1` slots, and its first and last slots
    are unmarked.
  - Packets wait in `buffer` only behind a full window.
  - The timer is armed only while something is in flight.
- `Receiver.Valid`:
  - The window and the table have `WINDOW_SIZE` slots.
  - The capacity is the number of marked slots.
  - The front slot is unmarked after every event.
- `Receiver.InOrder`:
  - Each marked slot holds an intact packet with its own number.
  - The receiver has delivered numbers 0, 1, 2, ... in order, each once.
  - It holds as long as no intact packet arrives numbered a whole window or
    more ahead of `now_ackNumber`.

Where descriptions of the lab and its code disagree, the model follows the
code:

- The ack slide loop of `Sender_FromLowerLayer` always tests
  `sender_ack_table[0]`. This is not a defect. The erase at
  lab1/rdt_sender.cc:170 moves the next slot to index 0, so the loop
  removes exactly the leading run of marked slots. `SlideWindow` proves
  this.
- The receiver does not reassemble messages. `submitPakage` hands one
  message per packet to the upper layer. The message stream is therefore
  the sequence of chunks. `RdtTransfer.SegmentsDeliverMessage` proves that
  laid end to end they are the sender's message.

## Model

| member | source | states |
|---|---|---|
| ChecksumTool.ToSigned | lab1/checksum.cc:7 | A `char` read through a signed pointer lies in -128..127 and has the byte's bits (is congruent to it modulo 256) |
| ChecksumTool.GenChecksum | lab1/checksum.cc:3-15 | The loops compute `Checksum` of exactly the first `n` bytes (no later byte matters); `n <= 0` gives 0xFFFF; the fold loop terminates |
| ChecksumTool.AccumulatedIsSignedSum | lab1/checksum.cc:5-9 | Wrapping the `unsigned long` after each addition equals reducing the exact signed byte sum modulo 2^64 |
| ChecksumTool.FoldStep | lab1/checksum.cc:11-12 | While bits above 15 remain, a fold step strictly decreases the sum, keeps it positive and keeps its residue modulo 0xFFFF |
| ChecksumTool.FoldedIsEndAroundFold | lab1/checksum.cc:11-12 | A value below 2^16, congruent modulo 0xFFFF and zero exactly when the input is, is the end-around fold of the input |
| ChecksumTool.ChecksumResidue | lab1/checksum.cc:11-14 | The checksum is the ones'-complement of the sum modulo 0xFFFF, and is 0xFFFF exactly when the sum is zero |
| ChecksumTool.SignedSumPermutation | lab1/checksum.cc:6-9 | Any reordering of the bytes has the same signed sum |
| ChecksumTool.ChecksumPermutation | lab1/checksum.cc:6-9 | Any reordering of the summed bytes has the same checksum |
| ChecksumTool.VerifyChecksum | lab1/checksum.cc:17-22 | Accepts exactly when the supplied checksum is the one generated over the same bytes, so a generated checksum always verifies |
| AckTable.LeadingRun | lab1/rdt_sender.cc:165-176 | The run length is at most the table length, every slot before it is marked and the slot after it is not |
| AckTable.CountMark | lab1/rdt_receiver.cc:79-83 | Marking a slot raises the count by one exactly when it was unmarked |
| AckTable.LeadingRunBelowCount | lab1/rdt_receiver.cc:92-97 | The leading run is no longer than the number of marked slots |
| AckTable.CountFull | lab1/rdt_receiver.cc:85-89 | A table whose every slot is marked is one leading run |
| AckTable.CountSlide | lab1/rdt_receiver.cc:109-113 | Dropping `k` marked front slots and appending `k` unmarked ones lowers the count by `k` |
| RdtStruct.HeaderLayout | lab1/rdt_struct.h:28-34 | `HEAD_SIZE` is 7, the payload room is 121 (a non-negative `char`), header plus payload is 128, `WINDOW_SIZE` is positive |
| RdtStruct.DecodeEncode | lab1/rdt_struct.h:38-40 | Decoding an encoded well-formed record returns the same checksum, length, sequence number and payload |
| RdtStruct.EncodeDecode | lab1/rdt_struct.h:38-40 | Every packet is the encoding of its decoded fields |
| RdtStruct.Le16RoundTrip | lab1/rdt_sender.cc:86 | The stored `unsigned short` checksum reads back as written |
| RdtStruct.Le16Inverse | lab1/rdt_receiver.cc:59 | Any two checksum bytes are the encoding of what they read as |
| RdtStruct.Le32RoundTrip | lab1/rdt_sender.cc:78 | A sequence number copied into bytes 3..7 reads back as the same `int` |
| RdtStruct.Le32Inverse | lab1/rdt_receiver.cc:56 | Any four sequence bytes are the encoding of the `int` they read as |
| RdtStruct.CoveredBytes | lab1/rdt_sender.cc:113 | For a length in 0..121 the checksummed region is the length byte, the sequence number and the first `len` payload bytes |
| RdtStruct.CoveredLengthOverrunsPacket | lab1/rdt_sender.cc:153-154 | As written, a length byte of 0x7F makes the check cover bytes past the end of the 128-byte packet |
| RdtStruct.Seal | lab1/rdt_sender.cc:86 | Storing the checksum changes only bytes 0..1; if it is the checksum of the covered region, the packet then passes the check |
| RdtStruct.CheckPacket | lab1/rdt_sender.cc:152-158 | Accepts exactly the intact packets: the covered region lies inside the packet and its checksum is the stored one |
| RdtSender.ChunksCount | lab1/rdt_sender.cc:69-119 | A message of `S` bytes gives `ceil(S / 121)` packets, and none exactly when `S == 0` |
| RdtSender.ChunksSizes | lab1/rdt_sender.cc:69-119 | Every payload has 1 to 121 bytes and all but the last exactly 121: no empty final packet |
| RdtSender.ChunkAt | lab1/rdt_sender.cc:69-94 | While more than 121 bytes remain past `cursor`, the loop's packet carries bytes `cursor..cursor+121` and is not the last |
| RdtSender.ChunksLast | lab1/rdt_sender.cc:97-119 | When 1 to 121 bytes remain, they form the last packet |
| RdtSender.ChunksConcat | lab1/rdt_sender.cc:82-110 | The payloads laid end to end are the message |
| RdtSender.WritePacket | lab1/rdt_sender.cc:101-114 | The written packet passes the receiving check, carries the chunk and the sequence number, and keeps the old bytes past the payload |
| RdtSender.Sender.constructor | lab1/rdt_sender.cc:37-43 | Empty window and buffer, counters 0, an ack table of `WINDOW_SIZE + 1` unmarked slots, no timer |
| RdtSender.Sender.PushSegment | lab1/rdt_sender.cc:74-90 | One packet written with the next number, `now_seqNumber` advanced by one, the packet appended to `buffer` |
| RdtSender.Sender.Enqueue | lab1/rdt_sender.cc:64-119 | `buffer` grows by one intact packet per chunk, numbered on from the old `now_seqNumber`, which advances by the packet count |
| RdtSender.Sender.FromUpperLayer | lab1/rdt_sender.cc:56-122 | Segmentation as above, then `sendPacket`; the invariant is kept |
| RdtSender.Sender.SendPacket | lab1/rdt_sender.cc:124-146 | Moves the largest admissible prefix of `buffer` to the window back in order, each sent once; capacity stays `|window| <= 10`; timer armed when full, stopped when all is empty |
| RdtSender.Sender.SlideWindow | lab1/rdt_sender.cc:164-176 | Removes exactly the leading run of marked slots and as many window packets, appending as many unmarked slots, and returns the run length |
| RdtSender.Sender.AckFront | lab1/rdt_sender.cc:161-177 | An ack for `now_ack` slides past at least one packet and advances `now_ack` by the number slid off |
| RdtSender.Sender.Acknowledge | lab1/rdt_sender.cc:160-193 | Front ack: slide and send; in-window ack: mark slot `s - now_ack` only; else no change; then the timer is armed exactly while packets are in flight |
| RdtSender.Sender.FromLowerLayer | lab1/rdt_sender.cc:149-193 | A packet failing the check changes nothing, timer included; an intact one is acknowledged by its sequence number |
| RdtSender.Sender.Timeout | lab1/rdt_sender.cc:196-204 | Resends exactly the front window packet and arms the timer; nothing else changes |
| RdtReceiver.MessageSize | lab1/rdt_receiver.cc:124-130 | The size is the length byte when it lies in 0..121, 0 when negative, 121 when larger |
| RdtReceiver.MessageOf | lab1/rdt_receiver.cc:124-134 | The message is the first `size` payload bytes, at most 121 |
| RdtReceiver.Receiver.constructor | lab1/rdt_receiver.cc:33-40 | Ten blank slots, all unmarked, counters 0, nothing delivered; valid and in order |
| RdtReceiver.Receiver.SubmitOne | lab1/rdt_receiver.cc:106-136 | One round: the front packet is echoed and its message delivered; window and table shift by one with a blank packet and an unmarked slot appended; capacity down and base up by one |
| RdtReceiver.Receiver.SubmitPackage | lab1/rdt_receiver.cc:102-146 | `k > 0` rounds deliver exactly the `k` front packets in order, each echoed; base up and capacity down by `k`; both vectors keep length 10 with `k` fresh slots at the back; `k <= 0` does nothing |
| RdtReceiver.Receiver.FrontRun | lab1/rdt_receiver.cc:92-97 | Scanning at most `capacity` slots finds the whole leading run, because the capacity counts every marked slot |
| RdtReceiver.Receiver.Store | lab1/rdt_receiver.cc:75-83 | The packet goes into slot `(s - base) % 10`, which is marked; the capacity remains the number of marked slots |
| RdtReceiver.Receiver.StoreAndCount | lab1/rdt_receiver.cc:75-97 | After storing the packet, both branches (all 10 slots when the table is full, otherwise the counting loop) yield exactly the leading run of marked slots |
| RdtReceiver.Receiver.StoreAndSubmit | lab1/rdt_receiver.cc:75-99 | Store, then deliver exactly the leading run and slide past it; the receiver stays valid with slot 0 unmarked |
| RdtReceiver.Receiver.Accept | lab1/rdt_receiver.cc:75-99 | As `StoreAndSubmit`; if the packet lies inside the window, the receiver also stays in order |
| RdtReceiver.StaysInOrder | lab1/rdt_receiver.cc:75-114 | Storing the packet numbered `base + i` in slot `i` and delivering the leading run keeps every marked slot in place and extends the deliveries with the next consecutive numbers |
| RdtReceiver.Receiver.FromLowerLayer | lab1/rdt_receiver.cc:53-100 | Failing the check changes nothing; an intact packet below the window is echoed once and nothing else changes; otherwise accept; in-order, at-most-once delivery is kept while packets stay below `base + 10` |
| RdtTransfer.CarriedMessage | lab1/rdt_receiver.cc:124-134 | The receiver's message for a packet the sender wrote is the chunk written into it |
| RdtTransfer.SegmentsDeliverMessage | lab1/rdt_sender.cc:69-119 | The messages delivered for a segmented message's packets are its chunks; laid end to end they are the message |

## Left out

- Logging through `fprintf` and `GetSimulationTime`, and the bodies of `Sender_Final` and `Receiver_Final`. They have no protocol state.
- The timer's real-time behaviour and `EXPIRE_TIME`, a floating-point duration. The timer is the flag `timerSet`. `Sender_StartTimer` sets it, `Sender_StopTimer` clears it, and `Sender_isTimerSet` reads it.
- The simulator calls `Sender_ToLowerLayer`, `Receiver_ToLowerLayer` and `Receiver_ToUpperLayer`. They are appends to the ghost logs `sent`, `toLower` and `toUpper`. The simulator itself, the channel's loss, corruption and reordering, and concurrency are not part of this model.
- `malloc`, `free` and the `ASSERT` macro in `submitPakage`. Allocation failure is an environment fault.
- Native byte order. The `memcpy`'d `unsigned short` and `int` are taken as little-endian. Pointer casts are modelled as reads of those bytes.
- `struct message`'s `sequence_number` field, which no handler reads. A message is its bytes, so a negative `msg->size` is not modelled.
- The packet `pkt` that `Sender_FromUpperLayer` reuses starts uninitialised. Its previous contents are the parameter `scratch`. Bytes past a short last payload keep whatever the buffer held.
- 32-bit wrap-around of sequence numbers. `Sender.FromUpperLayer` requires `now_seqNumber + packet count <= INT32_MAX`, so every number fits the 4-byte field. `now_ackNumber` in the receiver is unbounded.
- RdtSender.Sender.FromLowerLayer: requires that an ack for `now_ack` never slides past the end of the window. The erase at lab1/rdt_sender.cc:169 on an empty window is undefined behaviour.
- RdtSender.Sender.Timeout: requires a non-empty window. The front read at lab1/rdt_sender.cc:200 is undefined on an empty one. While the timer is armed the window is never empty.
- RdtReceiver.Receiver.FromLowerLayer: the `%` at lab1/rdt_receiver.cc:75 is modelled as written. A packet numbered `base + 10` or more lands in a slot meant for another number, so `InOrder` is promised only for packets below `base + 10`.
- lab1/checksum.h is not part of this model. It only declares the class.

## Findings

| source | as written | input that shows it | evidently intended | confidence | as-written member | corrected member |
|---|---|---|---|---|---|---|
| lab1/rdt_sender.cc:153-154 | `buf_size` is the length byte (as a `char`) plus 5, and the check reads that many bytes from byte 2 of the packet, with no bound | a packet whose byte 2 is 0x7F: the check reads 132 bytes from byte 2, six bytes past the 128-byte packet (lab1/rdt_receiver.cc:60-61 does the same) | a length byte over 121 marks a corrupt packet, which fails the check without reading outside it | not executed | RdtStruct.CoveredLengthOverrunsPacket | RdtStruct.CheckPacket |

# Verified model of BLE-Fuzzer's mapper and bridge driver

BLE-Fuzzer learns the state machine of a Bluetooth Low Energy device. Its Python mapper talks over a
serial line to a driver that stands in for the radio of the NimBLE stack. This project models both
ends of that line in Dafny and proves that they agree, byte for byte and counter for counter, or
exactly when they do; and that the mapper is a sound oracle for the learner.

Check it with `dafny verify dfyconfig.toml`.

## What is modelled

- **Fifo.dfy** is the ring buffer as a class over an array, refining a byte sequence.
- **Framing.dfy** holds the two serial formats; **HostDriver.dfy** is the host's driver class that
  writes one and reads the other.
- **LinkCrypto.dfy** holds the nonce and the packet functions of encryption on both sides. AES-CCM is
  a pair of functions with the round-trip law.
- **PhyModel.dfy** is the bridge driver as a state machine. `recv_packet` is a coroutine: it gives
  control away only at its delays, so it is cut there into steps, and a run is any sequence of its
  steps, arriving bytes, transmissions and settings. The environment may act between any two steps,
  which includes all interleavings that the delays allow. A failing assertion or a packet that a
  local buffer cannot hold stops the machine with a named fault. **PhyDriver.dfy** is the driver in
  its own form, a class whose methods do exactly these steps in place.
- **Downlink.dfy**, **Polling.dfy**, **Ack.dfy** and **EndToEnd.dfy** prove the protocol theorems for
  every run. **Schedule.dfy** and **CountingSchedule.dfy** construct runs that meet their conditions,
  and runs in which the code falls short.
- **EncryptedStreams.dfy** is encryption over lists of packets, where both sides count on their own;
  **Delivery.dfy** takes it through whole runs, and follows the peer's PDUs to the host;
  **Offers.dfy** follows the host's packets to the link layer.
- **Mbufs.dfy** is the scatter copy of a received PDU into a buffer chain.
- **Session.dfy** is the mapper's encryption state: counters, SKD, IV, session key. **Epochs.dfy** is
  about nonces when the counters are cleared in between.
- **Symbols.dfy**, **Receive.dfy** and **Retry.dfy** are the mapper as an oracle: output symbols and
  their filter, when receiving stops, and the retrying of suspicious sequences.

Bytes are integers from 0 to 255; the masks and shifts of the sources are written out in arithmetic,
and lemmas on bit vectors in Bytes.dfy show that they are the same. Times are integer milliseconds.
The numbers in the driver's memory that the sources compare or store as machine words (the access
address, the checksum, the lengths, the byte count) have their width written out. `rx_buf` is a local
array that starts with arbitrary bytes and keeps what earlier packets leave in it.

## Where the code falls short of the obvious claim

These cases came out of the theorems. Each one names the theorem with the exact condition.

- The downlink stream is correct for 2^32 bytes and for no more: `pkt_count` is a `uint32_t` that
  decides what the first two bytes mean, so it starts again (`Downlink.ConservedIff`,
  `Downlink.CounterWraps`; `Schedules.BeyondWrap` is a run that gets there).
- All packets are taken if and only if each has 1 to 260 bytes. A frame without a body blocks the
  downlink for good, as length 0 means "no frame" (`Downlink.AllTakenIff`,
  `Schedules.AllTakenInSomeRunIff`, `Downlink.EmptyFrameBlocks`).
- The host encrypts and counts data packets with an empty payload, the driver does neither: the
  counters stay equal if and only if there are none (`EncryptedStreams.DownlinkCounters`). With
  encryption on, the driver also decrypts advertising packets of more than 4 payload bytes, which
  the host never encrypts (`LinkCrypto.DownlinkAgreement`).
- An encrypted packet with 251 payload bytes makes a frame of 261 bytes, one more than `rx_buf`
  holds; the limit is 250 (`EndToEnd.EncryptedPacketOffered`).
- Above 251 encrypted payload bytes the length byte of the uplink wraps
  (`EncryptedStreams.UplinkCounters`).
- The sequence bits survive a channel change. The first packet of a connection is taken for a
  retransmission if the old SN is set, and acknowledges a PDU that was never sent if the old NESN
  is (`Acknowledgement.FreshConnection`); PDU 0 is skipped then (`Acknowledgement.FirstPduSkipped`).
  `Schedules.StaleConnection` is the input.
- The driver passes the peer's retransmissions on to the host: a PDU arrives twice if and only if
  the peer received nothing since its last transmission (`Deliveries.PdusDelivered`).
- From its first transmission on, the peer drops a packet of the host as a retransmission if and only
  if anything, if only an empty packet, has been offered to it since it last transmitted
  (`OfferStreams.HostPacketIsNew`).
- Every empty packet of a polling loop carries the MIC mark of the frame that started it
  (`PollingLoop.PollingBound`).
- A second encryption request on an encrypted connection clears the counters and keeps the key.
  With the same IV, nonces stay unique if and only if in each direction all packets fall into one
  epoch (`NonceEpochs.NonceReuseIff`; `NonceEpochs.SecondRequestRepeats` is the shortest input); with
  new IVs, if and only if the counter segments of each IV are apart
  (`NonceEpochs.NonceReuseWithResponses`). The response itself is still read with the old IV and a
  cleared counter (`NonceEpochs.SecondResponseRepeats`).
- Filtering commutes with abstraction only for symbols that are non-empty and free of '+'
  (`Symbols.FilterCommutesIff`).
- A retry on a deterministic device never ends early: it always makes six attempts
  (`Retrying.RetryCost`).


## Model

| member | source | states |
|---|---|---|
| Fifos.Fifo.AddByte | experiments/targets/NimBLE/workspace/drivers/psf_bridge/include/fifo.h:34-37 | appends one byte to the buffered sequence for every tail position, wrap-around included; size and tail stay within 16 bits and within the capacity |
| Fifos.Fifo.AddBuf | experiments/targets/NimBLE/workspace/drivers/psf_bridge/include/fifo.h:39-43 | appends the first n bytes of a buffer, in order |
| Fifos.Fifo.GetByte | experiments/targets/NimBLE/workspace/drivers/psf_bridge/include/fifo.h:45-50 | removes and returns the oldest byte; the rest keeps its order |
| Fifos.Fifo.GetBuf | experiments/targets/NimBLE/workspace/drivers/psf_bridge/include/fifo.h:52-56 | moves the n oldest bytes into a buffer in order, leaves the rest of both untouched |
| Fifos.Fifo.Peek | experiments/targets/NimBLE/workspace/drivers/psf_bridge/include/fifo.h:32 | reads the byte at an offset behind the tail without removing it |
| Fifos.Fifo.Position | experiments/targets/NimBLE/workspace/drivers/psf_bridge/include/fifo.h:18-20 | the position of the o-th byte, as a wrap-around of tail + o |
| Framing.FirstFrame | experiments/targets/NimBLE/workspace/drivers/psf_bridge/src/ble_phy.c:145-154 | on a buffer that begins a stream, the length of the first frame is reported exactly when the frame has arrived whole |
| Framing.HeadOfStream | experiments/targets/NimBLE/workspace/drivers/psf_bridge/src/ble_phy.c:145-167 | a buffer that is the beginning of a stream of frames never fails the 0xA7 assertion, reports exactly its first frame, and is the beginning of a stream of frames again when that is taken; if nothing is reported, the first frame is not yet complete or has no body |
| Framing.ReceiveOne | py/NRF52_Driver.py:113-158 | one call consumes exactly one message of any of the four kinds, with a right or wrong checksum, and yields its packet and field updates if it is intact |
| Framing.ReceivePacketBytes | py/NRF52_Driver.py:122-149 | byte by byte: a 0xA7 or 0xBB message is read whole, and its body and event counter are taken exactly if its last byte is the sum of the body modulo 256 |
| Framing.ReceiveOtherBytes | py/NRF52_Driver.py:150-158 | a 0x7F message is dropped whole, any other byte alone |
| Framing.UpFrameBytes | experiments/targets/NimBLE/workspace/drivers/psf_bridge/src/ble_phy.c:527-535 | the frame of a transmitted packet: 0xA7, two length bytes, two zero bytes, the packet and its sum modulo 256 |
| Framing.DownFrameBytes | py/NRF52_Driver.py:89-98 | the frame of a sent packet: 0xA7, two length bytes, the packet and its sum modulo 256 |
| Framing.UplinkStream | py/NRF52_Driver.py:113-158 | over any messages followed by any incomplete one, repeated calls return exactly the bodies of the intact 0xA7 messages in order, consume all complete messages whole, and leave event_counter and sent_pkt as the last intact messages set them |
| Framing.DriverStream | experiments/targets/NimBLE/workspace/drivers/psf_bridge/src/ble_phy.c:521-535 | at every moment the host has received a beginning of the packets the driver framed, consumed exactly their frames, and all of them once all bytes have arrived; so every frame has the right checksum |
| Bytes.DirectionBitOperations | py/BLESUL.py:333-333 | the arithmetic used for setting and clearing the direction bit is the bit operation |
| Bytes.SeqBitsAt | experiments/targets/NimBLE/workspace/drivers/psf_bridge/src/ble_phy.c:236-239 | rewriting SN and NESN sets exactly these two bits and keeps the other six |
| Bytes.SeqBitsOperation | experiments/targets/NimBLE/workspace/drivers/psf_bridge/src/ble_phy.c:238-238 | the arithmetic of the rewriting is the expression of mask, shifts and or |
| Bytes.MaskOperation | experiments/targets/NimBLE/workspace/drivers/psf_bridge/src/ble_phy.c:178-178 | the arithmetic of the authenticated header bits is the mask 0xE3 |
| Bytes.WholeWordsOperation | experiments/targets/NimBLE/workspace/drivers/psf_bridge/src/ble_phy.c:422-422 | rounding a 16-bit length down to words is the mask 0xFFFC |
| Bytes.WordParts | experiments/targets/NimBLE/workspace/drivers/psf_bridge/src/ble_phy.c:530-531 | the two length bytes are the low and the shifted byte of the 16-bit length |
| LinkCrypto.CounterField | experiments/targets/NimBLE/workspace/drivers/psf_bridge/src/ble_phy.c:172-176 | the first five nonce bytes hold the counter modulo 2^39 and the direction in the top bit |
| LinkCrypto.NonceEqual | py/BLESUL.py:332-334 | two nonces are equal exactly when direction, IV and counter modulo 2^39 are |
| LinkCrypto.EncryptedDownlink | py/BLESUL.py:324-341 | what the host encrypts and cuts the CRC from, the driver decrypts to the original address, header, length and payload with crypto_ok true, exactly when the payload is not empty |
| LinkCrypto.DownlinkAgreement | experiments/targets/NimBLE/workspace/drivers/psf_bridge/src/ble_phy.c:171-190 | with both flags on, the sides agree on whether a packet is encrypted exactly for data packets with a payload and advertising packets of at most 4 payload bytes |
| LinkCrypto.EncryptedUplink | experiments/targets/NimBLE/workspace/drivers/psf_bridge/src/ble_phy.c:490-519 | what the driver emits for a data packet, the host rebuilds with the same header, length and payload, exactly when the length byte does not wrap (up to 251 encrypted bytes) |
| LinkCrypto.UplinkAgreement | py/BLESUL.py:432-455 | with both flags on, the driver encrypts a data packet exactly when the host decrypts it |
| LinkCrypto.DriverReads | experiments/targets/NimBLE/workspace/drivers/psf_bridge/src/ble_phy.c:171-190 | the driver leaves a packet as it is if encryption is off, if it has at most 10 bytes or if its length byte is 0, and opens any other one, whatever its MIC |
| LinkCrypto.HostReads | py/BLESUL.py:432-455 | the host leaves a packet as it is if encryption is off, if it is an advertising packet or too short for a MIC; otherwise it gets the opened packet if the MIC is right and none if not |
| LinkCrypto.PlainDownlink | py/BLESUL.py:342-344 | a packet that neither side encrypts reaches the stack as it was |
| LinkCrypto.AdvAddress | experiments/targets/NimBLE/workspace/drivers/psf_bridge/src/ble_phy.c:193-193 | the advertising access address is 0x8e89bed6, in these four bytes |
| Downlink.DownlinkStream | experiments/targets/NimBLE/workspace/drivers/psf_bridge/src/ble_phy.c:156-167 | for any packets, in every run: the frames taken are a beginning of the packets sent, taken frames plus buffered bytes are exactly what arrived, no assertion about the stream fails, and the receive task stops only at a packet longer than rx_buf or after a CONNECT_IND without effect; and once everything arrived and the driver is idle with no event queued, all packets have been taken, or all before the first one without a body |
| Downlink.NoLostWakeup | experiments/targets/NimBLE/workspace/drivers/psf_bridge/src/ble_phy.c:386-393 | in every run, while a complete frame waits at the head, the event is queued or the receive task is active; every test of the buffer finds a frame boundary |
| Downlink.ConservedIff | experiments/targets/NimBLE/workspace/drivers/psf_bridge/src/ble_phy.c:375-393 | in every run that has not stopped, taken frames plus buffered bytes are what arrived if and only if that is at most 2^32 bytes |
| Downlink.CounterWraps | experiments/targets/NimBLE/workspace/drivers/psf_bridge/src/ble_phy.c:375-393 | the byte after 2^32 bytes stops the driver, or is lost if it is 0xCC |
| Downlink.AllTakenIff | experiments/targets/NimBLE/workspace/drivers/psf_bridge/src/ble_phy.c:145-167 | no run takes a packet from the first one on that is empty or longer than 260 bytes; an idle driver has taken all packets if and only if all have 1 to 260 bytes |
| Downlink.EmptyFrameBlocks | experiments/targets/NimBLE/workspace/drivers/psf_bridge/src/ble_phy.c:145-154 | behind a frame without body nothing is taken in any run |
| Schedules.Serial | experiments/targets/NimBLE/workspace/drivers/psf_bridge/src/ble_phy.c:156-286 | for every beginning of the stream, of up to 2^32 bytes, there is a run in which it arrives and the receive task finishes; so the conditions of the stream theorems can be met |
| Schedules.AllTakenInSomeRunIff | experiments/targets/NimBLE/workspace/drivers/psf_bridge/src/ble_phy.c:145-167 | some run takes all packets if and only if each has 1 to 260 bytes |
| Schedules.BeyondWrap | experiments/targets/NimBLE/workspace/drivers/psf_bridge/src/ble_phy.c:375-379 | a run in which the driver goes on after 2^32 bytes and has lost one |
| PollingLoop.PollingBound | experiments/targets/NimBLE/workspace/drivers/psf_bridge/src/ble_phy.c:218-284 | a polling loop whose flag is seen in K iterations has at most 6 + 5K iterations, the last of the K is followed by exactly five, and on data channels each of these offers an empty packet; nothing else is offered after the first iteration, and all these packets have the MIC mark of the taken frame |
| PollingLoop.FlagIff | experiments/targets/NimBLE/workspace/drivers/psf_bridge/src/ble_phy.c:485-487 | in every run the end of an iteration finds the flag set if and only if the stack has transmitted a non-empty payload since the end of the one before |
| PollingLoop.PayloadKeepsPolling | experiments/targets/NimBLE/workspace/drivers/psf_bridge/src/ble_phy.c:280-284 | after a non-empty transmission in the loop, the run does not leave it before five further iterations, and on data channels each of them offers an empty packet |
| PollingLoop.RunWork | experiments/targets/NimBLE/workspace/drivers/psf_bridge/src/ble_phy.c:156-286 | the work left for the receive task drops by exactly one with each of its steps and grows only by non-empty transmissions, by at most five each |
| PollingLoop.Drained | experiments/targets/NimBLE/workspace/drivers/psf_bridge/src/ble_phy.c:137-141 | after the last byte the receive task has taken every packet after a bounded number of its own steps, and until then it always has a step to make |
| Acknowledgement.OneBitAcknowledgement | experiments/targets/NimBLE/workspace/drivers/psf_bridge/src/ble_phy.c:477-481 | against a conforming peer, in every interleaving, from the first data-channel transmission on exactly the first packet delivered after a transmission is new data and an acknowledgement; the PDU numbers that the peer transmits leave none out, and strictly increase if and only if it always receives something between two transmissions, so none is lost or acknowledged twice |
| Acknowledgement.StepSequence | experiments/targets/NimBLE/workspace/drivers/psf_bridge/src/ble_phy.c:236-239 | every packet offered on a data channel carries the sequence bits that the last transmission determined, and nothing else changes them |
| Acknowledgement.FreshConnection | experiments/targets/NimBLE/workspace/drivers/psf_bridge/src/ble_phy.c:615-625 | in every run before the first transmission of a connection, the first packet is new data exactly if the SN left by earlier connections is clear and an acknowledgement exactly if the NESN is set, and no later one is either; a channel change or anything else does not reset the bits |
| Acknowledgement.FirstPduSkipped | experiments/targets/NimBLE/workspace/drivers/psf_bridge/src/ble_phy.c:477-481 | the first transmission of a connection skips PDU 0 if and only if a packet was delivered before it and the old NESN is set |
| Schedules.StaleConnection | experiments/targets/NimBLE/workspace/drivers/psf_bridge/src/ble_phy.c:615-625 | from a driver that has just started, a run after which the first packet of a new connection is taken for a retransmission and for an acknowledgement |
| EndToEnd.EncryptedPacketOffered | experiments/targets/NimBLE/workspace/drivers/psf_bridge/src/ble_phy.c:165-253 | an encrypted packet of the host is taken, decrypted and offered as the original but for the sequence bits and without MIC mark exactly when its payload has 1 to 250 bytes |
| EndToEnd.ChannelSafety | experiments/targets/NimBLE/workspace/drivers/psf_bridge/src/ble_phy.c:192-201 | in no run an advertising packet is offered on a data channel or another one on an advertising channel |
| EndToEnd.UplinkDelivered | experiments/targets/NimBLE/workspace/drivers/psf_bridge/src/ble_phy.c:527-536 | in every run the host receives a beginning of the transmitted packets from the UART, unchanged and in order, and all of them once the transmit buffer is empty |
| EndToEnd.TxRunsIff | experiments/targets/NimBLE/workspace/drivers/psf_bridge/src/ble_phy.c:527-527 | a transmission succeeds if and only if its payload has at most 499 bytes and the frame has space |
| EndToEnd.SettingsAre | experiments/targets/NimBLE/workspace/drivers/psf_bridge/src/ble_phy.c:556-625 | in every run, channel, access address, link layer state, encryption flag, key, IV and counter are the last ones set |
| EncryptedStreams.DownlinkCounters | py/BLESUL.py:324-341 | for every list of encrypted packets, with equal counters in the beginning and each side counting on its own: all are rebuilt, and the counters are equal after each, if and only if none has an empty payload |
| EncryptedStreams.UplinkCounters | experiments/targets/NimBLE/workspace/drivers/psf_bridge/src/ble_phy.c:490-519 | the same for the uplink, if and only if none has more than 251 payload bytes |
| Deliveries.EncryptedDownlinkDelivered | experiments/targets/NimBLE/workspace/drivers/psf_bridge/src/ble_phy.c:165-190 | in every run in which the stack keeps the driver counter, every encrypted packet with payload that the driver takes comes out as the host meant it, whatever came before encryption |
| OfferStreams.OffersAreTaken | experiments/targets/NimBLE/workspace/drivers/psf_bridge/src/ble_phy.c:218-253 | in every run, whatever the stack does, the offers are the packets taken and accepted, each once and in order, unchanged but for the sequence bits of data packets and with the right MIC mark, merged with empty packets on data channels |
| OfferStreams.EncryptedDownlinkOffered | experiments/targets/NimBLE/workspace/drivers/psf_bridge/src/ble_phy.c:165-253 | in every run in which the stack keeps the counter and the encrypted packets are taken on data channels, the last packets offered, empty ones aside, are the originals of the host, one by one, without MIC mark |
| OfferStreams.PlainDownlinkOffered | experiments/targets/NimBLE/workspace/drivers/psf_bridge/src/ble_phy.c:165-253 | in every run that goes on, while encryption is off and the frames are of the kind of their channel, the last packets offered are the packets of the host, one by one: advertising packets byte for byte, data packets but for SN and NESN, without MIC mark |
| OfferStreams.OfferedIff | experiments/targets/NimBLE/workspace/drivers/psf_bridge/src/ble_phy.c:192-201 | in every run that does not stop, a frame taken is offered if and only if its channel is at least 37 exactly when its first four bytes are the advertising access address |
| OfferStreams.HeadPacket | experiments/targets/NimBLE/workspace/drivers/psf_bridge/src/ble_phy.c:164-190 | what is read of a frame: its address unchanged, without encryption its whole body, and a short body filled up with what is left in rx_buf |
| OfferStreams.ConnectStops | experiments/targets/NimBLE/workspace/drivers/psf_bridge/src/ble_phy.c:203-216 | in every run, a frame stops the driver if and only if the last frame taken was an offered CONNECT_IND and the channel is still an advertising channel |
| CountingSchedules.AllEncryptedOffered | experiments/targets/NimBLE/workspace/drivers/psf_bridge/src/ble_phy.c:165-253 | there is a run in which the stack keeps the counter, and all encrypted packets of 1 to 250 payload bytes are offered as the host meant them |
| OfferStreams.HostPacketIsNew | experiments/targets/NimBLE/workspace/drivers/psf_bridge/src/ble_phy.c:236-242 | a packet of the host offered on a data channel is new data for a conforming peer if and only if the last event of the peer was a transmission |
| Deliveries.EncryptedUplinkDelivered | py/BLESUL.py:432-455 | in every run in which the stack keeps the driver counter, the host reads every packet that reaches it as the stack transmitted it |
| Deliveries.PdusDelivered | experiments/targets/NimBLE/workspace/drivers/psf_bridge/src/ble_phy.c:477-535 | on data channels, in every interleaving, the i-th packet that reaches the host is what the driver makes, with the keys in force then, of the content of the PDU with the i-th transmitted number, in plain if encryption was off; the numbers leave none out, and none repeats if and only if the peer always receives something in between |
| BridgeDriver.Checksum | experiments/targets/NimBLE/workspace/drivers/psf_bridge/src/ble_phy.c:521-525 | the wrapping 8-bit sum is the sum modulo 256 that the host compares with |
| BridgeDriver.PhyDriver.constructor | experiments/targets/NimBLE/workspace/drivers/psf_bridge/src/ble_phy.c:105-133 | a new driver is idle on an advertising channel with empty buffers |
| BridgeDriver.PhyDriver.FifoGetPktLen | experiments/targets/NimBLE/workspace/drivers/psf_bridge/src/ble_phy.c:145-154 | peeks the complete frame length at the head of the ring buffer, or fails its assertion |
| BridgeDriver.PhyDriver.UartRxChar | experiments/targets/NimBLE/workspace/drivers/psf_bridge/src/ble_phy.c:375-395 | does exactly the byte-arrival step of the state machine on the ring buffer |
| BridgeDriver.PhyDriver.TestFifo | experiments/targets/NimBLE/workspace/drivers/psf_bridge/src/ble_phy.c:162-216 | does exactly the step that takes, decrypts and judges one frame or leaves recv_packet, the debugging stop and the bytes left over in rx_buf included |
| BridgeDriver.PhyDriver.EventqRun | experiments/targets/NimBLE/workspace/drivers/psf_bridge/src/ble_phy.c:137-141 | takes the event and enters recv_packet, whose rx_buf holds whatever the stack does |
| BridgeDriver.PhyDriver.Decide | experiments/targets/NimBLE/workspace/drivers/psf_bridge/src/ble_phy.c:192-216 | accepts or drops the packet in rx_buf, its header taken from older bytes if it is short, and stops after a CONNECT_IND without effect |
| BridgeDriver.PhyDriver.ReadFrame | experiments/targets/NimBLE/workspace/drivers/psf_bridge/src/ble_phy.c:164-167 | reads header and body over each other into rx_buf and drops exactly command, length and checksum |
| BridgeDriver.PhyDriver.OpenFrame | experiments/targets/NimBLE/workspace/drivers/psf_bridge/src/ble_phy.c:164-190 | takes exactly one frame from the ring buffer and leaves its decrypted body in rx_buf |
| BridgeDriver.PhyDriver.Decrypt | experiments/targets/NimBLE/workspace/drivers/psf_bridge/src/ble_phy.c:169-190 | decrypts rx_buf in place to what the packet function says, length byte included |
| BridgeDriver.PhyDriver.IterateLoop | experiments/targets/NimBLE/workspace/drivers/psf_bridge/src/ble_phy.c:218-253 | offers the packet in rx_buf, or an empty one on a data channel, with fixed sequence bits |
| BridgeDriver.PhyDriver.ResumeLoop | experiments/targets/NimBLE/workspace/drivers/psf_bridge/src/ble_phy.c:280-284 | does exactly the step at the end of an iteration, the index reset included |
| BridgeDriver.PhyDriver.BuildPacket | experiments/targets/NimBLE/workspace/drivers/psf_bridge/src/ble_phy.c:489-519 | puts header, encrypted payload and CRC into tx_buf, byte for byte |
| BridgeDriver.PhyDriver.Tx | experiments/targets/NimBLE/workspace/drivers/psf_bridge/src/ble_phy.c:469-546 | does exactly the transmission step: sequence bits, polling flag, packet, frame or failed space assertion |
| BridgeDriver.PhyDriver.UartTxChar | experiments/targets/NimBLE/workspace/drivers/psf_bridge/src/ble_phy.c:367-372 | gives the oldest byte of the transmit buffer to the UART, or -1 |
| BridgeDriver.PhyDriver.SetChannel | experiments/targets/NimBLE/workspace/drivers/psf_bridge/src/ble_phy.c:615-625 | changes channel, access address and link layer state and nothing else |
| BridgeDriver.PhyDriver.EnableEncryption | experiments/targets/NimBLE/workspace/drivers/psf_bridge/src/ble_phy.c:556-564 | sets the key and the flag and nothing else |
| BridgeDriver.PhyDriver.SetEncryptionIv | experiments/targets/NimBLE/workspace/drivers/psf_bridge/src/ble_phy.c:568-575 | sets the IV and nothing else |
| BridgeDriver.PhyDriver.SetEncryptionCounter | experiments/targets/NimBLE/workspace/drivers/psf_bridge/src/ble_phy.c:577-580 | sets the counter and nothing else |
| BridgeDriver.PhyDriver.DisableEncryption | experiments/targets/NimBLE/workspace/drivers/psf_bridge/src/ble_phy.c:582-585 | clears the flag and nothing else |
| Mbufs.RxPduCopy | experiments/targets/NimBLE/workspace/drivers/psf_bridge/src/ble_phy.c:402-464 | copies the whole PDU into the chain exactly if it fits under word rounding, then the header record, and fails the null assertion exactly if not; the filled buffers in order are the PDU, their lengths add up to its length, later buffers and all other bytes outside the rooms are untouched; it terminates |
| Mbufs.CopyWords | experiments/targets/NimBLE/workspace/drivers/psf_bridge/src/ble_phy.c:426-431 | the word loop copies exactly the given bytes and writes nothing else |
| Mbufs.FitsIff | experiments/targets/NimBLE/workspace/drivers/psf_bridge/src/ble_phy.c:417-447 | a PDU fits if and only if some buffer takes its end, after whole words in the buffers before it; the first one leaves room for the packet header and 4 bytes |
| Mbufs.CopiedLengths | experiments/targets/NimBLE/workspace/drivers/psf_bridge/src/ble_phy.c:402-459 | the om_len of the filled buffers add up to the length of the bytes they hold |
| HostDriver.Nrf52.constructor | py/NRF52_Driver.py:77-86 | opening the port starts the stream with the two configuration bytes |
| HostDriver.Nrf52.RawSend | py/NRF52_Driver.py:89-98 | appends one frame of the packet without its CRC, so the output stays a stream the driver theorems apply to |
| HostDriver.Nrf52.RawReceive | py/NRF52_Driver.py:113-158 | reading byte by byte does exactly what the receive function says, which waits on incomplete messages |
| EncryptionSession.KeyMaterial | py/BLESUL.py:34-35 | between resets, after any responses, the little-endian SKD is skdm + 2^64 skds and the IV ivm + 2^32 ivs for the latest response; the central halves never change |
| EncryptionSession.KeyOrigin | py/BLESUL.py:246-252 | the session key is the one derived from long term key and SKD at the latest response that came while encryption was off |
| EncryptionSession.KeyStable | py/BLESUL.py:248-252 | while encryption stays on, the session key never changes |
| EncryptionSession.EncryptedIff | py/BLESUL.py:255-256 | encryption is on if and only if the last event that switches it started it, or there is none and it was on before |
| EncryptionSession.LtkIs | py/BLESUL.py:302-303 | the long term key is the last one set, or zero after a reset |
| EncryptionSession.EncryptionAsReceived | py/BLESUL.py:231-256 | after ll_ctrl_enc_req, encryption is on if and only if the last received packet that switches it is an LL_START_ENC_REQ, or there is none and it was on; and SKD and IV hold the halves of the last LL_ENC_RSP |
| EncryptionSession.EncryptionStarts | py/BLESUL.py:219-257 | on a connection without encryption, after an LL_ENC_RSP and a final LL_START_ENC_REQ encryption is on, with the key derived from the long term key and the assembled SKD, and the next packet is sent with counter 0 |
| EncryptionSession.ReverseAt | py/BLESUL.py:252-252 | the reversed byte order of key and SKD |
| EncryptionSession.NonceUniqueness | py/BLESUL.py:332-338 | in a counter epoch of at most 2^39 packets per direction no nonce is used twice, across both directions and even if the IV changes |
| EncryptionSession.NonceBoundExact | py/BLESUL.py:440-446 | the bound is exact: with one IV, nonces stay unique if and only if no direction exceeds 2^39 packets |
| EncryptionSession.BleSession.Send | py/BLESUL.py:322-344 | encrypts as specified, gives the cipher the nonce of the one use that is counted, and advances the transmit counter exactly for encrypted packets |
| EncryptionSession.BleSession.Receive | py/BLESUL.py:428-455 | an advertising packet ends encryption; a decryption uses the nonce of the one use that is counted and advances the receive counter even if the MIC is wrong |
| EncryptionSession.BleSession.LlCtrlEncReq | py/BLESUL.py:219-257 | sends the request with the old counters, clears them, receives, decrypts and applies the packets one by one, each in the state that the ones before it left, and returns the output symbol of those with a right MIC |
| EncryptionSession.BleSession.HandleEncReq | py/BLESUL.py:231-256 | the loop over the responses |
| EncryptionSession.EventsOfRaws | py/BLESUL.py:219-257 | whatever it receives, it does not clear the counters again, so the theorems about epochs and key material apply |
| NonceEpochs.NonceReuseIff | py/BLESUL.py:219-225 | over any number of epochs from cleared counters, with one IV, the key never changes and no nonce is used twice if and only if in each direction all packets fall into one epoch and are at most 2^39 |
| NonceEpochs.SecondRequestRepeats | py/BLESUL.py:224-225 | one packet before and one after the counters are cleared use the same nonce under the same key |
| NonceEpochs.NonceReuseWithResponses | py/BLESUL.py:219-257 | as long as the session key stays, over any number of epochs and responses: no nonce is used twice if and only if in each direction the counter segments of the same IV do not overlap modulo 2^39 and none is longer; there is at most one segment more than clearings and responses |
| NonceEpochs.DistinctIffApart | py/BLESUL.py:332-338 | for any sequence of uses, nonces are distinct if and only if the segments are apart |
| NonceEpochs.SecondResponseRepeats | py/BLESUL.py:226-228 | an encrypted response after the counters are cleared is read with the nonce of the first packet received, whatever IV it brings |
| EncryptionSession.BleSession.ResetState | py/BLESUL.py:152-160 | returns all encryption fields to their cleared values |
| Symbols.FilterCommutesIff | py/BLESUL.py:398-415 | filtering the joined symbol equals abstracting the kept packets, for every filter, if and only if all symbols are non-empty and free of + |
| Symbols.FilterCommutes | py/BLESUL.py:398-415 | for plain symbols, filter_symbol of output_symbol is output_symbol of the packets whose symbol is not filtered |
| Symbols.CyclicPacketsInvisible | py/BLESUL.py:89-89 | what the learner sees depends only on the set of symbols outside the filter, so cyclic packets may be inserted, duplicated and reordered |
| Symbols.AscendingUnique | py/BLESUL.py:414-414 | a sorted duplicate-free list is determined by its set of elements |
| Symbols.SplitJoin | py/BLESUL.py:400-400 | splitting a joined list of plain symbols gives the list back |
| Symbols.LexLeIff | py/BLESUL.py:414-414 | the order of the symbols is that of their code points at the first difference, shorter ones first |
| Symbols.LearnerSees | py/BLESUL.py:398-415 | the learner sees NORESPONSE if nothing but cyclic packets arrived, and the symbol of the only other packet otherwise |
| Retrying.RetryTransparent | py/BLESUL.py:103-141 | for every device that is deterministic as far as the filter can tell, and every suspicion predicate, pre and any steps return exactly the filtered outputs of the device and leave it in the state of the word alone; if it is deterministic, the recorded outputs are exact, too |
| Retrying.MapperTransparent | py/BLESUL.py:89-110 | with the filter of the mapper and a device that is deterministic but for its cyclic packets, whatever is retried, every step returns the output symbol of the packets the device means, without filtered and cyclic ones |
| Retrying.RetryCost | py/BLESUL.py:499-542 | on a deterministic device a suspicious output costs exactly six attempts |
| Retrying.RetryBookkeeping | py/BLESUL.py:499-542 | for any device: at most 7 attempts, each a pre and the recorded inputs once, no nesting, same inputs and as many outputs, flag cleared; the last attempt is the first one in which every earlier filtered output is the recorded one and the last output is not suspicious, or the 6th with a suspicious output, or the 7th |
| Retrying.AttemptOutputs | py/BLESUL.py:517-521 | the outputs of an attempt are the answers of the device to what has happened until each |
| Retrying.AttemptCounts | py/BLESUL.py:506-514 | n attempts call pre n times and reset the device once in each after the third |
| Retrying.BleSul.StepInternal | py/BLESUL.py:116-141 | records the step and retries as specified; terminates, so retries do not nest; returns the last recorded output |
| Retrying.BleSul.RetrySequence | py/BLESUL.py:499-542 | the loop with its attempt counter does what the recursive specification says and clears the flag |
| Retrying.BleSul.RunAttempt | py/BLESUL.py:509-521 | one attempt: a device reset from the fourth on, pre, and the sequence |
| Retrying.BleSul.Step | py/BLESUL.py:103-110 | returns the filtered last output |
| Receiving.CountPackets | py/BLESUL.py:363-374 | the loop computes the length of the longest cyclic suffix and what the last trigger packet announces less the non-cyclic packets after it, at least 0 |
| Receiving.BaseExpected | py/BLESUL.py:359-362 | with the table of the mapper, one more response is expected after LL_CTRL_ENC_RSP and three after LL_CTRL_START_ENC_RSP |
| Receiving.SingleOutput | py/BLESUL.py:374-374 | the output symbol of one packet is its symbol |
| Receiving.CyclicSuffix | py/BLESUL.py:363-371 | the length of the longest suffix of cyclic packets |
| Receiving.LastTrigger | py/BLESUL.py:359-374 | the position of the last packet that is not cyclic and announces further responses, -1 if there is none |
| Receiving.IsRspComplete | py/BLESUL.py:356-385 | stops exactly at the longer limit, or from the minimum on when the closed form seems complete |
| Receiving.CompleteIff | py/BLESUL.py:378-385 | receiving stops if and only if the minimum has passed and the maximum has, or the last 10 packets are cyclic, or the last 5 are and nothing is expected |
| Receiving.ExpectedIs | py/BLESUL.py:363-374 | one response is expected, or what the last trigger packet announces, less the packets after it that are not cyclic |
| Receiving.InForceIs | py/BLESUL.py:380-383 | the arguments of receive, where given, go before the limits of the mapper |
| Receiving.TimeBaseIs | py/BLESUL.py:481-483 | the clock runs from the last hidden reply, or from the beginning |
| Receiving.PollOnce | py/BLESUL.py:422-485 | one poll collects its packet and restarts the clock on a hidden reply; the loop is left exactly if its condition holds then |
| Receiving.Receive | py/BLESUL.py:417-488 | terminates; stops at the first poll where its condition holds, with no packet limit never before the minimum since the last clock restart, and within (k+1) times the longer limit plus one poll per segment, for k hidden replies |
| Receiving.BudgetIsProduct | py/BLESUL.py:417-488 | the poll budget is (k+1) times the longer limit plus 10 ms |

## Left out

- Scapy: building, parsing and re-serialising packets, layer binding and `summary()`. A packet is a byte sequence, or a symbol with a cyclic flag; that a parsed packet turns back into its bytes is taken for granted, and `fix_packet` is not part of this model.
- AES-CCM, AES-ECB, tinycrypt and BLESMPServer: functions given from outside, of which only the round-trip law and the lengths are used.
- The NimBLE stack, its scheduler, timers and `g_ble_ll_data`: an environment that may transmit or change settings between any two steps. The length of the delays, `g_ble_ll_data.ll_state`, `refresh_rsp_timer` and the scheduler patch are not modelled; neither is `rc`, which the delay loop reads uninitialised if an iteration offers nothing.
- Framing.RawReceive: messages with other command bytes are consumed one byte at a time, as in the code; the model has no name for them.
- HostDriver.Nrf52.RawReceive: a call that blocks on an incomplete message is modelled as an outcome that leaves the message unread.
- BridgeDriver.PhyDriver.TestFifo: a body longer than rx_buf stops the model, where the code writes beyond the array; the sleep of the debugging stop after a CONNECT_IND never ends in the model.
- BridgeDriver.PhyDriver.constructor: the UART and the task are set up by the environment.
- Mbufs.RxPduCopy: where the header record lies in front of the data is a parameter, as its macro is not part of this model, and SLIST_NEXT is the next element of a sequence of distinct buffers.
- EncryptionSession.BleSession.LlCtrlEncReq: takes the list of raw packets for us and functions that parse them and name them; when it stops receiving is the subject of Receiving.IsRspComplete, and hidden replies are none of its events.
- EncryptionSession.NonceUniqueness: is about one counter epoch; NonceEpochs.NonceReuseIff and NonceEpochs.NonceReuseWithResponses are about several, with one key.
- Deliveries.EncryptedDownlinkDelivered: that the stack sets the driver's counter to the number of packets decrypted, or encrypted, is an assumption about the stack; CountingSchedules.AllEncryptedOffered has runs that meet it.
- Retrying.BleSul.StepInternal: the symbol-specific pre and post functions, sending and receiving are inside the device function; `post` does nothing; a `pre` that raises an exception is not modelled.
- Receiving.Receive: whether a packet is for us, its decryption and the SMP server are inside the poll results.
- `reset` apart from its encryption fields and its new sequences: random addresses, the terminate request and the scan loop.
- Serial port I/O errors, `os.system` reset commands, pcap logging, colour printing, `print_pkt`.
- The Java bridge, alphabets, argument files, shell scripts, target firmware, learned models and the device-specific mapper subclasses.

# A verified model of the visual-inertial sensor's streaming software

The repository streams camera images from an FPGA to clients on the network. This project models the parts that
are state machines, codecs or address arithmetic, and proves what they are for.

* **The image ring** (`SharedRingBuffer.dfy`, `RingProtocol.dfy`, `BoundedQueue.dfy`). Linux and the FPGA share a
  ring of image slots and synchronise through two pointer registers. The addresses are 32-bit and may wrap.
* **The station** (`Station.dfy`, `StationTheorems.dfy`, `FirstImages.dfy`, `FirstSend.dfy`, `Progress.dfy`,
  `SendLoop.dfy`). The send loop, the TCP server's connection flag and the ring as one transition system whose events interleave freely;
  theorems over all runs; and the program itself, as classes and loops, shown to perform such runs, pass by pass.
* **The image stream** (`TcpFraming.dfy`, `TcpClient.dfy`). The message format and the client's receive loop.
* **Datagrams** (`UdpFragmenter.dfy`, `LossDetector.dfy`). The fragmenter and the receiving client's loss warning.
* **The camera's control bus** (`I2cBus.dfy`, `CameraSetup.dfy`). Register transactions over the controller's
  FIFOs, with the controller running at any pace, and the camera set-up made of them.
* **Memory** (`SharedMemory.dfy`, `KernelArea.dfy`, `RegisterWindow.dfy`). The region layout of the shared
  memory, the kernel module's page-rounded area, and the demo driver's register window.

`Machine.dfy` holds the value types and the modular arithmetic. Inductions are written out, and the automatic one is
turned off wherever it would act. `dafny verify dfyconfig.toml` verifies the whole project.

## Assumptions about the environment

* **FPGA.** It is not in the repository. The assumption made about it is in `RingProtocol.FpgaPointer`,
  `FpgaBlocked`, `FpgaWrite` and `FpgaAdvance`: while it writes slot w its register shows the end address of w, it
  writes nowhere else, and it goes on to the next slot, completing the frame in w, unless the start of that slot is
  the Linux pointer. This is the reading under which the test at SharedRingBuffer.cpp:68-77 makes sense at every
  position. Which slot the FPGA is in when the program starts, and what the memory holds then, is a parameter
  (`RingProtocol.Boot`) of every theorem; what the slots before it hold is counted as the first frames.
* **Atomicity.** One access to a pointer register or to the connection flag is one event. Between any two events of
  the main thread the FPGA and the accept handler may act any number of times.
* **Send.** A TCP send transmits everything or throws; a throwing send may have passed on any part of the message,
  and a client may receive any prefix of a connection's bytes. A UDP send fails or accepts at least one payload byte.
* **I2C.** The controller takes FIFO words in order, at its own pace, and the camera is a file of 256 registers of
  16 bits that answers as Section 3.1.10 of the I2C-bus specification (UM10204) addresses it; a stop ends a
  transaction, and bytes beyond one register belong to the next. A controller is called prompt if in any ten of the
  driver's accesses it takes four words and stores a byte if it has one.
* The ring with two spare slots fits 32 bits (`RingGeometry.Fits`). Only the base address may be anything.

## What turned out different from what one may expect

* **The first image.** The start-up pointer behind the last slot blocks nothing, so the first image sent may be torn.
  It is the frame it started on as long as the FPGA has not come back to its slot (`FirstImageIsWholeUntilLapped`), and
  until then its next byte is safe exactly while the FPGA is in another slot (`NextByteIsSafeIffFpgaIsElsewhere`). In
  every ring of two slots or more, the camera's included, a run tears it after any number of bytes
  (`FirstImageCanBeTorn`, `CameraImageCanBeTorn`). The whole image is right, over all contents of the FPGA's writes,
  exactly if no write to its slot comes before one of its copies (`FirstSend.FirstImageIsRightIff`). Every later image is protected, and statements about images except
  the first send only if it ended too late (`Station.Guarded`).
* **Left-over frames.** If the FPGA is not in slot 0 at the start, as after a restart of the server, the test is true at
  once and what the memory held is sent (`LeftoverCanBeSent`). `WhichImagesAreFrames` says which images are frames of
  the run: all of them if the FPGA starts in slot 0, and else all from the send numbered like its slot on.
* **The first release** can block the FPGA, if it had come back to slot 0; no later one does (`ReleaseUnblocksIff`).
* **A failed accept** is the last: the handler registers no other. The server can have a client, now or later, exactly as
  long as no accept has failed (`ServerReachableIff`); the very first one can fail (`FirstAcceptCanFail`).
* **A reconnect** loses exactly one frame, the one whose send threw and which is released all the same
  (`ReconnectLosesOneFrame`); from send 1 on every other frame is sent whole once, is under way, or has not come up yet
  (`FateOfEveryFrame`).
* **A cut stream.** The client ignores the error of the payload read. Parsing a byte prefix yields a prefix of the
  messages exactly when the cut is not inside a payload (`PrefixIffNotInsidePayload`); otherwise fewer bytes than
  announced are read of one more image (`ShortDeliveryExample`), and they are a part of the right frame
  (`ShortReadIsNextFrame`). The client shows its whole buffer all the same: what is shown depends on the bytes read alone
  exactly if they fill the buffer (`ShownIsDeterminedIffFull`).
* **An oversized payload.** The client does not check the announced size, but its reads are limited to the buffer. Of a
  larger payload it reads 360960 bytes and takes the rest for the next header (`ParseOversized`), so messages survive the
  round trip exactly if all payloads fit (`RoundTripIffFits`).
* **The loss warning** counts packets. Its text speaks of packets "not in order", but order is not checked. It is right
  exactly if no packet arrived twice, or packets are missing and not as many as arrived twice (`WarningRightIff`). A
  duplicate can hide a loss (`DuplicateHidesLoss`) and can raise a warning where nothing is lost
  (`DuplicateRaisesFalseAlarm`). An image whose final packet is lost gets no report, and its packets count towards the
  next, so they act on the next report as duplicates do (`WarningPerImageSent`).
* **The register window.** Behind its end, the clamp of a write protects only writes that move nothing, and which those
  are depends on the width of `size_t` (`StaysInsideIff`).
* **One slot.** In a ring of one slot no image is ever sent (`OneSlotNeverReleases`).
* The comments in `writeReg` name the data bytes the other way round from the code; the code sends the high byte
  first. The comment in `aslam_mmap` speaks of another offset than the 0 the code tests. The model follows the code.
* `sizeof(header_payload)` at tcp_server.cpp:84 is the size of a vector object, but the buffer constructed from the
  vector is limited to its 12 bytes, so 12 bytes are sent.

## Model

| member | source | states |
|---|---|---|
| RingGeometry.SlotAddressInjective | xilinx/visensor-srv/src/SharedRingBuffer.cpp:68-74 | for any base, even one whose addresses wrap in 32 bits, comparing slot addresses is comparing slots |
| RingGeometry.SlotAddressMeans | xilinx/visensor-srv/src/SharedRingBuffer.cpp:74-101 | the address of a slot is the one 32-bit value congruent to start + data_size * slot |
| RingGeometry.TestMeans | xilinx/visensor-srv/src/SharedRingBuffer.cpp:64-81 | for any 32-bit register value that is the end of a slot, the test is true exactly if that slot is not the consumer's |
| RingGeometry.SentinelIsNoSlot | xilinx/visensor-srv/src/MT9V034.cpp:20-22 | the start-up Linux pointer equals no slot address |
| RingGeometry.SlotBytesDisjoint | xilinx/visensor-srv/src/SharedRingBuffer.cpp:56-62 | the byte ranges of two slots are disjoint and inside the ring |
| SharedRing.SharedRingBuffer.Data | xilinx/visensor-srv/src/SharedRingBuffer.cpp:56-58 | the slot handed out lies wholly inside the mapped ring |
| SharedRing.SharedRingBuffer.NewDataAvailable | xilinx/visensor-srv/src/SharedRingBuffer.cpp:64-81 | true exactly if the register at 0x0c is not congruent to start + data_size * (position + 1) |
| SharedRing.SharedRingBuffer.MovePointer | xilinx/visensor-srv/src/SharedRingBuffer.cpp:95-102 | next position with wrap; the register at 0x10 becomes the 32-bit value of start + data_size * position, no other register changes |
| SharedRing.MT9V034.constructor | xilinx/visensor-srv/src/MT9V034.cpp:16-24 | start address, 8 * 360960 and the 32-bit value of start + 9 * 360960 are in the registers, and the last blocks no slot |
| SharedRing.MT9V034.PowerOff | xilinx/visensor-srv/src/MT9V034.cpp:60-63 | only the control register is cleared |
| CameraSetup.PowerOn | xilinx/visensor-srv/src/MT9V034.cpp:30-58 | with a prompt controller all calls get through: the five writes and five reads go out in this order, the settings took effect and the read-back confirms them; otherwise a wait ran out; the FPGA is enabled in any case |
| RingProtocol.BlockedIffFull | xilinx/visensor-srv/src/SharedRingBuffer.cpp:95-102 | the FPGA is blocked exactly when length-1 frames are pending, and never before the first release |
| RingProtocol.FpgaPointerMeans | xilinx/visensor-srv/src/SharedRingBuffer.cpp:66-74 | the assumed FPGA register holds the 32-bit value of start + data_size * (slot + 1) |
| RingProtocol.LinuxPointerMeans | xilinx/visensor-srv/src/SharedRingBuffer.cpp:100-101 | in every state of the protocol the Linux pointer is one slot behind the end of the ring before the first release, then the start of the consumer's slot |
| RingProtocol.TestExact | xilinx/visensor-srv/src/SharedRingBuffer.cpp:64-81 | the test never confuses full with empty; its wrap branch is dead |
| RingProtocol.ReleaseKeepsInv | xilinx/visensor-srv/src/SharedRingBuffer.cpp:95-102 | the first release after a true test establishes the running invariant, later ones step by one frame |
| RingProtocol.HeldSlotIsStable | xilinx/visensor-srv/src/SharedRingBuffer.cpp:56-58 | the slot held by the consumer is not the FPGA's and holds its completed frame |
| RingProtocol.NeverBothStuck | xilinx/visensor-srv/src/SharedRingBuffer.cpp:64-102 | with two slots or more, a blocked FPGA implies available data |
| Station.RunInvariant | xilinx/visensor-srv/src/main.cpp:159-190 | every state of every interleaving satisfies the station's invariant |
| StationTheorems.RingIsFifo | xilinx/visensor-srv/src/main.cpp:160-185 | after the first release the ring refines a FIFO queue of length-1 frames over every further interleaving |
| StationTheorems.StepRefines | xilinx/visensor-srv/src/SharedRingBuffer.cpp:95-102 | each event is one enqueue, one dequeue of the slot released, or nothing, on the pending frames |
| BoundedQueue.Fifo | xilinx/visensor-srv/src/SharedRingBuffer.cpp:56-102 | the abstract queue: initial contents and enqueued frames are those dequeued and what remains, in order, and its bound |
| StationTheorems.ProducedIsReleasedPlusPending | xilinx/visensor-srv/src/SharedRingBuffer.cpp:64-102 | produced = released + pending, with pending at most length-1 and intact in consecutive slots |
| StationTheorems.FirstReleaseStartsProtocol | xilinx/visensor-srv/src/MT9V034.cpp:20-22 | before the first release the FPGA is never blocked; the first release establishes the protocol |
| StationTheorems.AvailableIffPending | xilinx/visensor-srv/src/SharedRingBuffer.cpp:64-81 | in every reachable state after the first release, data is available exactly if a frame is pending |
| StationTheorems.ExclusiveFromTestToRelease | xilinx/visensor-srv/src/main.cpp:176-184 | from a true test to the release the FPGA never enters the slot and its bytes never change |
| StationTheorems.OneSlotNeverReleases | xilinx/visensor-srv/src/SharedRingBuffer.cpp:64-81 | with one slot the test is never true in any run, so no send is begun and nothing released |
| StationTheorems.NeverDeadlocked | xilinx/visensor-srv/src/main.cpp:163-185 | in every reachable state, for every number of slots, the FPGA can move or data is available |
| Progress.MainIsEnabled | xilinx/visensor-srv/src/main.cpp:160-190 | in every reachable state some event of the main thread can happen |
| Progress.ReleaseComes | xilinx/visensor-srv/src/main.cpp:163-185 | connected and with a frame pending, under every interleaving the release of the oldest pending frame comes after at most data_size + 6 events of the main thread |
| Progress.ReleaseUnblocksIff | xilinx/visensor-srv/src/SharedRingBuffer.cpp:95-102 | a release leaves the FPGA blocked exactly if the FPGA is in the slot released, which only the first release can find |
| Progress.BlockedProducerIsFreed | xilinx/visensor-srv/src/main.cpp:163-185 | under every interleaving a connected consumer frees a blocked FPGA after at most data_size + 6 events of its own |
| Progress.DeafIffAcceptFailed | xilinx/visensor-srv/src/tcp_server.cpp:35-46 | in every reachable state, the server is neither connected nor listening nor about to listen if and only if an accept has failed |
| Progress.FailedAcceptIsLast | xilinx/visensor-srv/src/tcp_server.cpp:35-46 | after an accept failed no connection is ever made |
| Progress.ServerReachableIff | xilinx/visensor-srv/src/tcp_server.cpp:21-46 | some continuation has a client if and only if no accept has failed |
| Progress.FirstAcceptCanFail | xilinx/visensor-srv/src/tcp_server.cpp:35-41 | a one-event run after which there is never a client |
| StationTheorems.ClientSeesProducedFrames | TCPtest/client.cpp:64-128 | from any prefix of a connection's bytes the client completes an initial part of the images sent, each the produced frame of its number; the very first too if its send ended before the FPGA was back in its slot |
| StationTheorems.FrameNumbersAreConsecutive | xilinx/visensor-srv/src/main.cpp:163-185 | from send 1 on, consecutive images carry consecutive frames |
| StationTheorems.PicturesAreImages | TCPtest/client.cpp:23-29 | of each complete image of the camera the client shows exactly the image sent; behind them at most one picture that only begins with bytes of the next image |
| StationTheorems.ShortReadIsNextFrame | TCPtest/client.cpp:98-111 | the bytes read of an image cut short are a proper part of the next frame, and there is at most one such image |
| StationTheorems.ClientSeesAllSent | xilinx/visensor-srv/src/tcp_server.cpp:76-96 | while the connection is up, all images sent on it are decoded from its bytes |
| StationTheorems.ReconnectLosesOneFrame | xilinx/visensor-srv/src/tcp_server.cpp:87-96 | the next connection begins with the frame right after the one whose send threw |
| StationTheorems.FateOfEveryFrame | xilinx/visensor-srv/src/main.cpp:163-185 | from send 1 on every frame is sent whole on exactly one connection, is the one whose send ended a connection, is under way, or has not come up yet |
| StationTheorems.NumbersIncreaseAcrossConnections | xilinx/visensor-srv/src/tcp_server.cpp:87-96 | over any number of reconnects frame numbers strictly increase, with at least one frame in each gap |
| FirstImages.FirstImageIsWholeUntilLapped | xilinx/visensor-srv/src/MT9V034.cpp:22 | while the FPGA has not come back to slot 0, what is copied of the first image is the frame it started on |
| FirstImages.FirstImageInTime | xilinx/visensor-srv/src/main.cpp:176-184 | a first send that returns before the FPGA is back sends the frame it started on |
| FirstImages.NextByteIsSafeIffFpgaIsElsewhere | xilinx/visensor-srv/src/MT9V034.cpp:22 | until the FPGA has come back to slot 0 and gone on, the next byte of the first image is right whatever the FPGA writes, if and only if the FPGA is not in the consumer's slot |
| FirstSend.FirstSendIsRightIff | xilinx/visensor-srv/src/MT9V034.cpp:22 | from any state of the first send before the FPGA is back, over all contents of its writes, what an interleaving copies is right if and only if no write to the slot is followed by a copy |
| FirstSend.FirstImageIsRightIff | xilinx/visensor-srv/src/main.cpp:176-184 | the same for the whole first send, from its test to its return, and the payload it sends |
| FirstImages.FirstImageCanStillBeTorn | xilinx/visensor-srv/src/MT9V034.cpp:22 | from every state of the first send with a byte left, some continuation sends another image than the frame it started on |
| FirstImages.FirstImageCanBeTorn | xilinx/visensor-srv/src/MT9V034.cpp:22 | for every ring of two slots or more, every start and every number of bytes, a run whose first image changes there from one frame to another |
| FirstImages.CameraImageCanBeTorn | xilinx/visensor-srv/src/MT9V034.cpp:13-24 | the same for the camera's own ring at any address |
| FirstImages.WhichImagesAreFrames | xilinx/visensor-srv/src/main.cpp:176-184 | an image is a frame completed in the run if its frame number is at least the FPGA's start slot, and what the memory held if it is less; sends numbered from that slot on are of the first kind |
| FirstImages.LeftoverCanBeSent | xilinx/visensor-srv/src/main.cpp:176-184 | if the FPGA does not start in slot 0, a run sends left-over memory as its first image |
| StationTheorems.FlagIffAccepted | xilinx/visensor-srv/src/tcp_server.cpp:21-46 | the connection flag is set exactly if an accept succeeded since the latest accept_connection |
| StationTheorems.ClearNeedsFailedSend | xilinx/visensor-srv/src/tcp_server.cpp:21-46 | a completed accept is cleared only after a later send failed, never by the call that registered it |
| SendLoop.SensorServer.HandleAccept | xilinx/visensor-srv/src/tcp_server.cpp:35-46 | an error leaves the flag alone; success sets it and opens an empty stream |
| SendLoop.SensorServer.AcceptConnection | xilinx/visensor-srv/src/tcp_server.cpp:21-33 | the main thread clears the flag, closes and registers, in this order; what others do in between leaves flag and streams alone |
| SendLoop.SensorServer.SendData | xilinx/visensor-srv/src/tcp_server.cpp:76-96 | a returning send puts a zero word, the size, the id 100 and the image on the current stream and nothing else; a throwing one an initial part of that, and leaves the server waiting for a client; the payload is or begins the held frame |
| SendLoop.SensorServer.Pass | xilinx/visensor-srv/src/main.cpp:160-185 | one pass: check, test, send, release; connected and with a frame pending it always sends and releases one slot |
| SendLoop.SensorServer.Serve | xilinx/visensor-srv/src/main.cpp:159-190 | the main thread makes exactly the given number of passes, with one release in each that sends, and every client's complete images are produced frames |
| TcpFraming.WordCodec | xilinx/visensor-srv/src/tcp_server.cpp:78-81 | htonl and ntohl are inverse in both directions |
| TcpFraming.WordsOrderedAsSent | xilinx/visensor-srv/src/tcp_server.cpp:78-81 | the byte order is network order |
| TcpFraming.HeaderCodec | TCPtest/client.cpp:80-83 | header encoding and decoding are inverse in both directions |
| TcpFraming.FieldsOnTheWire | xilinx/visensor-srv/src/tcp_server.cpp:78-85 | bytes 0 to 3 of a message are the timestamp, 4 to 7 the size, 8 to 11 the id, then the payload |
| TcpFraming.CameraHeaderOnTheWire | xilinx/visensor-srv/src/main.cpp:178-181 | the 12 header bytes of a camera image |
| Station.ImageOnTheWire | xilinx/visensor-srv/src/main.cpp:178-183 | an image is sent with a zero timestamp, its size and the id 100 |
| TcpFraming.BuildHeader | xilinx/visensor-srv/src/tcp_server.cpp:78-84 | the three words of the header vector are the encoded timestamp, size and id, in this order |
| TcpClient.ReadHeader | TCPtest/client.cpp:65-83 | timestamp, size and id are the words at 0, 4 and 8 of the next 12 bytes; the end of the stream is found if they are not there |
| TcpClient.ReceiveLoop | TCPtest/client.cpp:54-129 | the loop reads what the parse of the stream says and shows the whole buffer after each image |
| TcpClient.ShownIsDeterminedIffFull | TCPtest/client.cpp:23-29 | what is shown of an image depends on the bytes read alone exactly if they fill the buffer |
| TcpClient.ParseKnown | TCPtest/client.cpp:98-124 | of messages with id 10, 100, 101, 102 or 103 that fit, the whole payload is read |
| TcpClient.ParseUnknown | TCPtest/client.cpp:125-127 | of a message with any other id only the header is consumed |
| TcpClient.ImagesHaveId100 | TCPtest/client.cpp:98-111 | exactly the deliveries with id 100 lead to a picture |
| TcpClient.RoundTrip | TCPtest/client.cpp:64-128 | parsing a serialised sequence of messages that fit returns it |
| TcpClient.ParseOversized | TCPtest/client.cpp:98-102 | of a payload larger than the buffer as much as fits is read, and the rest is parsed as headers and payloads |
| TcpClient.RoundTripIffFits | TCPtest/client.cpp:98-125 | parsing returns a serialised sequence if and only if every payload fits the buffer |
| TcpClient.ParsePrefix | TCPtest/client.cpp:64-128 | parsing a prefix gives its whole messages, then at most one short delivery |
| TcpClient.PrefixIffNotInsidePayload | TCPtest/client.cpp:67-102 | parsing a byte prefix yields a prefix of the messages if and only if the cut is outside payloads |
| TcpClient.CompleteOfPrefix | TCPtest/client.cpp:64-128 | the complete deliveries of any prefix are the messages whole in it |
| TcpClient.ShortDeliveryExample | TCPtest/client.cpp:98-111 | of a stream cut inside a payload fewer bytes than announced are read as the image |
| UdpFragmenter.SendData | slam_sensor_server/src/udp_server.cpp:22-49 | for any accepted lengths: payloads join to the data or its part before the first failure, numbers count from 0 |
| UdpFragmenter.EveryLengthPossible | slam_sensor_server/src/udp_server.cpp:39-44 | the modelled socket can return every length above the header's 8 bytes up to the whole datagram, and -1 |
| UdpFragmenter.WholeFragments | slam_sensor_server/src/udp_server.cpp:24-47 | sent whole, packet k carries exactly its 1500-byte piece and there are ceil(n/1500) packets |
| UdpFragmenter.PiecesOf1500 | slam_sensor_server/src/udp_server.cpp:24-47 | packet k is the bytes from 1500k up to 1500k + 1500 or the end, and together they are all |
| UdpFragmenter.AcceptedSizes | slam_sensor_server/src/udp_server.cpp:36-47 | under any network a packet carries what the socket accepted of the next 1500 bytes or of the rest, right behind the packet before |
| UdpFragmenter.ImageHas241Packets | slam_sensor_server/src/udp_server.cpp:24-47 | 360960 bytes give the numbers 0 to 240 |
| UdpFragmenter.PlaceRecovers | slam_sensor_server/src/udp_server.cpp:22-47 | placing what arrived recovers exactly the bytes of the packets that arrived |
| UdpFragmenter.OrderIndependentRecovery | slam_sensor_server/src/udp_server.cpp:22-47 | any arrival order, with duplicates, rebuilds the data |
| LossDetector.ReceiveLoop | test_client/client.cpp:44-81 | the loop over the counter array computes the detector's reports |
| LossDetector.ReportsMean | test_client/client.cpp:52-74 | read off the arrivals alone: a report for each packet numbered 240 or more, with a warning exactly if its camera's packets since the latest such one are not as many as its number |
| LossDetector.CamerasAreIndependent | test_client/client.cpp:52-74 | for every interleaving a camera's warnings depend on its own packets only |
| LossDetector.WarningIffCountDiffers | test_client/client.cpp:60-74 | with no assumption on duplicates: a warning exactly if the count is not the last number |
| LossDetector.WarningRightIff | test_client/client.cpp:52-74 | of what arrives between two final packets, with any losses, duplicates and order: the warning is right exactly if nothing is duplicated, or packets are missing and not as many as are duplicated |
| LossDetector.WarningPerImageSent | test_client/client.cpp:52-74 | per image sent, when final packets too are lost: no report without the final packet, its packets count towards the next image, and when the next report is right |
| LossDetector.WarningIffLost | test_client/client.cpp:52-74 | without duplicates: a warning exactly if some packet of that image is missing |
| LossDetector.DuplicateHidesLoss | test_client/client.cpp:63-65 | a duplicate can silence the warning |
| LossDetector.DuplicateRaisesFalseAlarm | test_client/client.cpp:63-65 | with every packet there, a duplicate raises the warning |
| LossDetector.FaithfulDeliveryIsSilent | test_client/client.cpp:60-74 | the fragmenter's packets of any number of images, none lost or repeated, raise no warning in any order within an image |
| I2cWords.PlayWrite | xilinx/visensor-srv/src/I2CBusRaw.cpp:84-94 | the four words set exactly the addressed register |
| I2cWords.PlayRead | xilinx/visensor-srv/src/I2CBusRaw.cpp:137-158 | the four words return the register's bytes, high first, and change no register |
| I2cWords.WordsOnTheBus | xilinx/visensor-srv/src/I2CBusRaw.cpp:84-158 | the values of the words of both calls: address 0x48 with its start bit, register, high byte before low byte, the stop bit on the last word only |
| I2cWords.CallEndsAtStop | xilinx/visensor-srv/src/I2CBusRaw.cpp:93-158 | the slave is addressed from the first word of a call on until its stop word |
| I2cWords.WriteThenRead | xilinx/visensor-srv/src/I2CBusRaw.cpp:84-176 | every 16-bit value is read back as written; no other register changes |
| I2cWords.TransactionsRefineRegisterFile | xilinx/visensor-srv/src/I2CBusRaw.cpp:56-179 | any sequence of transactions is a sequence of reads and writes of a plain register file |
| I2cBus.I2CBusRaw.WriteReg | xilinx/visensor-srv/src/I2CBusRaw.cpp:56-95 | 1 with nothing pushed, only if TX_FIFO is still not empty after ten sleeps and the controller took too few words; otherwise 0 with exactly the four words pushed, when the bus was idle or after ten sleeps, and the write takes effect at any pace |
| I2cBus.I2CBusRaw.ReadReg | xilinx/visensor-srv/src/I2CBusRaw.cpp:107-179 | 1 as a write, or 0 with exactly the four words pushed; the register's value if both receive waits saw a byte, as they do with a prompt controller |
| I2cBus.I2CBusRaw.WaitTxEmpty | xilinx/visensor-srv/src/I2CBusRaw.cpp:66-70 | at most ten sleeps, exactly ten if it fails, which needs a controller that takes too few words; nothing is lost while waiting |
| I2cBus.I2CBusRaw.WaitNotBusy | xilinx/visensor-srv/src/I2CBusRaw.cpp:72-76 | ends when the bus is found idle, or after ten sleeps |
| I2cBus.I2CBusRaw.WaitRx | xilinx/visensor-srv/src/I2CBusRaw.cpp:160-165 | ends with a byte in RX_FIFO, or after ten sleeps if none is to come or the controller stores it too late |
| I2cBus.PromptIsInTime | xilinx/visensor-srv/src/I2CBusRaw.cpp:66-70 | a controller that in any ten accesses takes four words and stores a byte lets no wait fail |
| I2cBus.I2CBusRaw.RunCalls | xilinx/visensor-srv/src/I2CBusRaw.cpp:56-179 | over any run of calls, those that return 0 push their words and act as reads and writes of a plain register file, values read included if no wait ran out; with a prompt controller all return 0; the TX FIFO never holds more than 4 words |
| I2cBus.I2CBusRaw.WriteThenReadBack | xilinx/visensor-srv/src/I2CBusRaw.cpp:56-179 | through the FIFOs, a timely write and read return the value written |
| SharedMemoryLayout.RegionsTile | slam_sensor_server/src/shared_memory_manager.cpp:44-72 | for all numbers and sizes the regions tile the mapped space |
| SharedMemoryLayout.ExactlyOneRegion | slam_sensor_server/src/shared_memory_manager.cpp:67-72 | every address is in exactly one region |
| SharedMemoryLayout.RegionsAreSeparateRecords | slam_sensor_server/src/shared_memory.cpp:27-41 | over any accesses each region behaves as its own flag and data |
| SharedMemoryLayout.SharedMemoryManager.constructor | slam_sensor_server/src/shared_memory_manager.cpp:40-73 | start and size of every region: the cameras', the IMU's, then the configuration's, each behind its flag byte; they are those of the tiling |
| SharedMemoryLayout.SharedMemory.SetNewDataAvailable | slam_sensor_server/src/shared_memory.cpp:39-41 | only the flag byte changes |
| KernelArea.MaskRoundsDown | meta-visensor/recipes-visensor/visensor-mod/files/visensor.c:293-295 | masking with PAGE_MASK rounds down to a page |
| KernelArea.AreaInsideAllocation | meta-visensor/recipes-visensor/visensor-mod/files/visensor.c:288-295 | the area is page aligned and inside the allocation, wherever that lies |
| KernelArea.PagesAreBoundaries | meta-visensor/recipes-visensor/visensor-mod/files/visensor.c:328-332 | the pages marked are exactly the page boundaries in the area |
| KernelArea.KernelModule.Init | meta-visensor/recipes-visensor/visensor-mod/files/visensor.c:284-345 | exactly the area's pages are marked, its even words hold 0xdead and its odd words 0xbeef over the index of the pair, and no other word changes |
| KernelArea.KernelModule.Mmap | meta-visensor/recipes-visensor/visensor-mod/files/visensor.c:70-91 | exactly the requests at offset 0 that fit are accepted, and stay inside the area |
| KernelArea.RingFitsArea | xilinx/visensor-srv/src/MT9V034.cpp:13-22 | the eight-image ring and its sentinel fit the kernel area |
| RegisterWindow.ReadingFromStart | memory_allocator/demo_driver.c:299-330 | reads from the start give a prefix of the registers, all 128 bytes exactly if enough is asked for, then nothing |
| RegisterWindow.Driver.Read | memory_allocator/demo_driver.c:299-330 | a clamped run of registers, and the position advanced by its length |
| RegisterWindow.StaysInsideIff | memory_allocator/demo_driver.c:334-355 | exactly when a write at any position stays in the window, for both widths of size_t |
| RegisterWindow.Driver.Write | memory_allocator/demo_driver.c:334-366 | a write that stays in the window replaces a clamped run and leaves all other registers unchanged |
| RegisterWindow.Driver.WriteThenRead | memory_allocator/demo_driver.c:299-366 | what was written is read back |

## Left out

- Progress.BlockedProducerIsFreed: bounds the main thread's own events; that the scheduler lets it run, and the wait of the loop's timer, are not modelled.
- TcpClient.ReceiveLoop: only streams ended by the peer are modelled, not reset ones.
- UdpFragmenter.SendData: assumes a successful send accepts at least one payload byte; with none the original would not end.
- LossDetector.ReceiveLoop: leaves out the copy into the image buffers, which always goes to offset 0, and takes camera numbers 0 and 1 only.
- I2cBus.I2CBusRaw.ReadReg: reading an empty FIFO gives an arbitrary byte, so nothing is said of a read whose receive waits ran out; what the camera does on its soft reset register is not modelled.
- RegisterWindow.Driver.Read: covers positions 0 to 128; the log buffer behind them is not modelled.
- RegisterWindow.Driver.Write: covers exactly the writes that stay in the window (`StaysInsideIff`); what the others do to the memory around it is not modelled.
- KernelArea.KernelModule.Mmap: the kernel's remapping call is taken to succeed, and virtual addresses stand for physical ones.
- Sockets, threads, timers, image display, device files and register mapping are parameters or left out.
- The FPGA beyond the one assumed producer step.
- addRingBuffer of the ring server's SharedMemoryManager, which the main loop does not use.
- The TCP server of slam_sensor_server, and which camera's bytes its main loop sends.
- The bandwidth measurements of UDPtest and TCPtest, whose results depend on wall-clock time.
- The log buffer and interrupt handling of the demo driver, and the unloading and error paths of the kernel module.
- The I2C tools taken over from elsewhere, device trees and build files.

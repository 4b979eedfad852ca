# Verification of the device protocols of dbus-fronius

This project models, in Dafny 4.11, the state machines and buffers with which dbus-fronius finds PV inverters
on the network and polls them, and proves what they keep on every run:

- the CRC, the byte-at-a-time receiver and the request queue of the Modbus RTU client; framing, transaction
  table and frames of the Modbus TCP client (`Crc16`, `Rtu*`, `Tcp*`, `Bytes`, `Modbus`);
- the ring buffer, the chunked-body decoder, the header and the digest code of the bundled HTTP client
  (`RingBuffer*`, `Chunked*`, `HttpBody`, `HttpHeader*`, `Digest*`);
- the address generator and the scan scheduler (`Addresses`, `Networks`, `AddressGenerator`, `Gateway*`,
  `InverterGateway`; `AddressProgress` for what its progress shows);
- the apportioning of energy to phases (`EnergyModel`, `DataProcessor`);
- the SunSpec walk, the SunSpec and SMA updaters and the Solar API detector (`Sunspec*`, `Sma*`, `SolarApi*`).

A component that changes its fields in place is a class with the fields of the source. Each of its methods is
proved to do one step of a function on values, and the properties are proved about that function: for all
inputs, and for all runs, which are written as traces of events. Signals, timers, sockets and settings are
events and fields. `dafny verify dfyconfig.toml` checks everything.

## Where the code does not do what it promises

Each of these is a theorem, most of them with the exact condition under which the code does meet its promise.

- The RTU client feeds bytes that arrive while it is idle to the checksum, although it says it ignores them;
  a single one makes the next answer unreadable (`AnswerRoundTrip`, `OneStrayByteLosesTheAnswer`). Its frame
  for a multiple write lacks the values (`RequestDecodes`). A corrupted byte count can frame a shorter packet
  that is accepted (`WrongCountIsRefused`, `CorruptionByPosition`), and so can an answer to a write that has
  become an exception (`WriteCorruptionByPosition`).
- Two debug assertions do not hold. That at `modbus_rtu_client.cpp:284` contradicts the queue that the lines
  behind it keep. That at `local_ip_address_generator.cpp:139` fails for networks of which none has a host
  bit, without a priority address (`AssertionIsRight`). The model follows the lines behind them.
- The TCP client takes the size of its whole buffer for that of a reply to a multiple write
  (`SplitInvariance`), and its 8-bit length overflows at 125 values (`RequestRoundTrip`).
- The chunk decoder takes part of a line behind the last-chunk line for data if a delivery ends within that
  line, and then waits for ever (`BodyIsDecoded`). It accepts negative sizes; -1 ends the body, most others never
  do (`MinusOneFinishes`, `NegativeNeverEnds`).
- A full scan can be lost if it is requested while hosts of another scan are active (`FullScanSurvives`); a
  scan of any type that goes on without an address to scan never ends, and the periodic scan does not come
  back (`EndsUnlessEmpty`, `FirstStartIsStuck`); beside another network, one without host bit makes the
  progress wrong (`PercentageIsRight`, `NetworkOfOne`).
- A phase whose published energy is zero, while the settings hold another value, makes the other phases lose
  energy (`UnchangedTotal`).
- A chain of SunSpec model lengths that wraps around to a register it has been at makes the detector read for
  ever (`WalkIsEndless`).
- A SunSpec nameplate or control model that is too large for one reply ends the walk without a device
  (`WalkInvertsTheMap`). With a limit scale of 65534.5 or more some limits are written as the register value
  for no limit, or wrap around (`LimitRoundTrip`, `LimitWrapsAround`).
- A limit requested while another is being written is forgotten (`LimitIsForgotten`). A socket lost during
  a write, or a disconnect while a request is out, leaves an updater with a request and an armed timer
  (`LostDuringWrite`, `LostDuringLogin`, `DisconnectDuringRead`). The SMA updater does not check the operating
  mode if the third login succeeds, and goes by the one it noted before (`ThirdLoginSkipsMode`).
- The digest credentials are printed without escaping (`QuotedRoundTrip`).
- The class comment of the address generator promises every address of the network but that of the host; the
  code also leaves out the first and the last address of the network, and of a link-local network all but one
  (`NetworkHostsExact`, `LinkLocal`).

## Model

| member | source | states |
|---|---|---|
| Crc.Crc16.Add | software/src/modbus_tcp_client/crc16.cpp:53-58 | one update by table keeps the register that of all bytes fed so far |
| Crc.Crc16.AddAll | software/src/modbus_tcp_client/crc16.cpp:60-64 | feeding a message is feeding its bytes one after the other |
| Crc.Crc16.GetValue | software/src/modbus_tcp_client/crc16.h:40-43 | the checksum, high byte first, of everything fed since the last reset |
| Crc.Crc16.Reset | software/src/modbus_tcp_client/crc16.h:49-53 | the register is as if nothing had been fed |
| Crc.Crc16.Compute | software/src/modbus_tcp_client/crc16.cpp:66-71 | the checksum of one message, as a fresh object computes it |
| Crc.TableIsShift8 | software/src/modbus_tcp_client/crc16.cpp:4-46 | each of the 256 entries of the two tables is eight shifts of the polynomial 0xA001 (MODBUS over Serial Line V1.02, section 6.2.2) |
| Crc.LookupIsShift8 | software/src/modbus_tcp_client/crc16.cpp:53-58 | an update by table adds the byte to the register and shifts it by eight bits, from every state |
| Crc.TableIsShiftRegister | software/src/modbus_tcp_client/crc16.cpp:53-64 | for every state and message the tables give what the bit-by-bit shift register gives |
| Crc.ResidueIsZero | software/src/modbus_tcp_client/crc16.cpp:53-64 | a message followed by its own checksum leaves the register at zero |
| Crc.BurstDetected | software/src/modbus_tcp_client/crc16.cpp:53-71 | two messages of any length whose bits differ only within 16 consecutive positions never have the same checksum |
| Crc.AdjacentBytesDetected | software/src/modbus_tcp_client/crc16.cpp:53-71 | two different messages that agree outside two adjacent bytes have different checksums |
| Crc.KnownChecksum | software/src/modbus_tcp_client/crc16.cpp:53-71 | a request for two registers of unit 1 from the first one on, 01 03 00 00 00 02, ends with C4 0B |
| Crc.RunInjective | software/src/modbus_tcp_client/crc16.cpp:53-58 | different register states stay different under every message |
| Crc.PrefixHarmless | software/src/modbus_tcp_client/crc16.cpp:53-64 | bytes fed in front of a message leave its checksum as it is if and only if they lead the register back to its start |
| Crc.OneByteIsHarmful | software/src/modbus_tcp_client/crc16.cpp:53-58 | no single byte leads the register back to its start |
| Bytes.RegisterByteAt | software/src/modbus_tcp_client/crc16.h:7-20 | every register is sent as its high and then its low byte |
| Modbus.RegistersRoundTrip | software/src/modbus_tcp_client/modbus_rtu_client.cpp:115-118 | the registers read from the bytes of a register list are that list |
| Rtu.ModbusRtuClient.HandleByteRead | software/src/modbus_tcp_client/modbus_rtu_client.cpp:167-246 | one received byte is one step of the receiver, in every state |
| Rtu.ModbusRtuClient.ProcessPacket | software/src/modbus_tcp_client/modbus_rtu_client.cpp:94-138 | a packet finishes the active request only after checksum, address and function have been compared; the new state of request and queue |
| Rtu.ModbusRtuClient.Send | software/src/modbus_tcp_client/modbus_rtu_client.cpp:281-341 | a request is sent at once when the client is idle, and otherwise goes to the end of the queue |
| Rtu.ModbusRtuClient.ProcessPending | software/src/modbus_tcp_client/modbus_rtu_client.cpp:258-267 | the first waiting request is sent, or none is active |
| Rtu.ModbusRtuClient.ResetStateEngine | software/src/modbus_tcp_client/modbus_rtu_client.cpp:248-256 | the receiver forgets what it has read; the timer stops only on the way to idle |
| Rtu.ModbusRtuClient.OnTimeout | software/src/modbus_tcp_client/modbus_rtu_client.cpp:85-92 | the active request is finished with a timeout, and the next one is sent |
| Rtu.ModbusRtuClient.SetResult | software/src/modbus_tcp_client/modbus_reply.cpp:36-56 | a reply is finished once; listeners that send again inside the handler are queued |
| RtuProofs.QueueOnEveryRun | software/src/modbus_tcp_client/modbus_rtu_client.cpp:85-92 | on every run of bytes, timeouts and new requests the finished requests are the first ones submitted, each once and in order, and finished, active and pending ones are all of them; idle if and only if all are finished |
| RtuProofs.StepKeepsInv | software/src/modbus_tcp_client/modbus_rtu_client.cpp:248-341 | every event keeps queue and receiver consistent and finishes at most the active request, with a result that the event justifies |
| RtuProofs.ResultsAreJustified | software/src/modbus_tcp_client/modbus_rtu_client.cpp:94-138 | no run reports data unless address, function and checksum over exactly the address-through-data bytes fit the request that was active; every other result is a timeout |
| RtuProofs.HeardCameInLast | software/src/modbus_tcp_client/modbus_rtu_client.cpp:167-246 | the bytes that are judged are the last ones received |
| RtuProofs.CompleteByte | software/src/modbus_tcp_client/modbus_rtu_client.cpp:235-245 | the last byte of a packet finishes the active request if and only if the packet answers it, and resets the receiver otherwise |
| RtuAnswers.AnswerRoundTrip | software/src/modbus_tcp_client/modbus_rtu_client.cpp:94-256 | a well-formed answer, byte by byte, finishes the active request with exactly its registers or exception code if and only if the bytes received while idle led the checksum register back to its start |
| RtuAnswers.OneStrayByteLosesTheAnswer | software/src/modbus_tcp_client/modbus_rtu_client.cpp:169-174 | one byte received while idle is fed to the checksum and makes the next answer unreadable |
| RtuCorruption.CorruptionIsRejected | software/src/modbus_tcp_client/modbus_rtu_client.cpp:98-101 | an answer corrupted in two adjacent bytes from address to data that still announces its own length is refused by the receiver, whatever the request, and the client goes on waiting |
| RtuCorruption.WrongCountIsRefused | software/src/modbus_tcp_client/modbus_rtu_client.cpp:203-211 | a wrong byte count is refused for every payload if and only if it leaves out no byte, or a single one where the checksums do not slip |
| RtuCorruption.TwelveRegistersSlip | software/src/modbus_tcp_client/modbus_rtu_client.cpp:98-101 | a count that leaves out a single byte is accepted for some answers of 12 registers |
| RtuCorruption.ShorterCountIsAccepted | software/src/modbus_tcp_client/modbus_rtu_client.cpp:98-121 | a byte count that leaves out two bytes or more is accepted, with the registers in front of it, when the bytes behind them are its checksum |
| RtuCorruption.WriteCorruptionByPosition | software/src/modbus_tcp_client/modbus_rtu_client.cpp:98-121 | for all answers to a write, whose words the client does not compare with its request, such corruption is refused if and only if it lies behind the function code |
| RtuCorruption.CorruptedExceptionIsRefused | software/src/modbus_tcp_client/modbus_rtu_client.cpp:167-246 | such corruption of an exception is refused wherever it lies |
| RtuCorruption.CorruptionByPosition | software/src/modbus_tcp_client/modbus_rtu_client.cpp:179-211 | for all answers to a read of a length, corruption of two adjacent bytes from address to data is refused if and only if it lies behind the byte count |
| RtuAnswers.RequestDecodes | software/src/modbus_tcp_client/modbus_rtu_client.cpp:288-338 | the frame of a request decodes back to it if and only if it is no multiple write; every frame leaves the checksum register of its receiver at zero |
| Tcp.ModbusTcpClient.OnReadyRead | software/src/modbus_tcp_client/modbus_tcp_client.cpp:115-177 | a delivery leaves the incomplete rest in the buffer and makes exactly the calls of the frames in front of it |
| Tcp.ModbusTcpClient.HandleFrame | software/src/modbus_tcp_client/modbus_tcp_client.cpp:124-175 | one frame makes the call that its function code, size and payload ask for |
| Tcp.ModbusTcpClient.WriteMultipleHoldingRegisters | software/src/modbus_tcp_client/modbus_tcp_client.cpp:58-72 | the frame of a multiple write, and a new pending reply under the next id |
| Tcp.ModbusTcpClient.WriteSingleHoldingRegister | software/src/modbus_tcp_client/modbus_tcp_client.cpp:48-56 | the frame of a single write, and a new pending reply under the next id |
| Tcp.ModbusTcpClient.ReadRegisters | software/src/modbus_tcp_client/modbus_tcp_client.cpp:214-223 | the frame of a read, and a new pending reply under the next id |
| Tcp.ModbusTcpClient.CreateFrame | software/src/modbus_tcp_client/modbus_tcp_client.cpp:225-239 | the id goes up by one, modulo 65536, and the header carries it |
| Tcp.ModbusTcpClient.SendFrame | software/src/modbus_tcp_client/modbus_tcp_client.cpp:194-201 | a new reply with a running timer takes the place of its id in the table |
| Tcp.ModbusTcpClient.PopReply | software/src/modbus_tcp_client/modbus_tcp_client.cpp:203-212 | the reply of an id is taken out of the table |
| Tcp.ModbusTcpClient.SetFinished | software/src/modbus_tcp_client/modbus_tcp_client.cpp:241-253 | a response finishes the reply under its id, if there is one |
| Tcp.ModbusTcpClient.OnSocketError | software/src/modbus_tcp_client/modbus_tcp_client.cpp:185-192 | every reply in the table is finished with an error, and the table is empty |
| Tcp.ModbusTcpClient.OnReplyDestroyed | software/src/modbus_tcp_client/modbus_tcp_client.cpp:179-183 | whatever is in the table under the id of a deleted reply is removed |
| Tcp.ModbusTcpClient.ReplyTimerEvent | software/src/modbus_tcp_client/modbus_tcp_client.cpp:274-279 | a reply whose timer fires is finished with a timeout and stays in the table |
| TcpFraming.SplitInvariance | software/src/modbus_tcp_client/modbus_tcp_client.cpp:115-177 | for every stream of well-formed replies the deliveries make the calls of one frame at a time if and only if each reply to a multiple write ends a delivery |
| TcpFraming.SplitNeverMatters | software/src/modbus_tcp_client/modbus_tcp_client.cpp:115-177 | without replies to multiple writes no partition of the stream matters |
| TcpFraming.TwoMultipleAnswersInOneDelivery | software/src/modbus_tcp_client/modbus_tcp_client.cpp:157-165 | two replies to multiple writes in one delivery: the first becomes a parse error |
| RtuSending.FramesOnEveryRun | software/src/modbus_tcp_client/modbus_rtu_client.cpp:281-341 | on every run as many frames were written as requests are finished or active, in the order of submission; each leaves the checksum register at zero and is decoded to its request, unless that is a multiple write, of which it only announces the values |
| RtuSending.TimeoutFinishes | software/src/modbus_tcp_client/modbus_rtu_client.cpp:85-92 | a timeout finishes the active request with 254, resets the receiver and sends the next request, if any |
| RtuSending.SubmittedOnEveryRun | software/src/modbus_tcp_client/modbus_rtu_client.cpp:281-287 | on every run the requests are those of the callers and of the listeners of finished ones, in order and numbered |
| TcpFraming.MalformedFrame | software/src/modbus_tcp_client/modbus_tcp_client.cpp:124-175 | what a frame on its own leads to that is no well-formed reply: the parse error 253, or nothing if its function was never asked for |
| TcpFraming.ShortFrameIsDropped | software/src/modbus_tcp_client/modbus_tcp_client.cpp:117-135 | a frame without a function code is dropped |
| Modbus.OddByte | software/src/modbus_tcp_client/modbus_rtu_client.cpp:115-118 | of an odd payload the last byte becomes the upper half of a register |
| TcpTransactions.EveryReply | software/src/modbus_tcp_client/modbus_tcp_client.cpp:179-279 | what every event makes of every reply: one that waits is finished by its own response, by its timer with 254, or by a socket error with 255 while it is in the table; no other changes |
| TcpTransactions.EveryEntry | software/src/modbus_tcp_client/modbus_tcp_client.cpp:179-253 | what every event makes of every entry of the table, and the reply that a request adds |
| TcpTransactions.RepliesOnEveryRun | software/src/modbus_tcp_client/modbus_reply.cpp:36-56 | on every run of responses in any order, timeouts, socket errors, deletions and ids that wrap, a reply finishes at most once and an unfinished one has a running timer |
| TcpTransactions.ResultsStay | software/src/modbus_tcp_client/modbus_reply.cpp:36-56 | a reported result is never changed |
| TcpTransactions.ResponseFinishesItsRequest | software/src/modbus_tcp_client/modbus_tcp_client.cpp:194-253 | with fewer than 65536 later requests a response finishes the request that carried its id or none; exactly when it does |
| TcpTransactions.WhoRemovesAnEntry | software/src/modbus_tcp_client/modbus_tcp_client.cpp:179-212 | the exact events that take a waiting reply out of the table |
| TcpTransactions.DeletionDropsTheYounger | software/src/modbus_tcp_client/modbus_tcp_client.cpp:179-183 | deleting a reply drops a younger one under the same id, whose response then finishes nothing |
| TcpTransactions.DeliveriesAreResponses | software/src/modbus_tcp_client/modbus_tcp_client.cpp:241-253 | the calls of a whole delivery are so many single responses |
| TcpRequests.RequestRoundTrip | software/src/modbus_tcp_client/modbus_tcp_client.cpp:48-72 | the length field counts the bytes behind it, and the frame decodes back to id, unit, function, start and values, if and only if there are at most 124 values |
| RingBuffer.QRingBuffer.Free | software/src/qhttp/qringbuffer_p.h:121-151 | bytes go from the front of the sequence |
| RingBuffer.QRingBuffer.Reserve | software/src/qhttp/qringbuffer_p.h:153-188 | room at the end, as the last bytes of the last block; nothing in front of it changes |
| RingBuffer.QRingBuffer.Append | software/src/qhttp/qringbuffer_p.h:153-188 | reserving and filling appends the bytes |
| RingBuffer.QRingBuffer.Truncate | software/src/qhttp/qringbuffer_p.h:190-193 | what is behind a position goes |
| RingBuffer.QRingBuffer.Chop | software/src/qhttp/qringbuffer_p.h:195-223 | bytes go from the end of the sequence, across blocks |
| RingBuffer.QRingBuffer.IsEmpty | software/src/qhttp/qringbuffer_p.h:225-227 | empty if and only if the sequence is |
| RingBuffer.QRingBuffer.Size | software/src/qhttp/qringbuffer_p.h:254-256 | the length of the sequence |
| RingBuffer.QRingBuffer.NextDataBlockSize | software/src/qhttp/qringbuffer_p.h:67-73 | how much of the front of the sequence lies in the first block; more than nothing unless it is empty |
| RingBuffer.QRingBuffer.GetChar | software/src/qhttp/qringbuffer_p.h:229-235 | the first byte, or -1 |
| RingBuffer.QRingBuffer.PutChar | software/src/qhttp/qringbuffer_p.h:237-240 | one byte at the end |
| RingBuffer.QRingBuffer.UngetChar | software/src/qhttp/qringbuffer_p.h:242-252 | one byte in front |
| RingBuffer.QRingBuffer.Clear | software/src/qhttp/qringbuffer_p.h:258-266 | nothing is left |
| RingBuffer.QRingBuffer.IndexOf | software/src/qhttp/qringbuffer_p.h:268-286 | the first position of a character, or -1 if there is none |
| RingBuffer.QRingBuffer.IndexOfWithin | software/src/qhttp/qringbuffer_p.h:288-313 | the same within the first bytes |
| RingBuffer.QRingBuffer.Read | software/src/qhttp/qringbuffer_p.h:315-327 | the next bytes are copied and taken off, across blocks |
| RingBuffer.QRingBuffer.ReadBytes | software/src/qhttp/qringbuffer_p.h:329-339 | the same as a byte array |
| RingBuffer.QRingBuffer.Peek | software/src/qhttp/qringbuffer_p.h:388-408 | the first bytes, which stay |
| RingBuffer.QRingBuffer.Skip | software/src/qhttp/qringbuffer_p.h:410-412 | bytes are dropped |
| RingBuffer.QRingBuffer.ReadLine | software/src/qhttp/qringbuffer_p.h:414-433 | a line with its line end and a terminating zero, as far as it fits |
| RingBuffer.QRingBuffer.CanReadLine | software/src/qhttp/qringbuffer_p.h:435-437 | there is a line end in the sequence |
| RingBufferRuns.LineIsRead | software/src/qhttp/qringbuffer_p.h:414-433 | what readLine takes: as much as fits without a line end, up to the first one and in front of the terminator otherwise, and -1 without room for that |
| RingBufferRuns.Replay | software/src/qhttp/qringbuffer_p.h:121-437 | for every block size and every run of operations the buffer gives the replies of one flat sequence |
| HttpBody.QHttp.ReadChunks | software/src/qhttp/qhttp.cpp:2850-2922 | the chunk loop reads, consumes and decides what the decoder on values does |
| HttpBody.QHttp.ReadTrailerLines | software/src/qhttp/qhttp.cpp:2877-2882 | lines are skipped until a blank one, as long as there are whole lines |
| HttpBody.QHttp.SlotReadyRead | software/src/qhttp/qhttp.cpp:2848-2972 | one delivery is one step of the decoder on all bytes stored so far, whatever the user has read in between; an error drops what this call has read |
| HttpBody.QHttp.Read | software/src/qhttp/qhttp.cpp:1862-1886 | the next bytes of the body, across blocks of the buffer; the body that is stored stays the same |
| HttpBody.QHttp.ReadAll | software/src/qhttp/qhttp.cpp:1893-1901 | all bytes stored and not read yet |
| HttpBody.LoopBehind | software/src/qhttp/qhttp.cpp:2905-2908 | what was stored before does not influence the decoder |
| ChunkedProofs.HexTextIsRead | software/src/qhttp/qhttp.cpp:2865-2865 | every number that an int holds is read from its hexadecimal text, in either case |
| ChunkedProofs.IntegerIsRead | software/src/qhttp/qhttp.cpp:2865-2865 | a number with white space, a sign and a prefix is read as what it stands for if an int can hold that, and not at all otherwise |
| ChunkedProofs.OnlyIntegersAreRead | software/src/qhttp/qhttp.cpp:2865-2874 | nothing else is read as a size |
| ChunkedProofs.BadSizeFails | software/src/qhttp/qhttp.cpp:2865-2874 | a size line that is no number fails the response |
| ChunkedProofs.MinusOneFinishes | software/src/qhttp/qhttp.cpp:2865-2890 | a size of -1 is accepted and ends the body at once |
| ChunkedProofs.NegativeNeverEnds | software/src/qhttp/qhttp.cpp:2865-2908 | any other negative size but -2 makes everything behind it data, and never ends |
| ChunkedProofs.BadEndFails | software/src/qhttp/qhttp.cpp:2900-2925 | a chunk that is not followed by a line end fails the response |
| ChunkedProofs.SizeLineIsRead | software/src/qhttp/qhttp.cpp:2857-2875 | the size line of a chunk, with white space and an extension, is read as the length of its data |
| ChunkedProofs.LoopReads | software/src/qhttp/qhttp.cpp:2853-2922 | from every position in a body one call ends at the position the bytes lead to; chunkedSize is 0 only behind the CRLF of a chunk |
| ChunkedProofs.BodyIsDecoded | software/src/qhttp/qhttp.cpp:2853-2922 | for every body and every split into deliveries the decoder is done with exactly the data of the chunks (section 4.1 of RFC 7230) if and only if no delivery ends strictly within a line behind the last-chunk line; otherwise it never is |
| ChunkedProofs.NeverTooEarly | software/src/qhttp/qhttp.cpp:2853-2922 | before the last byte has arrived a body is never complete and never wrong, and what is stored is a beginning of its data |
| ChunkedProofs.LastByteOnItsOwn | software/src/qhttp/qhttp.cpp:2889-2908 | no body survives the delivery of its last byte on its own |
| HttpHeader.QHttpResponseHeader.Parse | software/src/qhttp/qhttp.cpp:666-704 | reading a text line by line is the parser on values; what cannot be read makes the header invalid |
| HttpHeader.QHttpResponseHeader.ParseStatusLine | software/src/qhttp/qhttp.cpp:1163-1190 | version, code and reason of the first line |
| HttpHeader.QHttpResponseHeader.ParseFieldLine | software/src/qhttp/qhttp.cpp:890-899 | name and value of any other line |
| HttpHeader.QHttpResponseHeader.ToString | software/src/qhttp/qhttp.cpp:1195-1200 | the printed header; without field lines if it is not valid |
| HttpHeader.QHttpResponseHeader.FieldsToString | software/src/qhttp/qhttp.cpp:908-922 | the field lines, each with its line end |
| HttpHeaderTexts.HeaderIsTold | software/src/qhttp/qhttp.cpp:666-704 | a header with any white space, folded or not, and either line end says its version, code, reason and fields, in order |
| HttpHeaderTexts.TextIsParsed | software/src/qhttp/qhttp.cpp:666-704 | with either line end, what is parsed are the lines, each with those behind it that begin with white space |
| HttpHeaderTexts.HeaderIsPrinted | software/src/qhttp/qhttp.cpp:1195-1200 | the printed text, byte by byte, with numbers without leading zeros |
| HttpHeaderTexts.SimplifiedWords | software/src/qhttp/qhttp.cpp:1169-1169 | any white space between words counts as one space |
| HttpHeaderTexts.NumberWithSign | software/src/qhttp/qhttp.cpp:1181-1183 | a number with white space and a sign is read as what it stands for if an int can hold that, and as zero otherwise |
| HttpHeaderTexts.OtherStatusIsInvalid | software/src/qhttp/qhttp.cpp:1170-1188 | any first line but HTTP/d.d and a code makes the header invalid |
| HttpHeaderTexts.NoField | software/src/qhttp/qhttp.cpp:892-894 | a line without a colon makes the header invalid |
| HttpHeaderProofs.HeaderRoundTrip | software/src/qhttp/qhttp.cpp:666-704 | parsing a printed response header returns version, code, reason and all fields, in order |
| HttpHeaderProofs.StatusIsRead | software/src/qhttp/qhttp.cpp:1163-1200 | the status line is read back, with and without a reason |
| DigestAuth.QHttpAuthenticatorPrivate.ParseDigestAuthenticationChallenge | software/src/qhttp/qhttpauthenticator.cpp:492-555 | the options of a challenge, none if its quality of protection is not supported |
| DigestAuth.QHttpAuthenticatorPrivate.DigestMd5Credentials | software/src/qhttp/qhttpauthenticator.cpp:632-670 | the credentials for a challenge, and the nonce count goes up by one |
| DigestModel.CredentialsRoundTrip | software/src/qhttp/qhttpauthenticator.cpp:653-670 | parsing printed credentials recovers every field that was printed, and no other (section 3.2 of RFC 2617) |
| DigestModel.QuotedRoundTrip | software/src/qhttp/qhttpauthenticator.cpp:508-537 | a value printed between quotes is read back if and only if it holds no quote and no backslash: the printer does not escape |
| DigestModel.NonceCountHasEightDigits | software/src/qhttp/qhttpauthenticator.cpp:636-639 | the nonce count is printed in hexadecimal, with eight digits as long as it fits 32 bits |
| DigestModel.FieldIsPrinted | software/src/qhttp/qhttpauthenticator.cpp:653-670 | a field is printed as name and value, some values in double quotes |
| DigestModel.EscapedIsRead | software/src/qhttp/qhttpauthenticator.cpp:493-520 | a value in double quotes ends at the next one that has no backslash in front of it, which is dropped |
| DigestModel.QopIsChecked | software/src/qhttp/qhttpauthenticator.cpp:539-552 | a challenge that offers qualities of protection is taken with auth if that is one of them, and not at all otherwise |
| DigestModel.CredentialsAreNamed | software/src/qhttp/qhttpauthenticator.cpp:653-670 | every field of printed credentials is found under its name, those that are empty are left out |
| AddressGenerator.LocalIpAddressGenerator.Next | software/src/local_ip_address_generator.cpp:45-63 | exactly the first remaining address is taken; the assertion is never reached, and the position goes up |
| AddressGenerator.LocalIpAddressGenerator.HasNext | software/src/local_ip_address_generator.cpp:65-76 | true if and only if an address remains |
| AddressGenerator.LocalIpAddressGenerator.SubnetNext | software/src/local_ip_address_generator.cpp:20-29 | the cursor moves to the next address that is neither the host itself nor a priority address; 32 bits do not wrap |
| AddressGenerator.LocalIpAddressGenerator.Reset | software/src/local_ip_address_generator.cpp:78-120 | all addresses are to come: the priority list, then every network in order |
| AddressGenerator.LocalIpAddressGenerator.Progress | software/src/local_ip_address_generator.cpp:122-143 | the percentage of the counts; if every network has a host bit, at most 100, and without active hosts 100 if and only if every address was taken and there was one |
| AddressGenerator.LocalIpAddressGenerator.SetPriorityOnly | software/src/local_ip_address_generator.cpp:150-157 | switching to priority addresses starts over, switching back leaves the rest |
| AddressGenerator.LocalIpAddressGenerator.SetPriorityAddresses | software/src/local_ip_address_generator.cpp:171-178 | a new list is given from its start, unless the old one has been given |
| AddressGenerator.LocalIpAddressGenerator.UseAll | software/src/local_ip_address_generator.h:27-36 | the loop of the class comment ends and sees exactly the remaining addresses, in order; the counts of progress on the way are those of the enumeration |
| Addresses.HostsExact | software/src/local_ip_address_generator.cpp:20-29 | a range gives every address but the skipped ones, and no other |
| Addresses.HostsAscend | software/src/local_ip_address_generator.cpp:20-29 | in ascending order, so none twice |
| Networks.EntriesExact | software/src/local_ip_address_generator.cpp:84-100 | networks are made of exactly the IPv4 entries, but for three special addresses, of interfaces that are up, running and no loop-back |
| Networks.PrefixNetwork | software/src/local_ip_address_generator.cpp:101-114 | of a network with m host bits, when at most n are scanned, exactly the addresses inside are given that are neither the host nor an exception |
| Addresses.NetworkHostsExact | software/src/local_ip_address_generator.cpp:85-119 | what is given for the networks is exactly what lies in the range of one of them, is not its own host and no priority address |
| Addresses.LinkLocal | software/src/local_ip_address_generator.cpp:105-109 | of a link-local network exactly 169.254.0.180 is scanned |
| Addresses.LastBounds | software/src/local_ip_address_generator.cpp:101-112 | the last address is the first plus all host bits, less one, without wrapping 32 bits |
| Addresses.HostInRange | software/src/local_ip_address_generator.cpp:111-112 | the host itself lies within its network |
| AddressProgress.ProgressGrows | software/src/local_ip_address_generator.cpp:122-142 | from one position of an enumeration to a later one the progress never goes down, for a fixed number of active hosts |
| AddressProgress.AssertionIsRight | software/src/local_ip_address_generator.cpp:138-141 | the debug assertion holds at every position if and only if there is a priority address, or a network with a host bit, or no network |
| AddressProgress.CountIsRight | software/src/local_ip_address_generator.cpp:122-137 | after every number of addresses what is done is at most all there is, and all of it exactly at the end, if and only if every network has a host bit |
| AddressProgress.PercentageIsRight | software/src/local_ip_address_generator.cpp:138-142 | after every number of addresses the percentage keeps its promise if and only if every network has a host bit, or nothing is to count, or those without are less than a hundredth of the rest and fewer than what the last address moves the count by |
| AddressProgress.HostlessByMask | software/src/local_ip_address_generator.cpp:101-114 | the networks without host bit are exactly those whose limited mask leaves none |
| AddressProgress.SizeUnderLimit | software/src/inverter_gateway.cpp:20-20 | under the limit of the gateway a network counts 4095 at most, so that 5000 networks fit the int of progress |
| AddressProgress.NetworkOfOne | software/src/local_ip_address_generator.cpp:122-142 | beside a link-local network, one without host bit shows 100 while the only address is still to come, and 150 at the end |
| Gateway.InverterGateway.ContinueScan | software/src/inverter_gateway.cpp:85-111 | the addresses are collected, the generator starts over and the pool is filled: one step of the scheduler |
| Gateway.InverterGateway.Scan | software/src/inverter_gateway.cpp:69-83 | a scan starts with the UDP detector or at once |
| Gateway.InverterGateway.OnDetectionDone | software/src/inverter_gateway.cpp:140-183 | a finished host makes room for the next, or the scan ends or falls back |
| Gateway.InverterGateway.OnDetectorReplyFinished | software/src/inverter_gateway.cpp:231-235 | a host goes on to its next detector, or is finished |
| Gateway.InverterGateway.OnInverterFound | software/src/inverter_gateway.cpp:123-138 | a found inverter ends the search on its host and becomes a known address |
| Gateway.InverterGateway.OnTimer | software/src/inverter_gateway.cpp:199-205 | the periodic scan, unless one is going on |
| Gateway.InverterGateway.OnUdpFinished | software/src/inverter_gateway.cpp:85-88 | the scan goes on when the UDP detector is done |
| Gateway.InverterGateway.OnIpAddressesChanged | software/src/inverter_gateway.cpp:192-197 | changed addresses start a priority scan |
| Gateway.InverterGateway.OnPortNumberChanged | software/src/inverter_gateway.cpp:185-190 | a changed port starts a scan of the priority addresses first |
| GatewayModel.StepFollows | software/src/inverter_gateway.cpp:106-150 | every event keeps the hosts in order, but for one that is done, and adds hosts for exactly the addresses that the generator gives out, with all detectors before them |
| GatewayModel.CreatedAreGiven | software/src/inverter_gateway.cpp:106-126 | on every run the hosts created since the generator was reset are those of the addresses it gave out, in order |
| GatewayLaws.TypeAfter | software/src/inverter_gateway.cpp:67-183 | the type of the scan after every event; it becomes full by itself only once, if it may and not all known inverters have answered |
| GatewayLaws.FoundAfter | software/src/inverter_gateway.cpp:123-138 | after every event the inverters found in this scan, and those that are known |
| GatewayLaws.UdpAfter | software/src/inverter_gateway.cpp:74-82 | after every event whether the UDP detector runs, and what it has found |
| GatewayLaws.RestartFills | software/src/inverter_gateway.cpp:106-110 | a new plan is begun as far as there is room for 64 hosts |
| GatewayLaws.OneForOne | software/src/inverter_gateway.cpp:148-150 | when a host is done while there are addresses, exactly one is started in its place |
| GatewayPlans.PlanExact | software/src/inverter_gateway.cpp:85-104 | when a scan starts or goes on with a new plan, this consists of exactly the addresses found by UDP, the configured and the known ones, and in a full scan those of the networks |
| GatewayPlans.PlanAfter | software/src/inverter_gateway.cpp:85-104 | the plan is a new one exactly when the generator is reset |
| GatewayPlans.PlanOrder | software/src/inverter_gateway.cpp:87-104 | on every run: first the addresses found by UDP, then the configured, then the known ones, each where it comes first, and the networks behind them |
| GatewayModel.InvOnEveryRun | software/src/inverter_gateway.cpp:69-183 | on every run at most 64 hosts are active, auto detect means a full scan, there is at most one automatic fallback, and the addresses of a plan are handed out in order, each once |
| GatewayModel.CalmInOrderlyScan | software/src/inverter_gateway.cpp:106-150 | in every scan that started with no active host and the UDP detector not running, and was not restarted, whatever went before it, the pool is full as long as it has hosts and addresses are left |
| GatewayModel.ScanEndsComplete | software/src/inverter_gateway.cpp:148-154 | such a scan ends only with the generator exhausted, the pool empty and every address of the plan handed out |
| GatewayModel.ScanProceeds | software/src/inverter_gateway.cpp:148-183 | each reply of a detector brings a scan exactly one step nearer to its end |
| GatewayModel.ScanEnds | software/src/inverter_gateway.cpp:140-154 | whatever else happens, finds included, unless another scan is asked for: a scan is over, or has fallen back to a full one under way, at some point of a run with as many answers as there are detectors at work or waiting |
| GatewayModel.PlanNamesOnce | software/src/inverter_gateway.cpp:85-104 | on every run a plan names no address twice if and only if no address belongs to two of the networks it scans |
| GatewayModel.FullScanSurvives | software/src/inverter_gateway.cpp:69-83 | a full scan waits for the UDP detector, whatever comes first, if and only if no host was active when it was asked for |
| GatewayModel.FullScanIsLost | software/src/inverter_gateway.cpp:140-183 | with any host left from another scan there are events that end the full scan before the UDP detector does, which then scans the priority addresses only |
| GatewayModel.StuckWithoutPlan | software/src/inverter_gateway.cpp:85-111 | a scan of any type that goes on without a host gets stuck if and only if its plan is empty |
| GatewayModel.StuckForEver | software/src/inverter_gateway.cpp:199-205 | a stuck scan stays so under all events but a request for another scan; the periodic timer is none |
| GatewayModel.EndsUnlessEmpty | software/src/inverter_gateway.cpp:85-154 | a scan that goes on without a host comes to its end, fallback included, on every endless run in which detectors answer while there are hosts and no scan is asked for, whatever is found and whatever else happens, if and only if there is an address to scan |
| GatewayModel.FirstStartIsStuck | software/src/inverter_gateway.cpp:54-62 | the detection at start-up is stuck if no address is known and UDP finds nothing |
| Processor.DataProcessor.ProcessThreePhases | software/src/data_processor.cpp:32-92 | the energies after a reading are those of one update; the powers sum up to the total power, each in proportion to the voltage times the current of its phase |
| Processor.DataProcessor.ProcessCommon | software/src/data_processor.cpp:16-30 | totals, in kWh, also for the phase of an inverter with one phase |
| Processor.DataProcessor.UpdateEnergyValue | software/src/data_processor.cpp:106-126 | the energy of one phase after a reading; the others stay |
| Processor.DataProcessor.GetEnergyValue | software/src/data_processor.cpp:128-135 | the published energy, or that of the settings if it is zero or no number |
| Processor.DataProcessor.UpdateEnergySettings | software/src/data_processor.cpp:94-99 | energies that are not zero are saved |
| EnergyModel.SumOfPhases | software/src/data_processor.cpp:54-92 | whatever was published before, the phases sum up to the last total and what the reading adds: errors do not accumulate |
| EnergyModel.SumIsTotal | software/src/data_processor.cpp:54-92 | the phases sum up to the total if and only if it has not changed, or has grown while there is power on a phase |
| Processor.PowerIsTotal | software/src/data_processor.cpp:64-86 | the powers of the phases sum up to the total power, each in proportion to its product of voltage and current; without a total there are none, without a positive sum they are zero |
| EnergyModel.FirstAndInvalid | software/src/data_processor.cpp:66-107 | the first reading only notes the total; with a total that is no number, neither are the energies of the phases |
| EnergyModel.GrowthIsApportioned | software/src/data_processor.cpp:64-92 | beside its share of the previous total each phase gets growth of the total in proportion to its product of voltage and current |
| EnergyModel.SimpleIncrement | software/src/data_processor.cpp:112-123 | once in step, the normalising form is the simple increment by the share of the phase |
| EnergyModel.RegularKeepsStep | software/src/data_processor.cpp:49-92 | a regular reading keeps the phases in step, and no phase loses energy |
| EnergyModel.InStepOnEveryRun | software/src/data_processor.cpp:49-126 | on every run of regular readings the phases stay in step with the total, and no phase ever loses energy |
| EnergyModel.UnchangedTotal | software/src/data_processor.cpp:133-134 | a reading that changes nothing leaves every phase as it is if and only if no phase is published as zero while the settings hold another value |
| Sunspec.DetectorReply.HandleReply | software/src/sunspec_detector.cpp:54-170 | one reply is one step of the walk |
| Sunspec.DetectorReply.HandleHeader | software/src/sunspec_detector.cpp:77-118 | what is noted for a model, and what is read next |
| Sunspec.DetectorReply.HandleContent | software/src/sunspec_detector.cpp:119-169 | what is taken from the common, nameplate and control models |
| SunspecModel.WalkInvertsTheMap | software/src/sunspec_detector.cpp:54-178 | for every map in front of register 65536 the walk ends, having asked for every model at its offset and nothing else, up to the first nameplate or control model of more than 123 registers; it reports a device if and only if there is no such model, the manufacturer is not SMA and there is an inverter model, with the offsets of the last matching models |
| SunspecModel.ModelsAreWalked | software/src/sunspec_detector.cpp:77-168 | from any list of models the walk comes to its end, having noted what they say, or ends without a device at the first one too large for a reply |
| SunspecContents.FoundTellsContents | software/src/sunspec_detector.cpp:117-168 | a device that is found carries the texts of its common model, the product of its manufacturer, and power, capacity and limit scale of the last models that have them |
| SunspecContents.WalkStarts | software/src/sunspec_detector.cpp:64-75 | only the two registers of SunS let a walk go on from its start |
| SunspecContents.EmptyReplyEnds | software/src/sunspec_detector.cpp:79-82 | a reply without what was asked for ends the walk without a device |
| SunspecContents.ScaledValue | software/src/sunspec_tools.cpp:5-34 | a register with a scale factor is the value times that power of ten, or no number |
| SunspecContents.TextIsRead | software/src/sunspec_tools.cpp:48-57 | a text of two characters per register, filled up with zeros, is read back |
| SunspecModel.DescribeIsLast | software/src/sunspec_detector.cpp:86-104 | offsets, phases and protocol are those of the last inverter, nameplate and control model |
| SunspecWalks.WalkIsEndless | software/src/sunspec_detector.cpp:54-178 | for every device the walk is never done if and only if it comes to a first header from which the chain of lengths leads to a position, modulo 65536, twice |
| SunspecWalks.LengthWrapsAround | software/src/sunspec_detector.cpp:112-113 | with a model of length 0xFFFE the walk is not done after any number of replies |
| SunspecWalks.TwoHalvesWrapAround | software/src/sunspec_detector.cpp:112-113 | nor with two models of length 32766 |
| Sunspec.DetectorReply.HandleDisconnect | software/src/sunspec_detector.cpp:46-52 | a disconnect ends the walk |
| SunspecUpdating.SunspecUpdater.Next | software/src/sunspec_updater.cpp:48-86 | what is requested in a state, or the timer |
| SunspecUpdating.SunspecUpdater.OnReadCompleted | software/src/sunspec_updater.cpp:176-307 | what a reply to a read changes and what follows |
| SunspecUpdating.SunspecUpdater.OnWriteCompleted | software/src/sunspec_updater.cpp:309-315 | a write is done, failed or not, and the cycle starts over |
| SunspecUpdating.SunspecUpdater.OnPowerLimitRequested | software/src/sunspec_updater.cpp:317-337 | a limit is written at once or noted |
| SunspecUpdating.SunspecUpdater.OnError | software/src/sunspec_updater.cpp:149-157 | errors are counted up to the sixth, and the timer is armed |
| SunspecUpdating.SunspecUpdater.OnTimer | software/src/sunspec_updater.cpp:350-357 | the timer repeats the state, starts a cycle or connects |
| SunspecUpdating.SunspecUpdater.OnSocketError | software/src/sunspec_updater.cpp:344-348 | losing the socket fails the unfinished replies and arms the timer |
| SunspecPolling.OneActivityOnEveryRun | software/src/sunspec_updater.cpp:48-92 | on every run in which the socket is not lost during a write, and no disconnect comes while a request is out, exactly one request is outstanding or the timer is armed, except while the socket connects, and replies come in the state they were asked in |
| SunspecPolling.LostDuringWrite | software/src/sunspec_updater.cpp:309-315 | losing the socket keeps to one activity if and only if the outstanding request is no write |
| SunspecPolling.NotedLimitIsWritten | software/src/sunspec_updater.cpp:282-282 | a noted limit is written after the next accepted monitor frame |
| SunspecPolling.DisconnectKeepsOne | software/src/sunspec_updater.cpp:344-348 | a disconnect keeps to one activity if and only if no request is out |
| SunspecPolling.DisconnectDuringRead | software/src/sunspec_updater.cpp:317-357 | a refused connect and a request for a limit lead there without any write |
| SunspecPolling.LimitIsForgotten | software/src/sunspec_updater.cpp:309-337 | a requested limit is written at once or noted, and stays so after any event if and only if no older limit was being written; the end of that write, good or bad, forgets it |
| SunspecPolling.ThrottlingIsSwitchedOff | software/src/sunspec_updater.cpp:65-76 | throttling is switched off only by a request for a hundred times the maximum power |
| SunspecPolling.LimitRoundTrip | software/src/sunspec_updater.cpp:285-297 | every limit up to the maximum power is read back with an error of at most maxPower / (2 * powerLimitScale) if and only if the scale is below 65534.5 |
| SunspecLimits.RequestedLimitIsRead | software/src/sunspec_updater.cpp:285-297 | a limit up to the maximum power, requested and written to the registers of a device, is read back from them up to half a step |
| SunspecLimits.WrittenLimitIsRead | software/src/sunspec_updater.cpp:62-78 | whatever else a device holds, a limit that is written is the one that is read, or the maximum power if it was ended |
| SunspecLimits.LimitRegisters | software/src/sunspec_updater.cpp:53-78 | which registers of the immediate controls are read and written |
| SunspecLimits.LimitFraction | software/src/sunspec_updater.cpp:328-328 | a limit is kept as a fraction of the maximum power, between none and a hundred times of it |
| SunspecLimits.AcceptedSize | software/src/sunspec_updater.cpp:56-61 | a frame of an inverter model is accepted if it has the protocol and the phases of the device and the size that was asked for |
| SunspecLimits.AfterFrame | software/src/sunspec_updater.cpp:185-282 | what follows a monitor frame: the noted limit or the timer, the timer if it is of another model, or the same request again |
| SunspecLimits.TimerRepeats | software/src/sunspec_updater.cpp:350-357 | the timer repeats the state, starts a cycle, or connects |
| SunspecLimits.SixErrorsLoseTheConnection | software/src/sunspec_updater.cpp:149-157 | every sixth error in a row loses the connection, and the count starts over |
| SunspecPolling.LimitWrapsAround | software/src/sunspec_updater.cpp:65-66 | a scale factor of -3 makes the scale 100000: the maximum power is written as 34464, which reads as another limit |
| SmaUpdating.SMAUpdater.StartNextAction | software/src/sma_updater.cpp:39-143 | what is requested in a state |
| SmaUpdating.SMAUpdater.OnReadCompleted | software/src/sma_updater.cpp:185-510 | what a reply to a read changes and what follows |
| SmaUpdating.SMAUpdater.HandleLogin | software/src/sma_updater.cpp:267-299 | the login is tried three times |
| SmaUpdating.SMAUpdater.HandleOpMode | software/src/sma_updater.cpp:301-331 | the operating mode is set at most three times |
| SmaUpdating.SMAUpdater.OnWriteCompleted | software/src/sma_updater.cpp:512-547 | a write is done, failed or not |
| SmaUpdating.SMAUpdater.OnPowerLimitRequested | software/src/sma_updater.cpp:549-561 | the limit is bounded by the maximum power |
| SmaUpdating.SMAUpdater.OnTimer | software/src/sma_updater.cpp:576-583 | the timer repeats the state, starts a cycle or connects |
| SmaUpdating.SMAUpdater.OnSocketError | software/src/sma_updater.cpp:569-574 | losing the socket fails the unfinished replies and arms the timer |
| SmaPolling.OneTaskOnEveryRun | software/src/sma_updater.cpp:39-183 | on every run in which the socket is not lost during a write of login or mode, and no disconnect comes while a request is out, a request is outstanding, or the timer is armed, or the updater is parked in Error; never two of them |
| SmaPolling.DisconnectKeepsOne | software/src/sma_updater.cpp:569-574 | a disconnect keeps to one activity if and only if no request is out |
| SmaPolling.LostDuringLogin | software/src/sma_updater.cpp:512-531 | losing the socket leaves two activities if and only if login or mode was being written |
| SmaPolling.LimitIsWrittenOnlyWhenAllowed | software/src/sma_updater.cpp:494-497 | on every run, whatever fails, a power limit is written only when the latest reply about the login was 1 and the latest about the mode was power control in watts |
| SmaPolling.CycleEndsWithin23 | software/src/sma_updater.cpp:185-547 | every sequence of error-free replies ends a cycle within 23 of them |
| SmaPolling.ReplyShortens | software/src/sma_updater.cpp:185-547 | each reply brings the cycle nearer to its end |
| SmaPolling.BoundIsExact | software/src/sma_updater.cpp:185-547 | with a grid code there are replies with which the cycle is not over after 22 of them |
| SmaPolling.ThirdLoginSkipsMode | software/src/sma_updater.cpp:282-331 | when the third attempt to log in has succeeded, a cycle with replies of the right sizes writes a limit if and only if the mode noted before was power control in watts: the mode is not checked any more |
| SmaPolling.AtWorkOnEveryRun | software/src/sma_updater.cpp:232-265 | on every run, whoever logs in or sets the mode has seen the inverter at work |
| SmaPolling.WrittenLimitIsRequested | software/src/sma_updater.cpp:88-96 | on every run a write of a limit carries the one requested last, or the maximum power if that is less, in watts modulo 65536 |
| SmaPolling.WrittenIsRead | software/src/sma_updater.cpp:54-96 | login, mode and limit are written to the registers they are read from |
| SmaPolling.ReadRegisters | software/src/sma_updater.cpp:45-125 | where the registers are that a cycle reads |
| SmaPolling.SixErrorsLoseSma | software/src/sma_updater.cpp:175-183 | every sixth error in a row loses the connection, and the count starts over |
| SmaPolling.SmaTimerRepeats | software/src/sma_updater.cpp:576-583 | the timer repeats the state, starts a cycle, or connects |
| SmaPolling.SizeIsRequested | software/src/sma_updater.cpp:41-110 | a read asks for as many registers as its reply must have |
| SmaPolling.LoginIsGridCode | software/src/sma_updater.cpp:58-70 | the two registers of a login are the grid code |
| SolarApi.SolarApiDetector.OnConverterInfoFound | software/src/solar_api_detector.cpp:39-76 | each inverter whose type is not 255 gets a probe; without any the reply is finished |
| SolarApi.SolarApiDetector.OnSunspecDeviceFound | software/src/solar_api_detector.cpp:78-100 | a found device is a result of the reply of its probe |
| SolarApi.SolarApiDetector.OnSunspecDone | software/src/solar_api_detector.cpp:102-136 | a probe that found nothing is a result from the Solar API |
| SolarApi.SolarApiDetector.CheckFinished | software/src/solar_api_detector.cpp:156-168 | the reply is finished if no probe of it is open |
| SolarApiModel.EveryReplyIsAccounted | software/src/solar_api_detector.cpp:39-168 | on every interleaving of probes, for any number of replies, results and open probes are together the inverters whose type is not 255, and a reply is finished once, behind its last result, when and only when no probe is open |
| SolarApiModel.EveryInverterIsAccounted | software/src/solar_api_detector.cpp:39-168 | on every interleaving, results and open probes of a reply are together as many for each inverter as the Solar API has named it, and none if its type is 255 |
| SolarApiModel.FinishedIsComplete | software/src/solar_api_detector.cpp:156-168 | a finished reply has one result for each inverter whose type is not 255 |
| SolarApiModel.FoundWithoutDone | software/src/solar_api_detector.cpp:156-168 | a probe that tells what it found but not at once that it is done makes its reply finish twice |

## Left out

- ChunkedProofs.BodyIsDecoded: chunks of 2^31 bytes and more, whose size the source rejects as no int, are excluded.
- RtuAnswers.AnswerRoundTrip: answers to reads carry whole registers; of an odd payload the source reads one byte behind the end.
- TcpFraming.SplitInvariance: answers to reads carry whole registers, for the same reason.
- SunspecModel.WalkInvertsTheMap: a device refuses a request for more than 125 registers (section 6.3 of the Modbus Application Protocol); maximum power and limit scale are those of Describe.
- Tcp.ModbusTcpClient.OnSocketError: the signal disconnected is left to the updaters, which model what it leads to; handlers that send again inside the loop over the table are modelled there as well.
- Tcp.ModbusTcpClient.HandleFrame: the debug assertion that the protocol id is zero is not modelled, the frame is handled as a release build does.
- Processor.DataProcessor.ProcessThreePhases: voltages and currents are numbers; totals and powers may be none. Rounding, infinity and subnormal values of double are not modelled.
- Sunspec.DetectorReply.HandleContent: values of one register where a length is expected cannot be answered, because the source reads behind the end of the list; powers of ten are exact.
- SunspecUpdating.SunspecUpdater.OnReadCompleted: whether an inverter accepts a frame is an input; the measured values and the status code that follow are not modelled.
- SmaUpdating.SMAUpdater.OnReadCompleted: measured values and status codes are not modelled, only what decides on the next state.
- SolarApi.SolarApiDetector.OnSunspecDone: of a result only its inverter and its origin are modelled, not the product table and the unique id.
- HttpHeader.QHttpResponseHeader.ToString: a reason with a percent sign, which the chained replacements of the source would expand, is excluded.
- HttpHeaderProofs.HeaderRoundTrip: versions of more than one digit are excluded, which the parser of the source cannot read.
- HttpBody.QHttp.SlotReadyRead: the branch for a content length and the device that data can be written to are not modelled.
- SmaUpdating.SMAUpdater.HandleLogin: the status that is published is not modelled.
- SmaUpdating.SMAUpdater.HandleOpMode: the status that is published is not modelled.
- RtuCorruption.WrongCountIsRefused: what an answer is followed by is not taken into account; a count that is too large leaves the client waiting for it.
- DigestAuth.QHttpAuthenticatorPrivate.DigestMd5Credentials: the hash is an input.
- Gateway.InverterGateway.ContinueScan: there is at least one detector, since dbus_fronius.cpp adds three; with none a host would finish within its own start.
- AddressGenerator.LocalIpAddressGenerator.Progress: the product 100 * done must fit an int, since the source would overflow; see AddressProgress.SizeUnderLimit.
- Reply objects of the TCP client, host scans, subnets and probes are elements of a list of their owner, addressed by their position; that two owners share one is not captured.
- The order in which a hash or set is walked is not modelled: devices found by UDP come in the order of arrival.
- Sockets, serial port, D-Bus, the event loop and real time are events and fields. Intervals of timers are not modelled.
- The content-length branch, authentication retries, NTLM, proxies and TLS of the HTTP client.
- append, read without arguments and readPointerAtPosition of the ring buffer, which break the block list and which the HTTP client does not use.
- JSON, the Solar API field lookup, product tables, state names, logging and settings storage.
- The detectors of SMA devices and the mediator between gateway and inverters.

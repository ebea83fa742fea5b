# A model of the xihe positioning stack

The repository is the driver stack of a GNSS/INS receiver: it encodes and decodes satellite clock and orbit
corrections, receives them over TCP, estimates with least squares and a Kalman filter, and distributes data through
small servers that share node pools, a logging library and an INI reader. This project models its algorithmic cores in
Dafny, in the form the C code has (loops over arrays, linked nodes, buffers and classes), and proves what those cores
are for.

| files | what they model |
|---|---|
| `Bits`, `BitStreams`, `Crc24`, `SsrBlocks`, `SsrMessages`, `SsrEncoder`, `SsrDecoder` | the correction codec: bit packer and unpacker, CRC-24Q, transport framing (section 4 of RTCM 10403.1), encoder and decoder |
| `SsrRoundTrip`, `SsrTheorems`, `CombinedBits`, `SsrCombined`, `SsrLimits`, `SsrBiasLimits`, `SsrChains`, `SsrLayout` | encoder against decoder: round trips, damaged blocks, the asymmetric type 4056, values that do not fit, whole chains; both against the literal layout in bits and physical units |
| `Framing`, `FrameReceiver`, `StreamTheorems` | cutting frames out of a chunked TCP stream, and the encoder's output through that receiver |
| `Vectors`, `LuTheory`, `Grids`, `LuSolver`, `LeastSquares`, `Kalman`, `KalmanOptimal` | LU decomposition, substitution, inverse, least squares and the Kalman update over exact reals, and that the update is optimal |
| `CastMath`, `Calendar`, `GpsTime`, `LeapSeconds` | calendar and leap second conversions |
| `Rings`, `TcpPool`, `UdpPool`, `Broadcast` | the node pools as circular doubly linked lists, and the loop that drops peers from the ring it walks |
| `Numerals`, `LogText`, `LogBuffer` | zlog's growing and truncating buffer |
| `Levels`, `Categories`, `CategoryTable` | zlog's level bitmaps and the transactional reload of rules |
| `IniText`, `IniParser`, `IniLayout` | the INI parser on its line buffer, and configuration files in any layout through it |

`double` is modelled as `real`, machine words as mathematical integers with the wrap-around or cast written out, and
the results of `write`, of list allocations and of the INI handler are parameters that may take any value.

Where the code does something other than its comments or structure suggest, the model follows the code:

- Type 4056 is written with 256 bits a satellite and read with 96; `SsrCombined.CombinedRoundTripIff` says exactly
  which corrections survive.
- The receiver's length expression is right only for bodies up to 505 bytes; from 512 on the frame loop never ends
  (`Framing.LengthIsRight`, `Framing.LongBodies`). The encoder writes such bodies from 16 combined or 21 orbit
  satellites on (`StreamTheorems.LongBlockSpins`).
- A shorter block that announces more messages counts as a parse error and is stored all the same
  (`StreamTheorems.ChainsAreMostlyRefused`); five of them drop the connection (`StreamTheorems.ReceiverPublishes`).
- Both systems share the flags that say what is supplied, so the encoder's AUTO chain for both cannot be decoded into
  one structure (`SsrChains.MixedChainRefused`, `SsrChains.ReadableIff`).
- `filter` returns success and does nothing for more than 135 states (`Kalman.Filter`).
- The structure allows 32 GPS satellites, the count field 31: the separate messages decode as empty ones, the combined
  one is refused (`SsrLimits.ThirtyTwoSatellitesLost`).
- `zlog_reload` skips the rollback exactly when it is needed (`CategoryTable.ZlogReload`), and a second reload can lose
  the old rules for good (`CategoryTable.ReloadTwice`).
- A comment that follows the delimiter of an INI line, as in `name = ;text`, is taken for the value
  (`IniLayout.CommentForValue`).
- `zlog_format_gen_msg` returns -1, not 0, for a full buffer (`LogBuffer.Buf.GenMsg`).

To verify everything: `dafny verify dfyconfig.toml`.

## Model

| member | source | states |
|---|---|---|
| `Crc24.ComputeCrc` | zhiyu_xihe/iwise_gps_loc_hal/iwise_loc_base/clock_orbit_rtcm.c:15-31 | the byte and bit loops compute the CRC-24Q remainder `Crc` of the given stretch of the buffer, for every length |
| `Crc24.CrcLinear` | zhiyu_xihe/iwise_gps_loc_hal/iwise_loc_base/clock_orbit_rtcm.c:15-31 | the CRC is linear: the CRC of the difference of two messages of one length is the difference of their CRCs |
| `Crc24.ShiftsInjective` | zhiyu_xihe/iwise_gps_loc_hal/iwise_loc_base/clock_orbit_rtcm.c:23-28 | a register that is shifted any number of times is zero only if it was zero: the shift step loses nothing |
| `Crc24.CrcRange` | zhiyu_xihe/iwise_gps_loc_hal/iwise_loc_base/clock_orbit_rtcm.c:15-31 | the register always stays below 2^24 |
| `Crc24.CrcOfOne` | zhiyu_xihe/iwise_gps_loc_hal/iwise_loc_base/clock_orbit_rtcm.c:15-31 | the CRC of a byte 1, behind zeros or not, is the generator 0x864CFB; with linearity and the shift step this fixes every CRC |
| `Crc24.CodewordIffZero` | zhiyu_xihe/iwise_gps_loc_hal/iwise_loc_base/clock_orbit_rtcm.c:81-82 | a message followed by three bytes has CRC zero exactly when those bytes are its CRC |
| `Crc24.BurstDetected` | zhiyu_xihe/iwise_gps_loc_hal/iwise_loc_base/clock_orbit_rtcm.c:15-31 | two blocks of one length that differ by an error burst of at most 24 bits, at any bit offset, have different CRCs |
| `Crc24.EditIsBurst` | zhiyu_xihe/iwise_gps_loc_hal/iwise_loc_base/clock_orbit_rtcm.c:15-31 | changing one to three consecutive bytes anywhere in a buffer of at least four is such a burst |
| `BitStreams.BitWriter.StoreBits` | zhiyu_xihe/iwise_gps_loc_hal/iwise_loc_base/clock_orbit_rtcm.c:45-53 | whole bytes move to the buffer without changing the stream of bits added; it fails exactly when they do not fit, and never writes past the limit |
| `BitStreams.BitWriter.AddBits` | zhiyu_xihe/iwise_gps_loc_hal/iwise_loc_base/clock_orbit_rtcm.c:55-60 | appends exactly the low bits of the value (two's complement for negative ones) to the stream, or fails exactly for want of room |
| `BitStreams.BitReader.LoadBits` | zhiyu_xihe/iwise_gps_loc_hal/iwise_loc_base/clock_orbit_rtcm.c:397-405 | makes enough bits available without changing what is left to read; fails exactly when the buffer has too few |
| `BitStreams.BitReader.GetBits` | zhiyu_xihe/iwise_gps_loc_hal/iwise_loc_base/clock_orbit_rtcm.c:409-414 | takes the next bits off the stream and returns their unsigned value |
| `BitStreams.BitReader.GetSigned` | zhiyu_xihe/iwise_gps_loc_hal/iwise_loc_base/clock_orbit_rtcm.c:418-423 | takes the next bits off the stream and returns their two's complement value, sign-extended by the shift pair |
| `BitStreams.BitReader.SkipBits` | zhiyu_xihe/iwise_gps_loc_hal/iwise_loc_base/clock_orbit_rtcm.c:425 | takes the bits off the stream |
| `SsrBlocks.InitBlock` | zhiyu_xihe/iwise_gps_loc_hal/iwise_loc_base/clock_orbit_rtcm.c:68-73 | opens a block with the preamble and zeros for the reserved bits and the length, or fails exactly for want of room |
| `SsrBlocks.EndBlock` | zhiyu_xihe/iwise_gps_loc_hal/iwise_loc_base/clock_orbit_rtcm.c:75-83 | closes a block: padding, back-patched 10-bit length and CRC make it a well-formed `IsBlock` around exactly its body bits, leaving earlier blocks alone; it fails exactly for want of room |
| `SsrBlocks.PatchLength` | zhiyu_xihe/iwise_gps_loc_hal/iwise_loc_base/clock_orbit_rtcm.c:78-80 | writes the length into the two header bytes and nothing else |
| `SsrBlocks.AppendCrc` | zhiyu_xihe/iwise_gps_loc_hal/iwise_loc_base/clock_orbit_rtcm.c:81-82 | appends the CRC of header and body |
| `SsrBlocks.ChainBlock` | zhiyu_xihe/iwise_gps_loc_hal/iwise_loc_base/clock_orbit_rtcm.c:168-324 | block k of a chain lies at the sum of the lengths before it and is a well-formed block around body k |
| `SsrEncoder.WriteMessage` | zhiyu_xihe/iwise_gps_loc_hal/iwise_loc_base/clock_orbit_rtcm.c:170-193 | writes one message as one block, or fails exactly when header, body and CRC do not fit |
| `SsrEncoder.WriteBranches` | zhiyu_xihe/iwise_gps_loc_hal/iwise_loc_base/clock_orbit_rtcm.c:165-324 | the taken branches, in order, become one chain with the multiple-message bit set on all blocks but the last, and there iff more messages follow; 0 exactly when the buffer is too small |
| `SsrEncoder.MakeClockOrbit` | zhiyu_xihe/iwise_gps_loc_hal/iwise_loc_base/clock_orbit_rtcm.c:136-325 | the buffer receives the chain of exactly the supplied message types (combined replacing separate ones) and the result is its length; 0 if it does not fit; nothing behind the given size is touched |
| `SsrEncoder.MakeBias` | zhiyu_xihe/iwise_gps_loc_hal/iwise_loc_base/clock_orbit_rtcm.c:327-388 | the same for the two bias messages |
| `SsrLayout.PlanHolds` | zhiyu_xihe/iwise_gps_loc_hal/iwise_loc_base/clock_orbit_rtcm.c:142-162 | every correction and requested type: a message is sent exactly if its system has satellites, its data are supplied and it was asked for, and under AUTO a combined message takes the place of the separate ones exactly if both sorts are supplied |
| `SsrLayout.PlanOrdered` | zhiyu_xihe/iwise_gps_loc_hal/iwise_loc_base/clock_orbit_rtcm.c:165-324 | the messages of a chain come in the order 4050, 4051, 4056, 4053, 4054, 4057, each at most once |
| `SsrLayout.MessageWritten` | zhiyu_xihe/iwise_gps_loc_hal/iwise_loc_base/clock_orbit_rtcm.c:168-322 | type number, epoch and its width, satellite positions and choice of fields for each of the six messages |
| `SsrLayout.SatWritten` | zhiyu_xihe/iwise_gps_loc_hal/iwise_loc_base/clock_orbit_rtcm.c:85-118 | the literal list of a satellite's fields: width by width, with the truncated value in units of 0.001, 0.00001 and 0.0000002 |
| `SsrLayout.BiasPlanHolds` | zhiyu_xihe/iwise_gps_loc_hal/iwise_loc_base/clock_orbit_rtcm.c:331-342 | a bias message is sent exactly if its system has satellites and it was asked for, the one of GPS first |
| `SsrLayout.BiasMessageWritten` | zhiyu_xihe/iwise_gps_loc_hal/iwise_loc_base/clock_orbit_rtcm.c:343-385 | type number, epoch, satellites and fields of both bias messages |
| `SsrLayout.BiasesWritten` | zhiyu_xihe/iwise_gps_loc_hal/iwise_loc_base/clock_orbit_rtcm.c:354-361 | each bias becomes a five-bit type and a 20-bit value in hundredths, in order |
| `SsrDecoder.GetClockOrbitBias` | zhiyu_xihe/iwise_gps_loc_hal/iwise_loc_base/clock_orbit_rtcm.c:492-716 | the imperative decoder returns the code, and on success the structures and byte count, that the decoding function `Decode` gives for those bytes |
| `SsrDecoder.CheckFrame` | zhiyu_xihe/iwise_gps_loc_hal/iwise_loc_base/clock_orbit_rtcm.c:498-513 | header, reserved bits, length and CRC are checked in the order and with the codes of the source |
| `SsrDecoder.ReadHead` | zhiyu_xihe/iwise_gps_loc_hal/iwise_loc_base/clock_orbit_rtcm.c:524-526 | reads the multiple-message bit, skips the six reserved bits and reads the satellite count, as the three header slots say |
| `SsrDecoder.UnpackSats` | zhiyu_xihe/iwise_gps_loc_hal/iwise_loc_base/clock_orbit_rtcm.c:529-545 | the satellite loop reads what the decoding function reads, stopping at the first failure |
| `SsrLayout.AcceptedMeans` | zhiyu_xihe/iwise_gps_loc_hal/iwise_loc_base/clock_orbit_rtcm.c:492-716 | any accepted clock or orbit block, bit by bit: the type number is one of the six, and the cleared structure becomes epoch, count, flags and one satellite for each row of bits, every field being the bits at its literal offset times its unit in metres and seconds; all other fields stay as they were, and MessageFollows is the bit behind the epoch |
| `SsrLayout.SatRead` | zhiyu_xihe/iwise_gps_loc_hal/iwise_loc_base/clock_orbit_rtcm.c:529-545 | one satellite, whatever its bits: number, IOD, and each value the 20 bits at its offset as a signed number times 0.001, 0.00001 or 0.0000002; the fields that are not read and the other satellites keep their values |
| `SsrLayout.FrameVerdict` | zhiyu_xihe/iwise_gps_loc_hal/iwise_loc_base/clock_orbit_rtcm.c:498-513 | the verdict on any buffer by its bytes: too short under 7, unknown data unless it begins with 0xD3 and six zero bits, then the announced length against the buffer, then the CRC |
| `SsrLayout.UnitsAre` | zhiyu_xihe/iwise_gps_loc_hal/iwise_loc_base/clock_orbit_rtcm.c:417-425 | a signed field stands for its value times 0.001, 0.00001 or 0.0000002 (orbit and clock) or 0.01 (bias) |
| `SsrLayout.ValuesThatFit` | zhiyu_xihe/iwise_gps_loc_hal/iwise_loc_base/clock_orbit_rtcm.c:85-118 | which physical values fit their 20 bits, in both directions: positions and clock terms exactly in (-524.289, 524.288), rates in (-5.24289, 5.24288), accelerations in (-0.1048578, 0.1048576), biases in (-5242.89, 5242.88) |
| `SsrRoundTrip.SatDecodes` | zhiyu_xihe/iwise_gps_loc_hal/iwise_loc_base/clock_orbit_rtcm.c:177-192 | a satellite's bits decode to its number, IOD, flags and every scaled value truncated to its quantum, and nothing behind them is consumed |
| `SsrRoundTrip.BodyFits` | zhiyu_xihe/iwise_gps_loc_hal/iwise_loc_base/clock_orbit_rtcm.c:78-80 | up to 31 satellites no clock or orbit body exceeds 998 bytes, so the 10-bit length field is never exceeded |
| `SsrRoundTrip.BodySize` | zhiyu_xihe/iwise_gps_loc_hal/iwise_loc_base/clock_orbit_rtcm.c:168-322 | the exact number of bits of a clock or orbit message body |
| `SsrRoundTrip.RoundTrip` | zhiyu_xihe/iwise_gps_loc_hal/iwise_loc_base/clock_orbit_rtcm.c:168-322 | for the symmetric clock and orbit types, the encoder's block followed by any bytes decodes into a cleared structure as the whole structure `Expected`, with Ok or MessageFollows by the bit, consuming exactly the block |
| `SsrLayout.ExpectedFields` | zhiyu_xihe/iwise_gps_loc_hal/iwise_loc_base/clock_orbit_rtcm.c:518-674 | that structure field by field, for all six kinds: epochs, counts, supplied flags, the list of GPS epochs, and every satellite quantised or empty |
| `SsrLayout.QuantisedValues` | zhiyu_xihe/iwise_gps_loc_hal/iwise_loc_base/clock_orbit_rtcm.c:85-118 | a value that comes back is what was sent, cut towards zero to a multiple of 0.001, 0.00001 or 0.0000002 |
| `SsrChains.ChainRoundTrip` | zhiyu_xihe/iwise_gps_loc_hal/iwise_loc_base/clock_orbit_rtcm.c:165-324 | every correction and type: block i of the encoder's output, found at its offset, is accepted unless it is too long for its header, with MessageFollows on every block but the last and there iff more were announced; it decodes to its own message if and only if every value fits its field (and, for 4056, the correction is quiet) |
| `SsrTheorems.BurstRejected` | zhiyu_xihe/iwise_gps_loc_hal/iwise_loc_base/clock_orbit_rtcm.c:501-513 | take any buffer the decoder accepts and alter the block behind its header by a burst of at most 24 bits: the decoder returns the CRC mismatch, into whatever structures |
| `SsrTheorems.BiasBodyFits` | zhiyu_xihe/iwise_gps_loc_hal/iwise_loc_base/clock_orbit_rtcm.c:78-80 | up to 31 satellites with 10 biases each no bias body exceeds 1017 bytes, and none at all 1050 |
| `SsrTheorems.BiasRoundTrip` | zhiyu_xihe/iwise_gps_loc_hal/iwise_loc_base/clock_orbit_rtcm.c:343-385 | a bias block decodes into a cleared structure with every satellite, count and type exact and every bias truncated to a hundredth |
| `SsrLayout.ExpectedBiasFields` | zhiyu_xihe/iwise_gps_loc_hal/iwise_loc_base/clock_orbit_rtcm.c:675-709 | the decoded bias structure field by field: epochs, counts, numbers, types, and each value cut to a hundredth |
| `SsrBiasLimits.BiasRoundTripIff` | zhiyu_xihe/iwise_gps_loc_hal/iwise_loc_base/clock_orbit_rtcm.c:343-385 | all biases: the block is accepted exactly if its body fits the length field, and it decodes to the truncated biases if and only if there are at most 31 satellites and every epoch, number, type and value fits its field |
| `SsrBiasLimits.ThirtyTwoBiases` | zhiyu_xihe/iwise_gps_loc_hal/iwise_loc_base/clock_orbit_rtcm.c:75-83 | 32 GPS satellites: unknown data if the body has 1024 bytes or more, else read as a message of none |
| `SsrTheorems.EditRejected` | zhiyu_xihe/iwise_gps_loc_hal/iwise_loc_base/clock_orbit_rtcm.c:501-513 | in particular any change of up to three consecutive bytes behind the header of an accepted block is answered with the CRC mismatch |
| `SsrLimits.SameBody` | zhiyu_xihe/iwise_gps_loc_hal/iwise_loc_base/clock_orbit_rtcm.c:85-118 | a correction whose values are reduced to what their fields can carry (low bits, two's complement) has the same message body as the original |
| `SsrLimits.RoundTripIff` | zhiyu_xihe/iwise_gps_loc_hal/iwise_loc_base/clock_orbit_rtcm.c:168-322 | the five symmetric types, every correction: the block is accepted, and it decodes to the quantised correction if and only if there are at most 31 satellites and every epoch, number, flag and scaled value fits its field |
| `SsrLimits.CombinedExact` | zhiyu_xihe/iwise_gps_loc_hal/iwise_loc_base/clock_orbit_rtcm.c:580-595 | type 4056, every correction: the block is accepted exactly up to 31 satellites, and it decodes to the quantised correction if and only if every value fits its field and the correction is quiet |
| `SsrLimits.ThirtyTwoSatellitesLost` | zhiyu_xihe/iwise_gps_loc_hal/iwise_loc_base/clock_orbit_rtcm.c:75-83 | 32 satellites, which the structure allows, do not fit the five-bit count field (line 114) nor, combined, the ten-bit length field: the orbit or clock block decodes as supplied data of no satellites, the combined block is refused as unknown data |
| `SsrChains.SuppliedBlock` | zhiyu_xihe/iwise_gps_loc_hal/iwise_loc_base/clock_orbit_rtcm.c:520-529 | data of a sort the structure already has, from whichever system, are refused whatever they hold: as a time mismatch if the structure has satellites of the same system with another epoch, else as a data mismatch |
| `SsrChains.MixedChainRefused` | zhiyu_xihe/iwise_gps_loc_hal/iwise_loc_base/clock_orbit_rtcm.c:165-324 | the AUTO chain of a correction with both systems, read into one structure: the first message is accepted (or, for 32 combined satellites, unknown data) and announces the second, which is a data mismatch, because both systems share the supplied flags |
| `SsrChains.ReadableIff` | zhiyu_xihe/iwise_gps_loc_hal/iwise_loc_base/clock_orbit_rtcm.c:136-325 | for every correction and requested type: the whole chain is accepted into one structure, block after block, if and only if it is not AUTO for supplied data of both systems and holds no combined message of 32 satellites |
| `CombinedBits.CopiedIffClear` | zhiyu_xihe/iwise_gps_loc_hal/iwise_loc_base/clock_orbit_rtcm.c:223-241 | laid out by 256 and read by 96 bits, the stream gives back what was written exactly when nothing is set behind the first 74 bits |
| `SsrCombined.CombinedRoundTripIff` | zhiyu_xihe/iwise_gps_loc_hal/iwise_loc_base/clock_orbit_rtcm.c:580-595 | type 4056: the encoder's block is always accepted, and it decodes to its correction if and only if the flags are clear, the first satellite has no rates, accelerations or clock terms, and all further satellites are zero |
| `SsrCombined.ResultIffQuiet` | zhiyu_xihe/iwise_gps_loc_hal/iwise_loc_base/clock_orbit_rtcm.c:580-595 | the same condition for the decoder's satellite loop alone |
| `SsrCombined.CombinedRateLost` | zhiyu_xihe/iwise_gps_loc_hal/iwise_loc_base/clock_orbit_rtcm.c:580-595 | a concrete correction, in range, for which the condition fails: one satellite with a radial rate |
| `Framing.FrameLengthValue` | zhiyu_xihe/iwise_gps_loc_hal/iwise_loc_handle_layer2/iwise_net_xihe_module.c:289-290 | the value of the length expression for every pair of header bytes: the carry of the addition is lost when the upper byte is odd |
| `Framing.LengthIsRight` | zhiyu_xihe/iwise_gps_loc_hal/iwise_loc_handle_layer2/iwise_net_xihe_module.c:289-293 | among all announced lengths the expression gives body plus six within the package size exactly for bodies up to 505 bytes |
| `Framing.SeekStops` | zhiyu_xihe/iwise_gps_loc_hal/iwise_loc_handle_layer2/iwise_net_xihe_module.c:283-288 | the search stops at the first preamble from the start on, the byte behind the received data included, and otherwise one past that |
| `Framing.StuckIff` | zhiyu_xihe/iwise_gps_loc_hal/iwise_loc_handle_layer2/iwise_net_xihe_module.c:278-293 | on any received data: the frame loop goes round for ever, over any number of turns, exactly when the first preamble in them has two bytes behind it that announce more than the package size |
| `Framing.LongBodies` | zhiyu_xihe/iwise_gps_loc_hal/iwise_loc_handle_layer2/iwise_net_xihe_module.c:289-298 | a body of 506 to 511 bytes is measured 256 bytes too short and cut there; with one of 512 bytes or more every further turn of the loop is the same, for ever |
| `Framing.Garbage` | zhiyu_xihe/iwise_gps_loc_hal/iwise_loc_handle_layer2/iwise_net_xihe_module.c:283-298 | received data without a preamble are dropped together with the first byte that arrives next, unless the old byte lying there is a preamble |
| `Framing.PieceAt` | zhiyu_xihe/iwise_gps_loc_hal/iwise_loc_handle_layer2/iwise_net_xihe_module.c:300-304 | frame k lies between the k-th and the next position of the stream |
| `Framing.CompleteBounds` | zhiyu_xihe/iwise_gps_loc_hal/iwise_loc_handle_layer2/iwise_net_xihe_module.c:295-298 | what is left of a stream of frames after its complete frames is less than a package |
| `FrameReceiver.Receiver.Compress` | zhiyu_xihe/iwise_gps_loc_hal/iwise_loc_base/iwise_pool.c:56-64 | keeps the pending bytes, and moves them to the front exactly when less than a package of room is left |
| `FrameReceiver.Receiver.Seek` | zhiyu_xihe/iwise_gps_loc_hal/iwise_loc_handle_layer2/iwise_net_xihe_module.c:283-288 | on any received data: stops where `SeekFrom` says, or is about to read outside the array |
| `FrameReceiver.Receiver.TakeTurn` | zhiyu_xihe/iwise_gps_loc_hal/iwise_loc_handle_layer2/iwise_net_xihe_module.c:278-298 | on any received data: one turn of the loop waits, goes round again, or finds a frame of the measured length, as `NextTurn` says |
| `FrameReceiver.Receiver.Measure` | zhiyu_xihe/iwise_gps_loc_hal/iwise_loc_handle_layer2/iwise_net_xihe_module.c:278-298 | on a stream of frames and over-long pieces a turn finds exactly the next frame if it has arrived, goes round for ever exactly when the header of the first over-long piece is next, and waits otherwise |
| `FrameReceiver.Receiver.HandleFrame` | zhiyu_xihe/iwise_gps_loc_hal/iwise_loc_handle_layer2/iwise_net_xihe_module.c:300-325 | decodes exactly the next frame into a cleared structure, stores the structure whatever the answer is, counts every answer but Ok as a parse error, and on the fifth drops everything buffered |
| `FrameReceiver.Receiver.Parse` | zhiyu_xihe/iwise_gps_loc_hal/iwise_loc_handle_layer2/iwise_net_xihe_module.c:278-326 | the inner loop handles exactly the complete frames before the first over-long piece, and ends by waiting, by the fifth parse error, or never, once the header of that piece has arrived |
| `FrameReceiver.Receiver.Recv` | zhiyu_xihe/iwise_gps_loc_hal/iwise_loc_handle_layer2/iwise_net_xihe_module.c:209 | received bytes are appended to what is pending |
| `FrameReceiver.Receiver.HandleChunk` | zhiyu_xihe/iwise_gps_loc_hal/iwise_loc_handle_layer2/iwise_net_xihe_module.c:277-354 | after any chunk of 1 to 512 bytes that does not end the run, start is at most end, every complete frame is handled and there is room for the largest next chunk |
| `FrameReceiver.Receiver.Receive` | zhiyu_xihe/iwise_gps_loc_hal/iwise_loc_handle_layer2/iwise_net_xihe_module.c:208-354 | however a stream of frames and over-long pieces is cut into chunks, the frames handed to the decoder, its answers and the structures stored are those of the complete frames before the first over-long piece, in order; the connection is dropped exactly when five of them are not answered Ok, and otherwise the loop spins for ever exactly when the header of that piece has arrived |
| `StreamTheorems.FrameIffShort` | zhiyu_xihe/iwise_gps_loc_hal/iwise_loc_handle_layer2/iwise_net_xihe_module.c:289-293 | an encoder block is a frame for the receiver exactly when its body has at most 505 bytes |
| `StreamTheorems.BlocksJoin` | zhiyu_xihe/iwise_gps_loc_hal/iwise_loc_base/clock_orbit_rtcm.c:168-324 | a chain of encoder blocks is the concatenation of its blocks, each well-formed |
| `StreamTheorems.SatellitesThatFit` | zhiyu_xihe/iwise_gps_loc_hal/iwise_loc_handle_layer2/iwise_net_xihe_module.c:291-293 | a message fits the receiver exactly up to 15 satellites if combined and 20 if orbit only; clock messages always fit |
| `StreamTheorems.BlockFramed` | zhiyu_xihe/iwise_gps_loc_hal/iwise_loc_handle_layer2/iwise_net_xihe_module.c:289-293 | a block of any correction is taken as a frame exactly up to that many satellites; with more, its header is one that makes the loop spin |
| `StreamTheorems.LongBlockSpins` | zhiyu_xihe/iwise_gps_loc_hal/iwise_loc_handle_layer2/iwise_net_xihe_module.c:291-293 | wherever such a block lies in the buffer, every turn is the same for ever as soon as its first three bytes have arrived |
| `StreamTheorems.AllDelivered` | zhiyu_xihe/iwise_gps_loc_hal/iwise_loc_handle_layer2/iwise_net_xihe_module.c:302-315 | of a stream of any encoder blocks those before the first with too many satellites are stored in order, each as the correction it was made from if and only if that fits its fields (and is quiet, for 4056), and exactly the ones that announce another message are parse errors |
| `StreamTheorems.ReceiverPublishes` | zhiyu_xihe/iwise_gps_loc_hal/iwise_loc_handle_layer2/iwise_net_xihe_module.c:208-354 | any corrections, encoded and received in any chunks: the connection is dropped exactly when five of the messages that arrived announce another one, at the fifth; otherwise the loop spins for ever exactly when the header of a message with too many satellites arrived; what was stored until then is right in the same sense |
| `StreamTheorems.ChainsAreMostlyRefused` | zhiyu_xihe/iwise_gps_loc_hal/iwise_loc_handle_layer2/iwise_net_xihe_module.c:291-317 | the chain made for any correction is a stream of such blocks, all of them frames if and only if no planned type has too many satellites; the blocks before the first that is none are stored, right in the same sense, although all but the last of the chain are counted as parse errors, and the last too if more is announced |
| `Grids.Matmul` | zhiyu_xihe/iwise_gps_loc_hal/iwise_ppp/cross.c:610-634 | C becomes alpha op(A) op(B) + beta C for all four transposition modes, on column-major arrays |
| `LuSolver.RowScales` | zhiyu_xihe/iwise_gps_loc_hal/iwise_ppp/cross.c:1260-1266 | finds a scale for every row, and fails only on a matrix with a zero row, which has no inverse |
| `LuSolver.ReduceColumn` | zhiyu_xihe/iwise_gps_loc_hal/iwise_ppp/cross.c:1268-1275 | reduces one column and returns a row of largest scaled remainder among the rows from the diagonal on; if its remainder is zero, the column is zero from the diagonal on |
| `LuSolver.SwapRows` | zhiyu_xihe/iwise_gps_loc_hal/iwise_ppp/cross.c:1276-1281 | exchanges two rows and nothing else |
| `LuSolver.Ludcmp` | zhiyu_xihe/iwise_gps_loc_hal/iwise_ppp/cross.c:1254-1290 | on success the array holds the factors of the row-permuted input and d the sign of the permutation; failure is reported only for matrices without an inverse |
| `LuTheory.SwapHalf` | zhiyu_xihe/iwise_gps_loc_hal/iwise_ppp/cross.c:1276-1283 | a row swap in the middle of a column keeps the invariant of the reduced columns |
| `LuTheory.ZeroRowNotInvertible` | zhiyu_xihe/iwise_gps_loc_hal/iwise_ppp/cross.c:1264-1265 | a matrix with a zero row has no inverse |
| `LuTheory.ZeroPivotNotInvertible` | zhiyu_xihe/iwise_gps_loc_hal/iwise_ppp/cross.c:1283 | when the column of a pivot is zero from the diagonal on, a kernel vector can be built from the factors, and the input has no inverse |
| `LuTheory.FactoredInjective` | zhiyu_xihe/iwise_gps_loc_hal/iwise_ppp/cross.c:1254-1290 | a matrix with the factors that ludcmp leaves maps different vectors to different vectors |
| `LuTheory.SubstitutionSolves` | zhiyu_xihe/iwise_gps_loc_hal/iwise_ppp/cross.c:1292-1305 | solving with the lower and then the upper factor solves the original system |
| `LuTheory.RightInverseIsInverse` | zhiyu_xihe/iwise_gps_loc_hal/iwise_ppp/cross.c:1319-1322 | columns that solve for the unit vectors make a two-sided inverse |
| `LuSolver.ForwardSweep` | zhiyu_xihe/iwise_gps_loc_hal/iwise_ppp/cross.c:1297-1301 | unscrambles the permutation on the fly, skips the leading zeros and solves with the lower factor |
| `LuSolver.BackwardSweep` | zhiyu_xihe/iwise_gps_loc_hal/iwise_ppp/cross.c:1302-1304 | solves with the upper factor |
| `LuSolver.Lubksb` | zhiyu_xihe/iwise_gps_loc_hal/iwise_ppp/cross.c:1292-1305 | the vector becomes the solution of the original system; the rest of the array is unchanged |
| `LuSolver.Matinv` | zhiyu_xihe/iwise_gps_loc_hal/iwise_ppp/cross.c:1307-1325 | returns 0 if and only if the matrix is invertible; then the array holds its two-sided inverse, otherwise it is unchanged |
| `LeastSquares.CostSplits` | zhiyu_xihe/iwise_gps_loc_hal/iwise_ppp/cross.c:1340-1350 | the squared residual of any z is that of the solution plus the square of the mapped difference |
| `LeastSquares.NormalEquationsOptimal` | zhiyu_xihe/iwise_gps_loc_hal/iwise_ppp/cross.c:1340-1350 | the solution of the normal equations is the one and only minimum of the squared residual |
| `LeastSquares.Lsq` | zhiyu_xihe/iwise_gps_loc_hal/iwise_ppp/cross.c:1351-1367 | returns 0 exactly when there are enough measurements and A A' is invertible; then x solves the normal equations, no z has a smaller residual, and Q is the inverse of A A' |
| `Kalman.FilterDense` | zhiyu_xihe/iwise_gps_loc_hal/iwise_ppp/cross.c:925-947 | returns 0 exactly when the innovation covariance is invertible; then xp and Pp are the Kalman update, otherwise xp is x |
| `Kalman.Eye` | zhiyu_xihe/iwise_gps_loc_hal/iwise_ppp/cross.c:892-907 | fills the array with the identity matrix |
| `Kalman.Filter` | zhiyu_xihe/iwise_gps_loc_hal/iwise_ppp/cross.c:948-977 | the active states (x nonzero, variance positive) receive the update of their block, all other entries of x and P are unchanged; above 135 states it reports success and changes nothing |
| `Kalman.UpdateKeepsSymmetry` | zhiyu_xihe/iwise_gps_loc_hal/iwise_ppp/cross.c:925-947 | symmetric P and R give a symmetric new covariance |
| `Kalman.StepKeepsSymmetry` | zhiyu_xihe/iwise_gps_loc_hal/iwise_ppp/cross.c:948-977 | the same for the whole step on the compressed state |
| `Kalman.UpdatedPForm` | zhiyu_xihe/iwise_gps_loc_hal/iwise_ppp/cross.c:939-944 | the new covariance is P - (PH) S^-1 (PH)' |
| `KalmanOptimal.UpdateIsErrorCovariance` | zhiyu_xihe/iwise_gps_loc_hal/iwise_ppp/cross.c:936-944 | for symmetric P and R the new covariance is the covariance of the new estimate's error: (I - K H') P (I - K H')' + K R K' |
| `KalmanOptimal.GainIsOptimal` | zhiyu_xihe/iwise_gps_loc_hal/iwise_ppp/cross.c:936-944 | for symmetric semidefinite P and R no other gain has a smaller error covariance, in any direction, and so none on the diagonal |
| `KalmanOptimal.MisfitSplits` | zhiyu_xihe/iwise_gps_loc_hal/iwise_ppp/cross.c:936-944 | where P and R have inverses: the weighed distance of any state from prior and measurement is that of the new state plus the cost of their difference |
| `KalmanOptimal.StateIsOptimal` | zhiyu_xihe/iwise_gps_loc_hal/iwise_ppp/cross.c:925-947 | hence the new state is the one and only minimum of (z-x)' P^-1 (z-x) + (H'(z-x)-v)' R^-1 (H'(z-x)-v) |
| `Calendar.DayFormulaIsGregorian` | zhiyu_xihe/iwise_gps_loc_hal/iwise_ppp/cross.c:127 | the closed day formula counts Gregorian days, year by year and month by month, for every date from 1970 to 2099 |
| `Calendar.SubtractMonths` | zhiyu_xihe/iwise_gps_loc_hal/iwise_ppp/cross.c:151-153 | the 48-month loop finds the month whose elapsed days bracket the day, and the rest |
| `Calendar.ElapsedIsClosed` | zhiyu_xihe/iwise_gps_loc_hal/iwise_ppp/cross.c:142-145 | the days elapsed before each month of the four-year table in closed form |
| `Calendar.FormulaByCycle` | zhiyu_xihe/iwise_gps_loc_hal/iwise_ppp/cross.c:127 | the day formula on a date written as cycle, year of the cycle and month equals 1461 per cycle plus the table's elapsed days |
| `GpsTime.Time2Epoch` | zhiyu_xihe/iwise_gps_loc_hal/iwise_ppp/cross.c:140-156 | for every normalised time from 1970 through 2099 the output is a valid civil date and time that epoch2time maps back to the input |
| `GpsTime.EpochUnique` | zhiyu_xihe/iwise_gps_loc_hal/iwise_ppp/cross.c:118-132 | no two civil times from 1970 to 2099 have the same gtime_t |
| `GpsTime.EpochInRange` | zhiyu_xihe/iwise_gps_loc_hal/iwise_ppp/cross.c:118-132 | every civil time from 1970 to 2099 becomes a normalised time before the end of 2099 |
| `GpsTime.CivilRoundTrip` | zhiyu_xihe/iwise_gps_loc_hal/iwise_ppp/cross.c:118-156 | time2epoch(epoch2time(ep)) is ep for every civil time from 1970 to 2099 |
| `GpsTime.LoopDate` | zhiyu_xihe/iwise_gps_loc_hal/iwise_ppp/cross.c:149-154 | the date assembled from cycle and loop result is valid and has the day number it was computed from |
| `GpsTime.TimeAdd` | zhiyu_xihe/iwise_gps_loc_hal/iwise_ppp/cross.c:999-1005 | adds seconds and keeps the fraction in [0, 1) |
| `LeapSeconds.Utc2Gpst` | zhiyu_xihe/iwise_gps_loc_hal/iwise_ppp/cross.c:1178-1186 | returns the time less the offset of the first table row that has begun |
| `LeapSeconds.Gpst2Utc` | zhiyu_xihe/iwise_gps_loc_hal/iwise_ppp/cross.c:538-548 | returns the time plus the offset of the first row that has begun at that UTC time |
| `LeapSeconds.StartValue` | zhiyu_xihe/iwise_gps_loc_hal/iwise_ppp/cross.c:3-20 | each table row in whole seconds since 1970 |
| `LeapSeconds.UtcRoundTrip` | zhiyu_xihe/iwise_gps_loc_hal/iwise_ppp/cross.c:538-548 | gpst2utc(utc2gpst(u)) is u for every u |
| `LeapSeconds.GpsRoundTrip` | zhiyu_xihe/iwise_gps_loc_hal/iwise_ppp/cross.c:1178-1186 | utc2gpst(gpst2utc(g)) is g, except exactly in a GPS second in which a table row is being inserted, where it is one second later |
| `Rings.Unlink` | zhiyu_xihe/tcp_channel_server/zy_mempool.c:131-132 | the two pointer assignments take a node out of a ring, leaving a ring of the others in order |
| `Rings.LinkBefore` | zhiyu_xihe/tcp_channel_server/zy_mempool.c:143-147 | puts a node between last and head of a ring |
| `Rings.LinkAfter` | zhiyu_xihe/gnss_udp_server/zy_mempool.c:58-61 | puts a node behind the head of a ring |
| `Rings.LinkBlock` | zhiyu_xihe/gnss_service_list/zy_mempool.c:26-32 | index arithmetic links a block of n nodes into one ring, numbered in order |
| `Rings.RunKeepsPartition` | zhiyu_xihe/tcp_channel_server/zy_mempool.c:82-152 | over any run of gets and returns the free and in-use nodes partition the pool's nodes, and their numbers add up |
| `Rings.GetsDiffer` | zhiyu_xihe/tcp_channel_server/zy_mempool.c:82-121 | two gets in a row hand out different nodes |
| `TcpPool.Pool.constructor` | zhiyu_xihe/tcp_channel_server/zy_mempool.c:12-30 | n nodes, all free, in one ring, numbered 0 to n - 1 |
| `TcpPool.Pool.NewNode` | zhiyu_xihe/tcp_channel_server/zy_mempool.c:32-56 | appends a fresh node to the free ring |
| `TcpPool.Pool.GetNode` | zhiyu_xihe/tcp_channel_server/zy_mempool.c:82-121 | moves the head of the free ring to the head of the in-use ring, keeping both rings, heads and counts right; fails exactly when no node is free |
| `TcpPool.Pool.ReturnNode` | zhiyu_xihe/tcp_channel_server/zy_mempool.c:124-152 | moves any in-use node to the head of the free ring, keeping both rings, heads and counts right |
| `TcpPool.Pool.FromBlock` | zhiyu_xihe/gnss_service_list/zy_mempool.c:12-34 | the same pool from one block linked by index; its get and return are those of the file above |
| `TcpPool.Pool.ServeOne` | zhiyu_xihe/tcp_channel_server/zy_mempool.c:82-152 | one request of a client: a node is handed out exactly while not all are held, and the held nodes change by exactly that one |
| `TcpPool.Pool.Serve` | zhiyu_xihe/tcp_channel_server/zy_mempool.c:82-152 | any sequence of gets and returns on a fresh pool is a run in the sense of RunKeepsPartition: no node is ever held twice, and free and held nodes are all nodes of the pool |
| `UdpPool.Pool.constructor` | zhiyu_xihe/gnss_udp_server/zy_mempool.c:13-33 | n >= 1 nodes, all free, in one ring |
| `UdpPool.Pool.GetNode` | zhiyu_xihe/gnss_udp_server/zy_mempool.c:36-86 | the four cases move the head of the free ring behind the head of the in-use ring; -1 exactly when none is free; a head pointer means something only while its count is positive |
| `UdpPool.Pool.ReturnNode` | zhiyu_xihe/gnss_udp_server/zy_mempool.c:89-139 | the three cases move any in-use node behind the head of the free ring |
| `UdpPool.BehindOrder` | zhiyu_xihe/gnss_udp_server/zy_mempool.c:45-79 | a node that joins a ring comes second, behind the head and ahead of all later nodes; into an empty ring, alone |
| `UdpPool.Pool.ServeOne` | zhiyu_xihe/gnss_udp_server/zy_mempool.c:36-139 | one request of a client, as in the TCP pool |
| `UdpPool.Pool.Serve` | zhiyu_xihe/gnss_udp_server/zy_mempool.c:36-139 | any sequence of requests, as in the TCP pool |
| `Broadcast.SendAllTcpClientMsg` | zhiyu_xihe/tcp_channel_server/zy_protocol.c:23-56 | with something to send every peer's descriptor is written exactly once in ring order; afterwards the in-use ring holds exactly the successful peers in order, the failed ones lead the free ring latest first, are closed and marked -1; otherwise nothing happens |
| `Broadcast.SendToAll` | zhiyu_xihe/tcp_channel_server/zy_protocol.c:30-53 | the walk itself, while nodes are unlinked from the ring being walked |
| `Broadcast.KeptAt` | zhiyu_xihe/tcp_channel_server/zy_protocol.c:34-51 | a peer whose write delivered something stays, behind exactly the earlier survivors |
| `Broadcast.DroppedAt` | zhiyu_xihe/tcp_channel_server/zy_protocol.c:36-44 | a peer whose write failed is dropped, ahead of exactly the earlier failures |
| `Broadcast.KeptAndDroppedCount` | zhiyu_xihe/tcp_channel_server/zy_protocol.c:33-53 | survivors and failures together are all peers, none twice |
| `LogText.PrintedIsShown` | zhiyu_xihe/tcp_channel_server/zlog/buf.c:505-545 | a whole run of prints leaves the concatenation if it fits in size_max - 1, else its first size_max - 1 characters with the tail overwritten by the mark |
| `LogText.OverflowIsFinal` | zhiyu_xihe/tcp_channel_server/zlog/buf.c:522-531 | once the text has outgrown the buffer further prints change nothing |
| `LogText.AbsorbShown` | zhiyu_xihe/tcp_channel_server/zlog/buf.c:141-152 | cutting and marking at every print shows the same as cutting and marking once |
| `LogText.CutEndsInMark` | zhiyu_xihe/tcp_channel_server/zlog/buf.c:141-152 | a text that was cut fills the buffer, ends in the truncation mark and begins with what was printed; a mark as long as the buffer replaces everything |
| `LogBuffer.NewBuf` | zhiyu_xihe/tcp_channel_server/zlog/buf.c:87-138 | refuses exactly a zero minimum, a nonzero maximum below it and a mark over 1024 characters; otherwise an empty buffer |
| `LogBuffer.Buf.Truncate` | zhiyu_xihe/tcp_channel_server/zlog/buf.c:141-152 | the end of the contents is overwritten by the mark, or all of them by its front |
| `LogBuffer.Buf.Resize` | zhiyu_xihe/tcp_channel_server/zlog/buf.c:160-205 | keeps the contents; 0 means it grew by exactly the increment, or half as much again if it is unlimited; 1 exactly when the limit is hit, the buffer then being as large as the limit |
| `LogBuffer.Buf.Vprintf` | zhiyu_xihe/tcp_channel_server/zlog/buf.c:207-264 | the expansion is absorbed as by append; an encoding error changes nothing and returns -1 |
| `LogBuffer.Buf.PrintfDec32` | zhiyu_xihe/tcp_channel_server/zlog/buf.c:268-331 | absorbs the zero-padded decimal digits; 1 exactly when they were cut |
| `LogBuffer.Buf.PrintfDec64` | zhiyu_xihe/tcp_channel_server/zlog/buf.c:333-422 | the same for 64 bits, with the same digits by either loop |
| `LogBuffer.Buf.PrintfHex` | zhiyu_xihe/tcp_channel_server/zlog/buf.c:424-502 | the same in lower-case hexadecimal |
| `LogBuffer.WriteDigits` | zhiyu_xihe/tcp_channel_server/zlog/buf.c:280-283 | the digit loop fills the temporary array from its end with exactly the digits of the number, and never runs out of it |
| `LogBuffer.Buf.Append` | zhiyu_xihe/tcp_channel_server/zlog/buf.c:505-545 | absorbs the string; 1 exactly when it was cut |
| `LogBuffer.Buf.AdjustAppend` | zhiyu_xihe/tcp_channel_server/zlog/buf.c:548-635 | absorbs the string cut to the maximum and blank-filled to the minimum width on the given side, also when the limit cuts it |
| `LogText.AdjustedIs` | zhiyu_xihe/tcp_channel_server/zlog/buf.c:548-635 | the printed text: the string, cut to the maximum width if there is one, stands at the front when left-adjusted and at the end otherwise, all other places up to the minimum width are blanks |
| `LogBuffer.Buf.GenMsg` | zhiyu_xihe/tcp_channel_server/zlog/format.c:148-164 | the contents are those of printing every spec up to the first whose format cannot be expanded, also when the printing stops at a cut before it; the result is -1 exactly when there is such a spec or the text was cut, although the comment above the function promises 0 for a full buffer |
| `Numerals.PaddedReadsBack` | zhiyu_xihe/tcp_channel_server/zlog/buf.c:280-328 | the printed digits, zero-padded to any width, read back as the number |
| `Numerals.PaddedIs` | zhiyu_xihe/tcp_channel_server/zlog/buf.c:424-502 | the numeral stands at the end, behind zeros up to the width |
| `Numerals.DigitShown` | zhiyu_xihe/tcp_channel_server/zlog/buf.c:424-502 | one-digit numerals, which every longer one is made of, are the characters 0-9 and a-f |
| `Numerals.NoLeadingZero` | zhiyu_xihe/tcp_channel_server/zlog/buf.c:280-283 | without padding there is no leading zero, but for zero itself |
| `Levels.RuleBitmapIsExact` | zhiyu_xihe/tcp_channel_server/zlog/rule.c:680-698 | the bitmap computed for a rule allows a level exactly when the rule's own comparison at output time does, also for a level name that was not found |
| `Levels.MergedAllows` | zhiyu_xihe/tcp_channel_server/zlog/category.c:49-55 | a merged bitmap allows what either bitmap allows |
| `Categories.MatchingMembers` | zhiyu_xihe/tcp_channel_server/zlog/rule.c:1018-1046 | the rules collected for a category are exactly those whose pattern matches its name |
| `Categories.MatchCategory` | zhiyu_xihe/tcp_channel_server/zlog/rule.c:1018-1046 | the comparisons of the source, with its length adjustment, decide exactly the relation `Matches` |
| `Categories.MatchesItself` | zhiyu_xihe/tcp_channel_server/zlog/rule.c:1026-1028 | a name matches itself |
| `Categories.StarMatchesAll` | zhiyu_xihe/tcp_channel_server/zlog/rule.c:1023-1025 | `*` matches every name |
| `Categories.UnderscoreMatches` | zhiyu_xihe/tcp_channel_server/zlog/rule.c:1029-1042 | a pattern `p_` matches exactly the name `p` and the names that begin with `p_` |
| `Categories.PlainMatches` | zhiyu_xihe/tcp_channel_server/zlog/rule.c:1023-1045 | every other pattern matches exactly its own name |
| `Categories.MatchingAppend` | zhiyu_xihe/tcp_channel_server/zlog/category.c:77-85 | the matching rules keep the order of the rule list |
| `Categories.FittingMembers` | zhiyu_xihe/tcp_channel_server/zlog/category.c:76-105 | if any rule matches, a category gets exactly the matching ones, and only otherwise the last wastebin rule |
| `Categories.UnionAllows` | zhiyu_xihe/tcp_channel_server/zlog/category.c:77-91 | the category's bitmap allows a level exactly when one of its rules would output it |
| `Categories.Category.constructor` | zhiyu_xihe/tcp_channel_server/zlog/category.c:114-144 | a new category has the fitting rules and an agreeing bitmap, or none if a list operation fails |
| `Categories.Category.OverlapBitmap` | zhiyu_xihe/tcp_channel_server/zlog/category.c:49-55 | the byte loop merges the rule's bitmap |
| `Categories.Category.ObtainRules` | zhiyu_xihe/tcp_channel_server/zlog/category.c:57-112 | collects the matching rules in order, or else the last wastebin rule, with the agreeing bitmap; -1 exactly when the list operations do not suffice |
| `Categories.Category.UpdateRules` | zhiyu_xihe/tcp_channel_server/zlog/category.c:148-170 | in whatever state: rules (or the null list) and bitmap become the backup in place of an older one; the new rules are in place exactly when it returns 0 |
| `Categories.Category.CommitRules` | zhiyu_xihe/tcp_channel_server/zlog/category.c:174-187 | drops the backup and keeps rules and bitmap |
| `Categories.Category.RollbackRules` | zhiyu_xihe/tcp_channel_server/zlog/category.c:192-217 | restores the backup, if there is one, whether or not the update succeeded |
| `Categories.Category.NeedlessIsExact` | zhiyu_xihe/tcp_channel_server/zlog/category.h:34-35 | a level is needless exactly when no rule of the category, the wastebin included, would output it |
| `CategoryTable.UpdateRules` | zhiyu_xihe/tcp_channel_server/zlog/category_table.c:57-71 | for categories in whatever state: updates in order and stops at the first category that fails: those before are updated, that one is without rules, those behind untouched |
| `CategoryTable.CommitRules` | zhiyu_xihe/tcp_channel_server/zlog/category_table.c:73-84 | no category keeps a backup, rules and bitmaps stay |
| `CategoryTable.RollbackRules` | zhiyu_xihe/tcp_channel_server/zlog/category_table.c:86-97 | every category with a backup gets it back, the others stay as they are, no backup remains |
| `CategoryTable.UpdateOrRollback` | zhiyu_xihe/tcp_channel_server/zlog/category_table.c:57-97 | update followed by commit or rollback is atomic over the table: all new rules, or every category's rules and bitmaps exactly as before; no backup remains |
| `CategoryTable.ZlogReload` | zhiyu_xihe/tcp_channel_server/zlog/zlog.c:259-283 | for categories in whatever state: as written the reload is not atomic: after a failed update the rollback is skipped, the categories before the failing one keep the new rules and that one has none; a settled table is as before exactly when it could not be read or, after success, has the new rules |
| `CategoryTable.ReloadTwice` | zhiyu_xihe/tcp_channel_server/zlog/category.c:154-156 | a second reload and a rollback behind a failed one: the stranded category gets its old rules back exactly if the second reload fails before it; else its only copy is overwritten and it has the second configuration's rules or none |
| `CategoryTable.OneStranded` | zhiyu_xihe/tcp_channel_server/zlog/zlog.c:259-283 | the smallest such failure: a category with one rule, no memory for its new list, no rules left |
| `IniParser.Rstrip` | zhiyu_xihe/tcp_channel_server/zy_config.c:14-20 | nulls over the trailing whitespace, nothing else |
| `IniParser.Lskip` | zhiyu_xihe/tcp_channel_server/zy_config.c:23-28 | points at the first character that is not whitespace |
| `IniParser.FindCharOrComment` | zhiyu_xihe/tcp_channel_server/zy_config.c:33-41 | points at the first wanted character or ';' behind whitespace, or at the end |
| `IniParser.ParseHeader` | zhiyu_xihe/tcp_channel_server/zy_config.c:105-117 | sets the section and forgets the name, or notes the line as bad |
| `IniParser.ParseEntry` | zhiyu_xihe/tcp_channel_server/zy_config.c:118-142 | splits at '=' or else ':', strips and cuts the comment in place, calls the handler; notes a refused or malformed line |
| `IniParser.Dispatch` | zhiyu_xihe/tcp_channel_server/zy_config.c:94-142 | comment, continuation, header and entry branches in the order of the source |
| `IniParser.Fgets` | zhiyu_xihe/tcp_channel_server/zy_config.c:81 | the next line of at most 199 characters |
| `IniParser.ParseFile` | zhiyu_xihe/tcp_channel_server/zy_config.c:52-155 | the handler calls and the result are those of the line-by-line specification `Run` |
| `IniText.ErrorIsFirstBad` | zhiyu_xihe/tcp_channel_server/zy_config.c:144-154 | the result is the number of the first malformed or refused line, 0 if there is none, for every input |
| `IniText.ValuesTrimmed` | zhiyu_xihe/tcp_channel_server/zy_config.c:98-136 | every value handed over is free of surrounding whitespace, for every input |
| `IniText.NamesTrimmed` | zhiyu_xihe/tcp_channel_server/zy_config.c:98-136 | every name handed over is free of surrounding whitespace or, on a continuation line, the first 49 characters of such a name, for every input |
| `IniText.LinesOfJoined` | zhiyu_xihe/tcp_channel_server/zy_config.c:81 | whole lines come back from the file as they were joined |
| `IniText.PrintParse` | zhiyu_xihe/tcp_channel_server/zy_config.c:81-154 | printing any sections and parsing the lines calls the handler with exactly the printed triples in order, whatever it answers; the result is the line number of the first pair it refuses, 0 if it refuses none |
| `IniText.FirstRefusedIs` | zhiyu_xihe/tcp_channel_server/zy_config.c:144-154 | that number: a pair is refused there and none before, or none is refused at all |
| `IniText.FileRoundTrip` | zhiyu_xihe/tcp_channel_server/zy_config.c:52-155 | the same through the text of the file, for every handler |
| `IniLayout.ItemMeaning` | zhiyu_xihe/tcp_channel_server/zy_config.c:92-142 | a line in any layout means what it was made of: comments and blank lines nothing, titles their section, assignments with either delimiter, blanks and an inline comment their name and value, further lines their value |
| `IniLayout.DocumentRoundTrip` | zhiyu_xihe/tcp_channel_server/zy_config.c:52-155 | a whole file in any such layout, with or without a byte order mark: the handler is called with exactly the sections, names (clipped to 49 characters) and values it was made of, in order, whatever it answers, and the result is the number of the first line it refuses |
| `IniLayout.CommentForValue` | zhiyu_xihe/tcp_channel_server/zy_config.c:127-131 | a comment right behind the delimiter is handed over as the value |

## Left out

- Rounding: `double` arithmetic is exact here, and a decoded value is the quotient by its scale, not the product with
  the rounded reciprocal.
- Fixed C arrays: the temporaries of 50, 135 or MAXOBS_ entries in the matrix code bound its input; the model allocates
  what the dimensions need.
- Structures after a decoding error: clock_orbit_rtcm.h declares them possibly modified, and the model says nothing of
  them. Inputs on which the decoder would index past a fixed array (more than 24 GLONASS satellites, more than 10
  biases, a bias message without a clock structure) are marked OutOfBounds.
- Encoder: scaled values outside 64 bits, whose conversion C leaves undefined.
- Receiver: whole runs over streams with other pieces than frames the code measures correctly and pieces it never gets
  past (single turns of the loop are modelled on any data, with reads outside the buffer marked Outside). Where the
  code goes round for ever, the model's Parse returns and says so. Timeouts, reconnecting, locks, and the counter that
  clears a correction repeated for sixty chunks.
- Pools: `zy_mempool_free_node`, which is never called, destroying pools, allocation failure, and mutexes.
- Broadcast: `write` results are given in advance, one for each peer.
- zlog buffer: a failing `realloc` and the state it leaves; strings containing nulls; precision of `1.5 * increment`
  beyond 2^53.
- LogBuffer.Buf.PrintfDec32: negative widths, which the comparison with a size_t turns into lengths whose pointer
  arithmetic C leaves undefined; the callers in spec.c pass 0 to 10.
- LogBuffer.Buf.PrintfDec64: negative widths, for the same reason.
- LogBuffer.Buf.PrintfHex: negative widths, for the same reason.
- zlog categories: hash table and list implementations (a table is a sequence of different categories, a list a
  sequence), the parsing of rule lines, locks, and the lifetime of freed rules. The byte arrays inside a category are
  values of its fields, as nothing else can point at them.
- Time: 32-bit overflow of the day count, and dates outside 1970 to 2099, for which the source promises nothing. A
  gtime_t is assumed to have its fraction in [0, 1), as its declaration says.
- INI: `handle_config`, opening the file, and read errors.
- Kepler equations, ephemerides, tides, atmosphere and coordinate transformations of cross.c, ppp.c and pnt.c: floating
  point iteration and transcendental functions.
- NMEA assembly, sensor filters, satellite numbering and the threads that report status.

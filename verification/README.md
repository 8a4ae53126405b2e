# KNX stack: verified models of its protocol, shaping, memory and format cores

KNstaX is a KNX System-B device stack. This project models the parts of it whose promises are about whole
runs or all inputs, and proves those promises:

- **TP1 link** (`FrameCodec`, `Tp1Sender`, `Tp1TransmitRuns`, `Tp1TransmitResults`, `Tp1Receiver`,
  `Tp1ReceiveRuns`, `Tp1Link`): the L_Data codec, the polled sender with its BUSY retries and marked
  repetitions, the receiver with duplication prevention, and the three composed over a medium that loses
  copies or changes an octet. The physical layer is an arbitrary sequence of answers.
- **Transmit shaping** (`GroupShaping`, `GroupShapingRuns`): send-on-change, minimum interval, heartbeat and
  deferred sends on a 32-bit clock, in true time. Linked, allowed by the rate limiter, accepted by the send
  path: each is an arbitrary boolean per event.
- **Application layer** (`SendEngine`, `OutcomeRing`, `Apci`, `RequestContext`, `PayloadPlacement`): the blocking
  and the polled send, the outcome ring, the context of re-entrant requests, the placement of payloads.
- **Memory services** (`MemorySegments`, `MemoryRefinement`, `MemoryAccess`): region table, access checks and
  storage router, refining one flat memory, and what the access modes protect.
- **Arithmetic and formats** (`Dpt9`, `Crc`, `EtsFormat`, `EtsRoundTrip`, `EtsLoader`, `EtsLayout`).
- **Authorization table** and **TCP framing** (`Authorization`, `TcpChannel`).
- **The wrapping 32-bit clock** that shaping and authorization share (`WrappingClock`).

State that the code updates in place is a class here (`Tp1Sender.Sender`, `Tp1Receiver.Receiver`,
`GroupShaping.GroupObject`, `SendEngine.Sender`, `OutcomeRing.Ring`, `RequestContext.ApplicationLayer`,
`MemorySegments.Device`, `EtsLoader.Loader`, `Authorization.Service`, `TcpChannel.Socket`). Each method is tied
to a step function on values, and the laws are proved about every sequence of steps. The laws describe what is
observed (frames, octets, physical answers, telegrams in true time), not the step functions.

## Where the code and its comments differ

The model follows the code.

- The comment at src/datalink/tp1_data_link_layer.cpp:242-245 describes one shared attempt budget. The code has
  two independent ones: up to seven begin calls, and seven do happen (`BudgetsAreIndependent`,
  `SevenBeginsHappen`).
- A TPDU of 256 octets is valid and encodable (264 octets), but the transmit buffer holds 263: transmission of
  exactly these frames fails with BufferTooSmall (`Sender.BeginTransmit`).
- A BUSY retry is not marked as repeated, so duplication prevention does not see it (`BusyRetryDuplicates`).
  `IndicationsOfARun` says exactly which indications every run causes, and `AtMostOnceIff` gives the exact
  condition for at most one: no copy goes out again after a BUSY answer that came before the first NAK or
  missing acknowledgement.
- DPT 9 normalisation is commented as rounding to nearest. Repeated half-away rounding rounds away from zero.
  `NearestIff` says exactly when no representable value is closer than the encoded one, in terms of the value
  alone: with the smallest exponent whose range holds it, the value must be representable or at least half way
  to its neighbour away from zero. Just above 2047 steps of the next smaller exponent the neighbours are half
  a step apart. `NotAlwaysNearest` gives 40.97 and 163.77.
- The transmit policy promises never to send more often than the minimum interval. A shorter heartbeat undercuts
  it; `MinIntervalIff` gives the exact condition.
- `registerMemoryRegion` is not atomic: the ninth region is refused but stays in the region table, so that
  accesses to it are granted and then fail (`ServedByOneSegment`, `NinthRegionIsNotServed`).
- Full validation of a configuration container does not cover the section sizes, nor the payload checksum of an
  empty payload (`CorruptionPassesIff`). A loaded configuration can be too long to be saved (`SavableIff`).
- Some payloads do not arrive as sent: A_ADC_Response on channels 8-10, 12-22 and 59-62, the restart response,
  255 octets in a service that uses the data bits, and data with a group value read (`PlacementRoundTrip`,
  `Misread`). Longer payloads are accepted too: the TPDU vector is resized to at most 256 octets and then
  written through a view of the full length, so that the write stays inside the vector if and only if at most
  254 octets follow the header (`BuildInPlace`).
- The authorization table evicts the smallest time stamp, which is the oldest entry exactly when no wrap of the
  clock lies between the stamps (`EvictsOldestIff`, and `WrapEvictsTheNewest` for a run of seventeen grants).
- A TCP frame that does not fit the buffer loses only its header; its body is then read as the next frame
  (`OversizedBodyIsReadAsFrames`).

## Model

| member | source | states |
|---|---|---|
| Octets.CopyInto | src/datalink/frame_codec.cpp:125-134 | appending at a moving index leaves everything before it, adds exactly the octets, and touches nothing behind |
| FrameCodec.CalculateChecksum | src/datalink/frame_codec.cpp:27-37 | the accumulating loop computes the complement of the XOR of all octets, for data of any length |
| FrameCodec.FcsUpdate | src/datalink/frame_codec.cpp:27-37 | replacing one octet moves the check octet by exactly the difference of the octets |
| FrameCodec.ControlRoundTrip | src/datalink/frame_codec.cpp:77-93 | every control field, with the inverted repeat bit and either value of bit 4, is read back from the control octet |
| FrameCodec.RoutingRoundTrip | src/datalink/frame_codec.cpp:95-123 | address type, hop count and length nibble are read back from the routing octet |
| FrameCodec.EncodeFrame | src/datalink/frame_codec.cpp:53-135 | invalid frame, short buffer and success exactly distinguished; on success the buffer starts with the wire form and is unchanged behind it |
| FrameCodec.DecodeFrame | src/datalink/frame_codec.cpp:137-236 | result and error order of the decoder on any octets, of which the round trips below are proved |
| FrameCodec.DecodeInvertsEncode | src/datalink/frame_codec.cpp:53-236 | decoding inverts encoding on every valid frame up to 256 TPDU octets, in both formats, except that the format flag is derived from the length |
| FrameCodec.ValidIff | include/knx/datalink/tp1_data_link_layer.hpp:134-176 | a frame is valid if and only if it has a nonzero source, 1 to 256 TPDU octets and a hop count up to 7 |
| FrameCodec.DecodeOfFramed | src/datalink/frame_codec.cpp:137-236 | framed octets decode to their frame in both formats and with either value of bit 4, or to DecodeFailed for want of a source |
| FrameCodec.DecodeIff | src/datalink/frame_codec.cpp:137-236 | the decoder accepts exactly the framings of frames with a source, and gives that frame |
| FrameCodec.DecodeErrors | src/datalink/frame_codec.cpp:137-236 | which error a refused buffer gets: too short, an even number of octets with some bit set, no source, or else its format |
| FrameCodec.ChecksumIff | src/datalink/frame_codec.cpp:39-51 | the check octet is right if and only if every bit is set in an odd number of the octets |
| FrameCodec.FramedParity | src/datalink/frame_codec.cpp:53-135 | in every encoded frame every bit is set in an odd number of octets |
| FrameCodec.FrameLayout | src/datalink/frame_codec.cpp:53-135 | every octet of a frame as a number: control bits, big-endian addresses, routing octet, length and TPDU, in both formats |
| FrameCodec.SwitchOnTelegram | src/datalink/frame_codec.cpp:53-135 | the nine octets of one well-known telegram |
| FrameCodec.EncodeInvertsDecode | src/datalink/frame_codec.cpp:53-236 | for every accepted buffer, encoding the decoded frame gives the same octets if and only if control bit 4 is set and the frame is standard or carries more than 16 octets |
| FrameCodec.MarkRepeatedCommutes | src/datalink/tp1_data_link_layer.cpp:228-238 | patching the repeat bit and the check octet in place is the same as encoding the frame with its flag set |
| FrameCodec.SingleOctetCorruptionIsRejected | src/datalink/frame_codec.cpp:39-51 | changing any one octet of an accepted buffer makes the decoder report a checksum error |
| Tp1Sender.Sender.constructor | include/knx/datalink/tp1_data_link_layer.hpp:580-600 | a new sender is idle, unlocked and has made no begin call |
| Tp1Sender.Sender.FinishTxOperation | src/datalink/tp1_data_link_layer.cpp:170-175 | resets the operation; the mutex is released exactly if the operation was active |
| Tp1Sender.Sender.BeginTransmit | src/datalink/tp1_data_link_layer.cpp:192-226 | every error condition in order, including the valid 256-octet TPDU that does not fit; on error the state including the mutex is as before, on success the frame is buffered and the mutex held |
| Tp1Sender.Sender.BufferFrame | src/datalink/tp1_data_link_layer.cpp:204-226 | a frame that cannot be encoded gives the mutex back and leaves the sender idle |
| Tp1Sender.Sender.MarkTxFrameAsRepeated | src/datalink/tp1_data_link_layer.cpp:228-238 | the buffered frame becomes its marked form with a refreshed check octet, in place |
| Tp1Sender.Sender.SettleOutcome | src/datalink/tp1_data_link_layer.cpp:259-312 | for each physical answer: result, retry counters, backoff, buffer, mutex and statistics |
| Tp1Sender.Sender.StartCopy | src/datalink/tp1_data_link_layer.cpp:314-341 | a begin call that is accepted, retried while BUSY, or ends the operation |
| Tp1Sender.Sender.PollTransmit | src/datalink/tp1_data_link_layer.cpp:240-341 | one poll, with its self-call, is one step of the transmit machine; copies put on the wire, begin calls and statistics are accounted for, and the self-call terminates |
| Tp1TransmitRuns.RunKeeps | src/datalink/tp1_data_link_layer.cpp:240-341 | the invariant over buffer, counters, lock, results and copies holds after every sequence of polls |
| Tp1TransmitRuns.BufferStaysTheFrame | src/datalink/tp1_data_link_layer.cpp:284-303 | in every reachable active state the buffer decodes to the original frame except for the repeat flag, which for an unrepeated frame is set exactly if a repetition was made |
| Tp1TransmitRuns.TransmitIsBounded | src/datalink/tp1_data_link_layer.cpp:240-341 | for all physical answers: at most seven begin calls, mutex held exactly while active, Pending up to exactly one terminal result, only refusals after it |
| Tp1TransmitRuns.SevenAnswersSuffice | src/datalink/tp1_data_link_layer.cpp:240-341 | seven definite answers always end the operation |
| Tp1TransmitRuns.ResentIff | src/datalink/tp1_data_link_layer.cpp:266-322 | in every run a second unrepeated copy goes out if and only if an accepted copy was answered with BUSY before the first NAK or missing acknowledgement and a copy was accepted after that |
| Tp1TransmitRuns.BudgetsAreIndependent | src/datalink/tp1_data_link_layer.cpp:273-303 | every combination of up to three BUSY retries and up to three repetitions is reached |
| Tp1TransmitRuns.SevenBeginsHappen | include/knx/datalink/tp1_data_link_layer.hpp:586-594 | the bound of seven begin calls is attained |
| Tp1TransmitResults.CountersCountAnswers | src/datalink/tp1_data_link_layer.cpp:273-303 | in every run the two counters equal the numbers of BUSY answers and of misses that the polls met |
| Tp1TransmitResults.ResultOfAPoll | src/datalink/tp1_data_link_layer.cpp:240-341 | what each poll of each run answers, by what it met and how many BUSY answers and misses came before |
| Tp1TransmitResults.TerminalResult | src/datalink/tp1_data_link_layer.cpp:259-341 | over every run: success if and only if an accepted copy was acknowledged, BUSY if and only if it was the fourth BUSY, failure or timeout if and only if it was the fourth miss of that kind or a begin refused that way, an error if and only if the physical poll gave it |
| Tp1TransmitResults.HoldsBackIff | src/datalink/tp1_data_link_layer.cpp:254-257 | in every run a poll holds back if and only if there is a clock and less than four milliseconds have passed since the last BUSY or miss |
| Tp1Receiver.Receiver.AllocateFrame | src/datalink/tp1_data_link_layer.cpp:599-610 | finds a free slot if and only if there is one, and takes exactly that slot |
| Tp1Receiver.Receiver.FinishRxOperation | src/datalink/tp1_data_link_layer.cpp:177-190 | keeps the delivered count of an active operation, and of the last one when run again |
| Tp1Receiver.Receiver.BeginReceive | src/datalink/tp1_data_link_layer.cpp:371-384 | a second begin is refused and changes nothing |
| Tp1Receiver.Receiver.AcceptFrame | src/datalink/tp1_data_link_layer.cpp:448-498 | duplication prevention, memory of the preceding frame, filter and indication |
| Tp1Receiver.Receiver.ProcessFrame | src/datalink/tp1_data_link_layer.cpp:436-515 | one physical frame is one receive step; the frame pool is as before |
| Tp1Receiver.Receiver.DrainPhysical | src/datalink/tp1_data_link_layer.cpp:396-516 | the loop processes exactly the frames the physical layer gives, back to back |
| Tp1Receiver.Receiver.PollReceive | src/datalink/tp1_data_link_layer.cpp:386-520 | result, whether the operation ends, and deliveries of a poll |
| Tp1Receiver.Receiver.ProcessRxAvailable | src/datalink/tp1_data_link_layer.cpp:763-798 | the returned count equals the deliveries although the operation is finished twice; no pool slot stays in use |
| Tp1Receiver.ReceiveAllFirst | src/datalink/tp1_data_link_layer.cpp:396-516 | taking the first frame and then the rest is the same as taking all in order |
| Tp1Receiver.FramesAreConserved | src/datalink/tp1_data_link_layer.cpp:386-520 | for every sequence of frames each is counted once as delivered, filtered, duplicate, decode-failed or dropped; drops happen only with a full pool; with a listener exactly the deliveries are indicated |
| Tp1ReceiveRuns.FateOfAFrame | src/datalink/tp1_data_link_layer.cpp:448-498 | after any run a frame is suppressed if and only if it is marked repeated, not for the own individual address, and equal to the directly preceding correctly received frame in addresses, type, priority, hop count and TPDU; otherwise delivered if and only if addressed here, and else filtered |
| Tp1ReceiveRuns.OtherTelegramsGetThrough | src/datalink/tp1_data_link_layer.cpp:627-643 | a frame that differs from the preceding one in any compared field is never suppressed |
| Tp1ReceiveRuns.TakesUpToTheFirstGap | src/datalink/tp1_data_link_layer.cpp:396-434 | a poll takes the frames up to the first round that is not accepted or brings none, and is pending if and only if that round has nothing ready yet |
| Tp1Link.IntactCopy | src/datalink/tp1_data_link_layer.cpp:447-498 | an intact copy is accepted as the frame it carries |
| Tp1Link.CorruptedCopy | src/datalink/tp1_data_link_layer.cpp:499-513 | a copy with one changed octet changes nothing but a counter |
| Tp1Link.ReceiveCopies | src/datalink/tp1_data_link_layer.cpp:627-652 | the receiver's view of any number of copies under any losses and corruptions |
| Tp1Link.IndicationsOfARun | src/datalink/tp1_data_link_layer.cpp:240-341 | for every run of the sender and everything the medium does: the copies are the unrepeated ones followed by marked ones, and exactly these indications result |
| Tp1Link.ExactlyOnce | src/datalink/tp1_data_link_layer.cpp:627-652 | in every run in which no unrepeated copy is sent again after BUSY, the frame is indicated exactly once if it arrives fresh, and not at all otherwise, whatever is lost or corrupted |
| Tp1Link.AtMostOnceIff | src/datalink/tp1_data_link_layer.cpp:273-303 | whatever the medium does there is at most one indication, if and only if no copy was accepted after a BUSY answer that came before the first NAK or missing acknowledgement |
| Tp1Link.BusyRetryDuplicates | src/datalink/tp1_data_link_layer.cpp:273-283 | a BUSY answer after a copy went out leads to two indications |
| Tp1Link.OwnAddressSeesEveryCopy | src/datalink/tp1_data_link_layer.cpp:447-476 | to the own individual address there is one indication for every intact copy |
| GroupShaping.GroupObject.Store | src/application/group_object.cpp:41-57 | a value that is too long changes nothing; any other becomes the current value and is told to a listening application |
| GroupShaping.GroupObject.NoteSent | src/application/group_object.cpp:252-257 | what is remembered of a transmission |
| GroupShaping.SendGroupValue | src/bau/bau_group_runtime.cpp:223-275 | a publish suppresses, defers, sends or fails as one step of the shaping machine |
| GroupShaping.PumpObject | src/bau/bau_group_runtime.cpp:346-370 | one object of a pump pass; a refusal by the rate limiter stops the pass and changes nothing |
| GroupShaping.PumpTransmissions | src/bau/bau_group_runtime.cpp:335-371 | the loop over all objects is a left-to-right pass that stops at the first refusal |
| GroupShapingRuns.PumpVisits | src/bau/bau_group_runtime.cpp:335-371 | a pass is, for each object, its own pump event, unless some object up to it was refused |
| GroupShapingRuns.AlwaysRemembered | src/application/group_object.cpp:252-257 | after every run the remembered value and time are those of the last telegram |
| GroupShapingRuns.PublishBringsUpToDate | src/bau/bau_group_runtime.cpp:223-275 | a successful publish on a linked object leaves a close value on the bus or a send pending |
| GroupShapingRuns.EventKeepsUpToDate | src/bau/bau_group_runtime.cpp:335-371 | no pump and no further publish undoes that |
| GroupShapingRuns.ValueReachesTheBus | src/bau/bau_group_runtime.cpp:223-371 | after every successful publish and through any later events until the value changes, the last telegram is within the threshold of the current value or a send is pending |
| GroupShapingRuns.SuppressedIff | src/application/group_object.cpp:187-233 | a publish is dropped if and only if send-on-change is on and the last telegram is within the threshold of the current value |
| GroupShapingRuns.PublishSendsIff | src/bau/bau_group_runtime.cpp:223-275 | a publish of an unsuppressed value on a linked object sends at once if and only if the interval is over and the limiter agrees, else leaves a send pending; a failed send is reported and changes nothing |
| GroupShapingRuns.PublishWithoutClock | src/bau/bau_group_runtime.cpp:247-271 | without a clock nothing is left pending: a publish is sent unless it is suppressed |
| GroupShapingRuns.PumpSendsIff | src/bau/bau_group_runtime.cpp:346-370 | a pump sends the current value if and only if the object is a valid linked transmitter with a due heartbeat or a pending send that has waited out the interval, and limiter and bus agree; otherwise it changes nothing |
| WrappingClock.ElapsedIsExact | src/application/group_object.cpp:219-250 | unsigned 32-bit subtraction never overstates true elapsed time and is exact within one wrap |
| WrappingClock.TrueTime | src/application/authorization_service.cpp:310-318 | a time less than one wrap ago lies in the present period of the counter or in the one before, by the order of the readings |
| GroupShapingRuns.TelegramsAreSpaced | src/application/group_object.cpp:219-257 | in every run on a monotone clock, across any number of wraps, successive telegrams are at least the smaller of minimum interval and heartbeat apart in true time |
| GroupShapingRuns.HeartbeatUndercuts | src/application/group_object.cpp:235-240 | a run whose telegrams are one heartbeat period apart |
| GroupShapingRuns.MinIntervalIff | include/knx/application/group_object.hpp:31-32 | the documented floor holds in all runs if and only if there is no heartbeat or it is not shorter than the minimum interval |
| Dpt9.Normalise | src/application/dpt.cpp:328-332 | the loop stops at the first exponent at which the repeatedly halved mantissa fits |
| Dpt9.Encode | src/application/dpt.cpp:314-346 | succeeds exactly on the documented range; the word decodes to the normalised value and is the normalised word for it |
| Dpt9.PackRoundTrip | src/application/dpt.cpp:339-361 | mantissa and exponent are read back from the packed word |
| Dpt9.WordLayout | src/application/dpt.cpp:348-361 | what every word stands for, by its sign bit, exponent and eleven mantissa bits |
| Dpt9.KnownWords | src/application/dpt.cpp:308-312 | 0x0C1A is 21.00 and 0x87FF is -0.01 |
| Dpt9.NormalisedMantissa | src/application/dpt.cpp:328-332 | the mantissa the loop ends with could not be doubled |
| Dpt9.HalvedBounds | src/application/dpt.cpp:328-332 | repeated halving moves away from zero by less than one step |
| Dpt9.FitsIff | src/application/dpt.cpp:328-332 | after any number of halvings the mantissa fits if and only if the value was in the range of that exponent |
| Dpt9.ExponentIsLeast | src/application/dpt.cpp:328-332 | the loop ends at the smallest exponent whose range holds the value |
| Dpt9.EncodesExactlyTheDomain | src/application/dpt.cpp:319-337 | the mantissa fits after normalisation if and only if the value is in range |
| Dpt9.ErrorBound | src/application/dpt.cpp:328-332 | the error is below one step, and never towards zero |
| Dpt9.Monotone | src/application/dpt.cpp:314-361 | encoding and decoding keeps the order of any two values in range |
| Dpt9.RepresentableIsExact | src/application/dpt.cpp:314-361 | every representable value is kept |
| Dpt9.KeptIff | src/application/dpt.cpp:328-332 | a mantissa and exponent are chosen again if and only if the mantissa could not be doubled |
| Dpt9.EncodeOfDecode | src/application/dpt.cpp:314-361 | for all words: encoding the decoded value gives the same word if and only if the word is normalised |
| Dpt9.NearestIff | src/application/dpt.cpp:328-332 | no representable value is closer than the encoded one if and only if the value is representable at the smallest exponent whose range holds it or lies at least half way to its neighbour away from zero, with the narrower gap above 2047 steps |
| Dpt9.NotAlwaysNearest | src/application/dpt.cpp:328-332 | 40.97 becomes 41.00 and 163.77 becomes 163.84, although 40.96 and 163.76 are representable |
| Crc.Table16Entry | src/ets/ets_format_validator.cpp:10-44 | each of the 256 entries is the polynomial division of its index |
| Crc.Table32Entry | src/ets/ets_format_validator.cpp:46-91 | each of the 256 entries is the reflected polynomial division of its index |
| Crc.Step16Divides | src/ets/ets_format_validator.cpp:93-102 | one table step equals eight bit steps of division by 0x1021 |
| Crc.Step32Divides | src/ets/ets_format_validator.cpp:104-113 | one table step equals eight bit steps of division by reflected 0xEDB88320 |
| Crc.Crc16Ccitt | src/ets/ets_format_validator.cpp:93-102 | the table loop equals bit-at-a-time division for every octet sequence |
| Crc.Crc32 | src/ets/ets_format_validator.cpp:104-113 | the table loop with final complement equals bit-at-a-time division for every octet sequence |
| Crc.CheckValues | src/ets/ets_format_validator.cpp:93-113 | both checksums give their published check values for the digits 1 to 9 |
| Crc.Crc16DetectsOctet | src/ets/ets_format_validator.cpp:93-102 | any change of one octet changes the checksum, for data of any length |
| Crc.Crc32DetectsOctet | src/ets/ets_format_validator.cpp:104-113 | any change of one octet changes the checksum, for data of any length |
| EtsFormat.LoadsAreCanonical | src/ets/ets_config_loader.cpp:113-255 | every load, even a failing one, leaves implicit indices equal to positions; a successful one leaves an address or an object |
| EtsFormat.AddressesReadBack | src/ets/ets_config_loader.cpp:191-210 | a written address table is parsed back to the same entries |
| EtsFormat.AssociationsReadBack | src/ets/ets_config_loader.cpp:212-232 | a written association table is parsed back to the same entries |
| EtsFormat.ObjectsReadBack | src/ets/ets_config_loader.cpp:234-255 | a written object table is parsed back to the same entries |
| EtsRoundTrip.SavedValidates | src/ets/ets_format_validator.cpp:143-213 | every saved container passes full validation |
| EtsRoundTrip.SaveThenLoad | src/ets/ets_config_loader.cpp:113-520 | every configuration a load can leave and that can be saved has exactly the calculated size, validates, and loads back equal in every field, into any loader |
| EtsRoundTrip.LoadSaveLoad | src/ets/ets_migration_tool.cpp:149-213 | the same from any buffer that a fresh loader accepted |
| EtsRoundTrip.SavableIff | src/ets/ets_config_loader.cpp:326-373 | a configuration fits its size fields if and only if its tables have at most 32766, 32766 and 13106 entries |
| EtsRoundTrip.CorruptionPassesIff | src/ets/ets_format_validator.cpp:143-213 | one changed octet of a valid container passes full validation if and only if it is a section size octet, or a payload checksum octet of an empty payload |
| EtsLayout.ValidatesIff | src/ets/ets_format_validator.cpp:143-213 | a buffer passes full validation if and only if it has 20 octets, the magic, version 1, and the two big-endian checksums |
| EtsLayout.ChecksumLayout | src/ets/ets_config_loader.cpp:376-411 | magic, version and checksums of every saved container |
| EtsLayout.SizeLayout | src/ets/ets_config_loader.cpp:412-420 | the four big-endian section sizes |
| EtsLayout.DeviceLayout | src/ets/ets_config_loader.cpp:423-451 | the device section, field by field |
| EtsLayout.TableLayout | src/ets/ets_config_loader.cpp:453-520 | where the three tables lie, and their counts |
| EtsLayout.AddressLayout | src/ets/ets_config_loader.cpp:453-473 | each address entry |
| EtsLayout.AssociationLayout | src/ets/ets_config_loader.cpp:475-495 | each association entry |
| EtsLayout.ObjectLayout | src/ets/ets_config_loader.cpp:497-520 | each object entry |
| EtsLoader.ValidateFull | src/ets/ets_format_validator.cpp:143-213 | magic, version, header and payload checksum |
| EtsLoader.LevelsAgree | src/ets/ets_config_loader.cpp:93-111 | the two validating levels accept the same buffers, the third accepts all |
| EtsLoader.Loader.ParseAddressTable | src/ets/ets_config_loader.cpp:191-210 | replaces the table by the parsed entries if the count fits the buffer, else leaves it |
| EtsLoader.Loader.ParseAssociationTable | src/ets/ets_config_loader.cpp:212-232 | replaces the table by the parsed entries if the count fits the buffer, else leaves it |
| EtsLoader.Loader.ParseObjectTable | src/ets/ets_config_loader.cpp:234-255 | replaces the table by the parsed entries if the count fits the buffer, else leaves it |
| EtsLoader.Loader.ParseVersionedFormat | src/ets/ets_config_loader.cpp:113-166 | verdict and resulting contents, also when it stops half way |
| EtsLoader.Loader.LoadFromBuffer | src/ets/ets_config_loader.cpp:35-111 | every error by validation level and version; contents and validity afterwards |
| EtsLoader.Loader.WriteAddressTable | src/ets/ets_config_loader.cpp:453-473 | appends exactly the table's octets at the moving offset |
| EtsLoader.Loader.WriteAssociationTable | src/ets/ets_config_loader.cpp:475-495 | appends exactly the table's octets at the moving offset |
| EtsLoader.Loader.WriteObjectTable | src/ets/ets_config_loader.cpp:497-520 | appends exactly the table's octets at the moving offset |
| EtsLoader.Loader.WritePayload | src/ets/ets_config_loader.cpp:315-373 | which section stops a save and with which error; on success the payload fills its place exactly |
| EtsLoader.Loader.SaveToBuffer | src/ets/ets_config_loader.cpp:297-421 | a successful save leaves exactly the serialised container |
| EtsLoader.ExactBufferSaves | src/ets/ets_config_loader.cpp:287-295 | in a buffer of exactly the calculated size only an oversized section can refuse |
| EtsLoader.CopyByContainer | src/ets/ets_migration_tool.cpp:149-213 | saving into a buffer of exactly the calculated size and loading it into a fresh loader with full validation gives the same configuration, or the section was too long |
| OutcomeRing.Ring.Enqueue | src/application/application_layer.cpp:279-297 | the ring afterwards holds the most recent outcomes; an overwrite is counted |
| OutcomeRing.Ring.Pop | src/application/application_layer.cpp:310-319 | takes the oldest outcome, or nothing from an empty ring |
| OutcomeRing.HoldsTheMostRecent | src/application/application_layer.cpp:279-297 | after any number of outcomes between pops the ring holds exactly the last eight in order |
| SendEngine.Decided | src/application/application_layer.cpp:1296-1330 | the attempt that ends a send is the first final one |
| SendEngine.DecidedInTime | src/application/application_layer.cpp:231-253 | a send ends within max(1, maxAttempts) attempts, for every script |
| SendEngine.DecidedIff | src/application/application_layer.cpp:231-253 | a send ends at an attempt if and only if all earlier answers are ones the options retry, each option governing one error, and this one is not or is the last attempt allowed |
| SendEngine.Sender.SendData | src/application/application_layer.cpp:1296-1330 | the blocking form records exactly one outcome with the deciding attempt and its answer, also when the octet-sized counter has 255 attempts to make |
| SendEngine.Sender.BeginSendData | src/application/application_layer.cpp:1332-1366 | a refused send changes nothing, the ring included; a failed one records one outcome with no attempt |
| SendEngine.Sender.PollSendData | src/application/application_layer.cpp:1368-1425 | one poll retries, ends or stays pending; ring and reported result |
| SendEngine.PolledIsBlocking | src/application/application_layer.cpp:1296-1425 | however the answers are spread over polls, the polled form records exactly the outcome of the blocking form for the same answers, and nothing before |
| SendEngine.OneOutcomePerSend | src/application/application_layer.cpp:1368-1425 | whatever the transport answers, one outcome per accepted send, with 1 to max(1, maxAttempts) attempts |
| SendEngine.FailedRetryBegin | src/application/application_layer.cpp:1395-1425 | a retry whose begin fails ends the send with that error and the attempts made |
| SendEngine.LastPollReports | src/application/application_layer.cpp:255-265 | what the last poll tells its caller, and which recorded errors become TRANSMISSION_FAILED |
| RequestContext.ApplicationLayer.HandleTransportRx | src/application/application_layer.cpp:1508-1527 | for every tree of re-entrant requests the events equal those of a reference in which each request carries its own context, and both fields are restored |
| RequestContext.ApplicationLayer.DispatchService | src/application/application_layer.cpp:1514-1526 | a handler sees the context of its own request before and after every re-entry |
| RequestContext.NoUnprotectedWrite | src/application/security_access_policy.cpp:92-133 | with Security Mode on no management write is dispatched anywhere in the tree unless the context in force is tool-secured |
| RequestContext.ManagementWriteIff | src/application/security_access_policy.cpp:92-113 | the fourteen service codes that are management writes |
| RequestContext.DispatchedIff | src/application/application_layer.cpp:1529-1552 | a request is dispatched, first and in its own context, unless Security Mode is on, it is a management write, and one of the three protections is missing; then it causes nothing |
| RequestContext.ResponsesFollowTheRequest | src/application/application_layer.cpp:1508-1512 | every response goes out on the transport service its request came in on, whatever was let in before it |
| PayloadPlacement.HeaderRoundTrip | include/knx/protocol/tpdu_codec.hpp:47-75 | the ten bits of a service code survive the header |
| PayloadPlacement.RecognisableIff | include/knx/application/apci_services.hpp:156-236 | a code decodes to itself if and only if its data bits are clear or it lies in one of five blocks given by number |
| PayloadPlacement.AdcCollisions | include/knx/application/apci_services.hpp:197-236 | the channels whose A_ADC_Response decodes as another service |
| PayloadPlacement.PlacedAs | src/application/application_layer.cpp:417-489 | how a payload is split between data bits and octets, by service code and length, and when it is refused |
| PayloadPlacement.TpduOctets | src/application/application_layer.cpp:417-489 | length and octets of every TPDU; a group value of one octet up to 0x3F takes two |
| PayloadPlacement.KnownTpdus | src/application/application_layer.cpp:55-70 | the TPDUs of switching on and of reading three octets |
| PayloadPlacement.ControlTpdu | include/knx/protocol/tpdu_codec.hpp:62-75 | a transport control TPDU carries no service code |
| PayloadPlacement.Collect | src/application/application_layer.cpp:1463-1490 | the receiving loop into a bounded vector gives the first 254 octets, and the data bits of a short group value |
| PayloadPlacement.BuildInPlace | include/knx/protocol/tpdu_codec.hpp:124-137 | what lies inside the vector is the start of the TPDU; the write runs over its end if and only if more than 254 octets follow the header |
| PayloadPlacement.PlacementRoundTrip | src/application/application_layer.cpp:417-489 | for every service code and accepted payload of any length, the octets stay inside the vector and the receive path rebuilds service and payload, if and only if the stated limits were respected |
| PayloadPlacement.Misread | src/application/application_layer.cpp:55-70 | two responses that arrive as another service |
| MemorySegments.Device.FindRegion | src/application/address_space.cpp:112-120 | the first region that contains the address |
| MemorySegments.Device.AddressSpaceAdd | src/application/address_space.cpp:19-38 | full table, empty region, overlap, or appended |
| MemorySegments.Device.RegisterMemoryRegion | src/application/application_layer.cpp:130-177 | region table and segment list afterwards, also when the second step fails |
| MemorySegments.Device.ReadCallback | src/application/application_layer.cpp:150-161 | the octets of the first segment containing the whole range |
| MemorySegments.Device.WriteCallback | src/application/application_layer.cpp:162-174 | patches the first segment containing the whole range, or nothing |
| MemorySegments.Device.ValidateAccess | src/application/memory_service.cpp:262-292 | length, region and mode checks in order |
| MemorySegments.Device.HandleRead | src/application/memory_service.cpp:42-75 | answer of the classic read |
| MemorySegments.Device.HandleWrite | src/application/memory_service.cpp:77-127 | new memory and answer of the classic write with its read-back |
| MemorySegments.Device.HandleExtendedRead | src/application/memory_service.cpp:354-393 | answer and return code of the extended read |
| MemorySegments.Device.HandleExtendedWrite | src/application/memory_service.cpp:395-437 | new memory and return code of the extended write |
| MemoryRefinement.RouteReadIsFlat | src/application/application_layer.cpp:150-161 | a routed read returns the flat memory's octet at every address |
| MemoryRefinement.RouteWriteIsFlat | src/application/application_layer.cpp:162-174 | a routed write changes the flat memory exactly at the written addresses |
| MemoryRefinement.ServedByOneSegment | src/application/memory_service.cpp:262-292 | a granted access is served by one segment and no other, if and only if its region was among the first eight |
| MemoryRefinement.ServeIsFlat | src/application/memory_service.cpp:42-437 | every request, as an operation on the flat memory; a failing one changes no octet |
| MemoryRefinement.MemoryIsItsHistory | src/application/memory_service.cpp:42-437 | after any run every address holds the last octet successfully put there |
| MemoryRefinement.ReadsReturnLastPuts | src/application/memory_service.cpp:42-75 | after any run a successful classic or extended read returns at each address the last octet put there |
| MemoryRefinement.WriteEchoesData | src/application/memory_service.cpp:77-127 | a successful classic write answers with exactly the written octets |
| MemoryRefinement.NinthRegionIsNotServed | src/application/application_layer.cpp:140-146 | a ninth region is granted and not served |
| MemoryAccess.GrantedIff | src/application/address_space.cpp:45-91 | a read is granted if and only if its length is right and a region spanning it is read-only or read-write; a write if and only if one is write-only or read-write |
| MemoryAccess.ClassicRefusals | src/application/memory_service.cpp:262-292 | the error of a refused classic request, by length, address, and mode |
| MemoryAccess.ExtendedCodes | src/application/memory_service.cpp:307-352 | exactly when each return code is given |
| MemoryAccess.ExtendedReplies | src/application/memory_service.cpp:354-437 | the reply of every extended request: refusal, missing data, missing storage, success |
| MemoryAccess.AddedIff | src/application/address_space.cpp:19-38 | a region is added if and only if there is room, it is not empty and it shares no address |
| MemoryAccess.RegistrationReplies | src/application/application_layer.cpp:130-147 | what every registration answers and leaves behind |
| MemoryAccess.ReadSucceedsIff | src/application/memory_service.cpp:42-75 | classic and extended reads succeed if and only if they are short enough and a readable region with storage spans them |
| MemoryAccess.WriteSucceedsIff | src/application/memory_service.cpp:77-127 | classic writes succeed if and only if they bring their data, are short enough, and a writable region with storage spans them |
| MemoryAccess.ExtendedWriteSucceedsIff | src/application/memory_service.cpp:395-437 | the same for extended writes, which may bring more data than they count |
| MemoryAccess.ReadOnlyIsKept | src/application/address_space.cpp:69-91 | whatever requests follow, every address of a region registered read-only or without access still holds its registered octet |
| MemoryAccess.ReadsStayReadable | src/application/address_space.cpp:45-67 | after any run no successful read returns an octet of a region that is write-only or without access |
| Authorization.SameDeviceIsEqual | src/application/authorization_service.cpp:249-273 | comparing area, line and device is comparing addresses |
| Authorization.HighestMatchingLevel | src/application/authorization_service.cpp:181-212 | with keys configured a key grants a level if and only if it is that level's key and no higher level's, and is denied if and only if it is no level's; without keys every key grants the maximum |
| Authorization.Service.CurrentTime | src/application/authorization_service.cpp:275-280 | the time source, or a logical clock that ticks |
| Authorization.Service.Find | src/application/authorization_service.cpp:249-273 | the first entry of an address |
| Authorization.Service.RemoveAt | src/application/authorization_service.cpp:300-308 | shifting down removes exactly one entry and keeps the order |
| Authorization.Service.RemoveExpired | src/application/authorization_service.cpp:289-298 | the compacting loop leaves exactly the filter of the entries |
| Authorization.Service.OldestIndex | src/application/authorization_service.cpp:310-318 | the first entry with the smallest stamp |
| Authorization.Service.StoreAuthorization | src/application/authorization_service.cpp:221-247 | expiry, replacement, append or eviction; addresses stay distinct |
| Authorization.Service.HandleRequest | src/application/authorization_service.cpp:43-82 | a denied request changes nothing; a granted one stores the granted level |
| Authorization.Service.GetCurrentLevel | src/application/authorization_service.cpp:84-96 | the level as the table and the clock give it; an unknown device does not tick the clock |
| Authorization.Service.ClearAuthorization | src/application/authorization_service.cpp:98-110 | forgets exactly one address |
| Authorization.KeptEntries | src/application/authorization_service.cpp:289-298 | expiry removal keeps exactly the unexpired entries, distinct |
| Authorization.KeptInOrder | src/application/authorization_service.cpp:289-298 | expiry removal keeps the order |
| Authorization.Evicted | src/application/authorization_service.cpp:241-246 | an eviction happens only from a full table for an unknown address, and takes a smallest stamp |
| Authorization.StoredAsMap | src/application/authorization_service.cpp:221-247 | a grant is an update of a bounded map: it sets the requester's entry, and another address loses its entry only by expiry or as the evicted one |
| Authorization.GrantedLevel | src/application/authorization_service.cpp:84-96 | the requester holds what it was granted until the timeout |
| Authorization.EvictsOldestIff | src/application/authorization_service.cpp:310-318 | with ages below 2^32 the evicted entry is the truly oldest if and only if all stamps lie on one side of the present reading |
| Authorization.WrapEvictsTheNewest | src/application/authorization_service.cpp:310-318 | a run of sixteen grants across a wrap after which a seventeenth evicts the newest |
| Authorization.ReachableTable | src/application/authorization_service.cpp:43-110 | after every run of grants and clears: distinct addresses, at most sixteen, all from the run |
| Authorization.TableHoldsLastGrants | src/application/authorization_service.cpp:43-110 | in every run the table holds of an address exactly its last grant, or nothing once another grant found it expired or evicted it |
| Authorization.LevelOfARun | src/application/authorization_service.cpp:84-110 | in every run, with any number of devices and any times, the level is that of the last grant, or none if there is no such grant, or it was displaced, or has expired |
| Authorization.LevelIsTheLastGrant | src/application/authorization_service.cpp:43-110 | in every run among at most sixteen addresses the level is that of the last grant until it is truly timed out, across clock wraps |
| TcpChannel.WriteAll | src/netip/tcp_frame_channel.cpp:27-38 | success writes everything; failure leaves a proper prefix written; a socket that makes progress never fails |
| TcpChannel.ReadExact | src/netip/tcp_frame_channel.cpp:40-52 | success takes exactly the next octets; failure takes fewer; a socket that makes progress fails only at the end of the stream |
| TcpChannel.SendFrame | src/netip/tcp_frame_channel.cpp:54-61 | appends the frame to the stream or a proper prefix of it |
| TcpChannel.ReceiveFrame | src/netip/tcp_frame_channel.cpp:63-91 | a received frame is the next one of the stream, and with a progressing socket result and rest do not depend on the pieces |
| TcpChannel.ReadBody | src/netip/tcp_frame_channel.cpp:78-90 | the same behind the header, with the header gone on a length error |
| TcpChannel.DeframeIff | src/netip/tcp_frame_channel.cpp:69-91 | a receive succeeds with a frame and a rest if and only if the stream is the frame followed by the rest, and the frame has 6 octets up to the capacity and its length big-endian in its fifth and sixth octet |
| TcpChannel.DeframeErrors | src/netip/tcp_frame_channel.cpp:69-91 | which error every other stream gets and what has been taken by then |
| TcpChannel.LaterOctetsDoNotMatter | src/netip/tcp_frame_channel.cpp:69-91 | octets that arrive later change no answer other than the end of the stream |
| TcpChannel.FramesIff | src/netip/tcp_frame_channel.cpp:69-91 | repeated receives give a list of frames if and only if the stream is their concatenation and each is well-formed and fits |
| TcpChannel.OversizedBodyIsReadAsFrames | src/netip/tcp_frame_channel.cpp:79-81 | after a frame that does not fit, its body is the next thing read |
| TcpChannel.Exchange | src/netip/tcp_frame_channel.cpp:27-91 | for every list of fitting frames, every split into pieces and every interleaving of sends and receives, the same frames come out in order |

## Left out

- RTOS tasks, interrupt notification, mutex and queue primitives, timeouts and logging: arbitrary answers or a
  held flag stand for them.
- The blocking TP1 send, initialisation and closing of the layers, and editing of the group address table: they
  only wrap what is modelled.
- Statistics counters are unbounded; their 32-bit wrap-around is not modelled.
- The contents of pooled frames and the receive queue above the link layer: only the in-use flags are modelled.
- The rate limiter's own bookkeeping, sends to several group addresses of which some fail, publishes of data
  other than the stored value, and the diagnostics path that bypasses shaping.
- IEEE-754 effects in DPT 9: the model starts from whole hundredths. The other datapoint types are fixed-width
  packing without iteration.
- Change thresholds and decoded values are real numbers, not doubles.
- cEMI, the KNXnet/IP header codecs and services, cryptography and secure wrapping.
- Memory storage is held by value: aliasing of storage that the application also writes, 32-bit overflow of a
  region's end address, and memory callbacks installed by the application are not modelled.
- Configuration files, the import of product archives, and the migration tool's reports.
- The transport layer's rewriting of the TPCI, property services, and the individual service handlers: a handler
  is a list of responses and re-entrant requests.
- In the authorization service: encoding and decoding of its TPDUs, and clearing all entries at once.
- In the TCP channel: waiting for readability; both ends are seen as one stream that neither loses nor reorders.
- Authorization.LevelIsTheLastGrant: at most sixteen addresses, because with more the table evicts; and ages
  below one period of the clock, because the code cannot tell older ones apart. `LevelOfARun` covers all runs.
- Tp1Link.ExactlyOnce: no unrepeated copy sent again after BUSY, because the code duplicates exactly there
  (`AtMostOnceIff`); `IndicationsOfARun` covers all runs.

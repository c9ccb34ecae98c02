# Verified models of the Firmware repository's host tools and node handle

The repository holds an autopilot's firmware and the tools around it. This project models the parts
that carry an algorithm or a protocol, in Dafny, and proves what they promise:

- **The firmware uploader** (`Crc32`, `CrcRegister`, `CrcRemainder`, `CrcDetection`, `Firmware`,
  `ByteNumbers`, `Bootloader`, `BootloaderSafety`, `BootloaderWire`, `BoardQueries`, `UploadPlan`,
  `FlashDevice`, `Uploader`). The table-driven checksum is the bit-serial one, and both are the remainder
  of a polynomial division (the generator is that of section 8 of RFC 1952, here with start value 0 and
  no final inversion). Every burst of up to 32 bits is noticed, and no longer bound would do. The upload
  is a script of commands against a device that may answer anything: what it writes, when it stops and
  when it succeeds are settled for every stream of answers; and for a device that does what it
  acknowledges they are settled by the sizes of image and flash, whatever the flash held before.
- **The MAVLink 1.0 codec and framer** (`MavFields`, `MavMessages`, `MavTable`, `MavFramer`,
  `MavSession`, `Mavlink`). Packing and decoding undo each other and accept the same frames; the
  resynchronising receiver is a one-pass scan however its input is cut up and its two calls are mixed;
  no byte is lost or counted twice; and what one end sends the other end receives, field by field.
- **The sdlog2 log parser** (`SdLog`, `SdLogWriter`, `SdLogParser`). FORMAT records teach the parser how
  to read later ones; block boundaries make no difference; written logs are read back, also with
  garbage between the records; and the files that hold the parser up for ever are told from all others.
- **Smaller algorithms**: the flight path check (`FlightPath`), the node handle's subscriber list
  (`NodeHandle`), waiting for a prompt (`FetchFile`), and the parameter parser's comment grammar and
  orderings (`ParamParser`, `ParamOrder`).

Classes stand for the program's objects, with its loops and field updates. Each method is tied to a
function of the old state; the theorems are lemmas about those functions. `Basics` and `Octets` hold
what several parts share. To check everything with Dafny 4.11, run `dafny verify dfyconfig.toml` in
this directory, with no further options.

Serial ports, files and clocks are sequences: of answers that are a byte or a silence, of bytes, of
samples, and of reads marked as late or not. The erase deadline is a bound on the number of polls.

## What turned out otherwise than one would expect

- The uploader's checksum covers exactly the flash if and only if the space behind the image is a whole
  number of words (`Firmware.PadCoversFlash`). On other flash sizes an upload to a working device fails,
  except for images that leave the register at one particular value
  (`FlashDevice.WorkingDeviceAcceptedIff`).
- From revision 4 on the serial number, the chip and its description are asked for before the erase, and
  a failure is passed over. The erase then hears what is left of an answer that came late, whichever of
  the three it was; it hears only its own answer if and only if every answer came in time
  (`BoardQueries.InTimeIff`). It succeeds on the leftovers alone if and only if they begin with fewer idle
  polls than it is allowed and then an acknowledgement (`BoardQueries.LateAnswerEndsErase`); for a late
  chip version that is so when none of its bytes is 0x12 and more than four polls are allowed
  (`BoardQueries.LateChipEndsErase`). What follows is still verified.
- Without robust parsing a MAVLink frame that does not decode raises but is not counted as an error
  (`MavFramer.StrictStep`); garbage is counted once per stretch, not once per byte.
- A boot delay outside -128..127 is noticed only after erasing, programming and verifying; the board is
  then not rebooted (`UploadPlan.UploadSucceedsIff`).
- The log parser's inner loop can go round for ever, at a record whose learned length is zero and which
  is not shown or has an empty format; teaching the length alone does no harm. `SdLog.StuckIff` says
  exactly when, `SdLog.NothingTaughtNothingStuck` gives a condition on the file's bytes alone, and
  `SdLogWriter.StickingLog` is such a file. The model ends such a parse with `Stuck`.
- An unlearned record type raises KeyError at the lookup, before the program's own message for that case.
- A log parser without a filter shows only messages whose name was taught before the first data record,
  and silently leaves out those taught later (`SdLog.UnfilteredShows`). It keeps those names as its
  filter, so of a second file parsed by the same object it shows exactly the records with one of them
  (`SdLogParser.SDLog2Parser.Process`, `SdLog.FilterDecides`).
- A silent read inside the prompt makes `_wait_for_string` miss it (`FetchFile.SilenceHidesPrompt`).
- With more than 101 subscribers `spinOnce` never reaches the oldest (`NodeHandle.SpinServes`), and the
  destructor leaves them undeleted.
- A documentation comment opened and closed in one line swallows the definition after it
  (`ParamParser.OneLineCommentSwallowsDefinition`). More generally a definition is stored if and only if
  its line starts no comment, no comment is open before it, and no comment ending right before it holds
  an unknown tag (`ParamParser.StoredIff`); all three are read off the lines.

## Model

| member | source | states |
|---|---|---|
| Crc32.TableIsShift8 | Tools/px_uploader.py:76-108 | each of the 256 table words is what eight shifts of the reflected register with polynomial 0xEDB88320 make of its index |
| Crc32.TableStepIsEightBitSteps | Tools/px_uploader.py:129-130 | one turn of the byte loop is eight turns of the bit-serial register fed the byte's bits, lowest first |
| Crc32.TableRefinesBitSerial | Tools/px_uploader.py:127-131 | for every byte string and every start state the table-driven loop equals the bit-serial one |
| CrcRemainder.StepDivides | Tools/px_uploader.py:127-131 | one register step is one step of long division by the generator |
| CrcRemainder.QuotientDivides | Tools/px_uploader.py:127-131 | the feedback bits are a quotient that leaves the final register as remainder |
| CrcRemainder.DivisionIsUnique | Tools/px_uploader.py:127-131 | any quotient and remainder of the message times x^32 have that remainder |
| CrcRemainder.CrcIsTheRemainder | Tools/px_uploader.py:127-131 | a word is the checksum if and only if it is the remainder of the message times x^32 on division by the generator |
| CrcDetection.CrcLinear | Tools/px_uploader.py:127-131 | the checksum of the sum of two byte strings is the sum of their checksums |
| CrcDetection.BurstIsSeen | Tools/px_uploader.py:76-131 | from one register, different bit strings of at most 32 bits lead to different registers |
| CrcDetection.CommonTailKeepsDifference | Tools/px_uploader.py:127-131 | two different registers stay different under every common continuation |
| CrcDetection.BurstDetected | Tools/px_uploader.py:127-131 | images that differ only inside 32 consecutive bits, aligned or not, have different checksums |
| CrcDetection.FourByteBurstDetected | Tools/px_uploader.py:127-131 | the same for any window of four bytes |
| CrcDetection.GeneratorBurstEscapes | Tools/px_uploader.py:127-131 | the bound is tight: in every image, at every place, some change of 33 bits goes unseen |
| CrcDetection.UnseenIffMultiple | Tools/px_uploader.py:127-131 | a change of an image goes unseen if and only if the difference, times x^32, is a multiple of the generator |
| Firmware.Image.constructor | Tools/px_uploader.py:111-122 | the image is the decoded one followed by the fewest 0xff bytes that make its length a multiple of four |
| Firmware.Image.UpdateCrc | Tools/px_uploader.py:127-131 | the byte loop computes the table-driven checksum |
| Firmware.Image.PaddedCrc | Tools/px_uploader.py:133-137 | the padding loop computes the checksum of the image followed by its words of 0xff |
| Firmware.PadCoversFlash | Tools/px_uploader.py:133-137 | the padded image is exactly as long as the flash if and only if the rest is a whole number of words |
| Firmware.PadWordAddedIff | Tools/px_uploader.py:135 | a further word is added exactly while what stands before it is shorter than padlen - 1 |
| Firmware.ImageBurstDetected | Tools/px_uploader.py:127-137 | bursts of up to 32 bits change crc(padlen) for every padlen |
| Firmware.ReturnsOnlyWhenStill | Tools/px_uploader.py:127-131 | one or two 0xff bytes bring the register back only at one single value |
| Firmware.ExpectsIntactFlashIff | Tools/px_uploader.py:133-137 | crc(padlen) is the checksum of the intact flash if and only if the rest is whole words or the image ends at that value |
| BootloaderSafety.GetSyncIsAck | Tools/px_uploader.py:213-224 | synchronising succeeds if and only if INSYNC and OK come next, and consumes just them |
| BootloaderSafety.AwaitCrcIff | Tools/px_uploader.py:410-422 | verification by checksum succeeds if and only if the device sends the expected word, lowest byte first, and the acknowledgement |
| BootloaderSafety.AwaitReadBackIff | Tools/px_uploader.py:344-361 | a block verifies if and only if the device sends exactly its bytes and the acknowledgement |
| BootloaderSafety.AwaitEraseSound | Tools/px_uploader.py:236-254 | an erase that succeeds heard fewer idle polls than allowed, and then INSYNC and OK |
| BootloaderSafety.AwaitEraseComplete | Tools/px_uploader.py:305-327 | any such answer makes the erase succeed, and no more than it is consumed |
| BootloaderSafety.SyncFailures | Tools/px_uploader.py:213-224 | the reason for which synchronising fails, for each byte that may come |
| BootloaderSafety.EraseTimesOut | Tools/px_uploader.py:305-327 | as many idle polls as are allowed time the erase out |
| BootloaderSafety.SiliconRefused | Tools/px_uploader.py:236-254 | behind fewer idle polls, 0x12 and 0x14 refuse the silicon |
| BootloaderSafety.CrcMismatches | Tools/px_uploader.py:410-422 | an acknowledged checksum other than the one expected is a mismatch |
| BootloaderSafety.ReadBackDiffers | Tools/px_uploader.py:344-361 | a block read back otherwise fails verification before any acknowledgement is awaited |
| BootloaderSafety.EarlierCommandsAcknowledged | Tools/px_uploader.py:378-423 | in every run, each command but the last one written was acknowledged before the next was written |
| BootloaderSafety.RunFailsAtLast | Tools/px_uploader.py:378-423 | a failing run has the outcome of its last command, on what the device said behind the commands acknowledged before |
| BootloaderSafety.RunSucceedsIff | Tools/px_uploader.py:378-423 | a script gets to its end if and only if the answers begin with an acknowledgement of every command in order |
| BootloaderSafety.RunAppend | Tools/px_uploader.py:496-508 | running two scripts one after the other is running their concatenation |
| BootloaderWire.CommandIsRead | Tools/px_uploader.py:329-371 | whatever bytes follow, a reader of the wire format gets the command sent and its exact extent |
| BootloaderWire.RunIsReadBack | Tools/px_uploader.py:304-429 | from the bytes a run writes alone, exactly its commands can be read back, in order |
| BootloaderWire.WireBytes | Tools/px_uploader.py:143-171 | the bytes of each command on the wire |
| BootloaderWire.DelayWire | Tools/px_uploader.py:425-429 | a boot delay goes out as one byte in two's complement |
| BoardQueries.AskSucceedsIff | Tools/px_uploader.py:264-292 | a query succeeds if and only if what comes next is an answer to it, which it consumes: a word and the acknowledgement, where a memory word or a description may come short |
| BoardQueries.PreambleIsReadBack | Tools/px_uploader.py:459-487 | whatever the device says, what is written before the erase reads back as the words of one-time-programmable memory at offsets 0, 4, 8 and on, then of the serial number, the chip and from revision 5 its description, in this order |
| BoardQueries.PreambleSucceedsIff | Tools/px_uploader.py:459-496 | the erase is reached if and only if the revision is 3 or less or every query of one-time-programmable memory was answered |
| BoardQueries.PreambleAnswered | Tools/px_uploader.py:459-494 | a device that answers every query leaves the upload to begin with what it says next |
| BoardQueries.InTimeIff | Tools/px_uploader.py:472-496 | the erase is reached although answers to the serial number, chip or description queries are broken off by a silence; it hears just what comes for it if and only if all came in time, and otherwise first the rest of the late answer |
| BoardQueries.AwaitEraseIff | Tools/px_uploader.py:305-327 | the erase ends having heard just these answers if and only if they are idle polls, fewer than allowed, and the acknowledgement |
| BoardQueries.LateAnswerEndsErase | Tools/px_uploader.py:472-496 | the erase succeeds without hearing a word said of it if and only if what the queries left begins with idle polls and an acknowledgement |
| BoardQueries.LateChipEndsErase | Tools/px_uploader.py:485-496 | for a chip version late as a whole: exactly when its bytes are idle polls, as they are with more than four polls and no INSYNC among them |
| UploadPlan.SplitLenPieces | Tools/px_uploader.py:374-375 | the groups concatenate to the image, none is empty, and all but the last are full |
| UploadPlan.CommandsFollowScript | Tools/px_uploader.py:496-508 | whatever the device says, the commands written are the first ones of the script, in order |
| UploadPlan.DelayIsSent | Tools/px_uploader.py:504-508 | a successful upload ends with the boot delay asked for and the reboot, awaited from revision 3; no other boot delay is ever written |
| UploadPlan.BadDelayNoticedLast | Tools/px_uploader.py:425-429 | a delay out of range is noticed exactly when everything up to the verification was acknowledged |
| UploadPlan.GroupsOf252 | Tools/px_uploader.py:374-408 | the erase is first, and groups are of 252 bytes but for a smaller last one |
| UploadPlan.RebootOnlyAfterVerification | Tools/px_uploader.py:447-508 | whatever the device says, a reboot is written last, after the erase, every group, the verification and any boot delay, each acknowledged |
| UploadPlan.UploadSucceedsIff | Tools/px_uploader.py:447-508 | an upload succeeds if and only if the boot delay fits a signed byte and every command of the script is acknowledged |
| FlashDevice.ProgrammingGroups | Tools/px_uploader.py:378-385 | groups written consecutively into erased flash put down exactly their concatenation |
| FlashDevice.SuccessfulUploadWroteImage | Tools/px_uploader.py:447-508 | a device that executed a successful upload's commands holds the image followed by 0xff |
| FlashDevice.RunOnReplies | Tools/px_uploader.py:344-423 | on a truthful device a script ends if and only if all it expects to read back is what flash reports |
| FlashDevice.UploadVerdict | Tools/px_uploader.py:394-423 | on a truthful device the upload succeeds if and only if the flash passes its revision's verification |
| FlashDevice.IntactFlashAcceptedIff | Tools/px_uploader.py:394-423 | intact flash is accepted by revision 2 always, by later ones exactly under the condition on flash size or still register |
| FlashDevice.DamagedFlashRefused | Tools/px_uploader.py:410-422 | flash damaged within 32 consecutive bits is refused and the board is never told to reboot |
| FlashDevice.LiveVerdict | Tools/px_uploader.py:447-508 | whatever flash held before, a device that executes each command and then reports on its flash lets the upload succeed if and only if the image with erased flash behind it passes verification |
| FlashDevice.WorkingDeviceAcceptedIff | Tools/px_uploader.py:447-508 | on such a device of the size reported, from any flash, the upload succeeds, leaving image and 0xff, exactly under the conditions on polls, delay, revision, flash size or still register |
| FlashDevice.WholeUploadAcceptedIff | Tools/px_uploader.py:447-508 | the same for the whole upload to revision 4 or later, its queries answered in time and included |
| Uploader.Port.Read | Tools/px_uploader.py:201-206 | a read takes bytes up to the count asked for or the first silence, and logs what it heard |
| Uploader.Uploader.GetSync | Tools/px_uploader.py:213-224 | leaves outcome, answers and log as the specification says |
| Uploader.Uploader.TrySync | Tools/px_uploader.py:236-254 | leaves result, answers and log as the specification says |
| Uploader.Uploader.Erase | Tools/px_uploader.py:305-327 | plays the erase command: outcome, answers left and log |
| Uploader.Uploader.Program | Tools/px_uploader.py:378-385 | plays one program command per group, stopping at the first that is not acknowledged |
| Uploader.Uploader.VerifyMulti | Tools/px_uploader.py:344-361 | plays the read back of one block |
| Uploader.Uploader.VerifyV2 | Tools/px_uploader.py:394-408 | plays the verify command and the read back of every block |
| Uploader.Uploader.VerifyV3 | Tools/px_uploader.py:410-423 | plays the checksum command against the padded checksum |
| Uploader.Uploader.Reboot | Tools/px_uploader.py:364-371 | plays the reboot command, acknowledged from revision 3 on |
| Uploader.Uploader.GetWords | Tools/px_uploader.py:460-464 | asks for each word in turn and stops at the first query that fails |
| Uploader.Uploader.Describe | Tools/px_uploader.py:459-494 | from revision 4 on asks for memory, serial number and chip; only a memory failure counts |
| Uploader.Uploader.Upload | Tools/px_uploader.py:447-509 | refuses a wrong board or too large an image without writing; otherwise plays the queries and then the upload's run on the port |
| Octets.TextSurvivesIff | Tools/mavlink_px4.py:2208-2216 | text reads back as given if and only if it fits its field and holds no NUL |
| Octets.CStringStopsAtNul | Tools/mavlink_px4.py:2208-2216 | what is read is what stands before the first NUL |
| MavFields.FieldRoundTrip | Tools/mavlink_px4.py:2362-2378 | a packed field decodes to the value that was packed, text at full width |
| MavFields.FieldRoundTripBack | Tools/mavlink_px4.py:2362-2378 | every byte string of a field's width decodes to a value that packs to it again |
| MavFields.WidthsAndRanges | Tools/mavlink_px4.py:2115-2200 | width and range of each struct letter |
| MavFields.NumberOnWire | Tools/mavlink_px4.py:2361-2378 | a number goes out in two's complement, lowest byte first |
| MavFields.TextOnWire | Tools/mavlink_px4.py:2361-2378 | text goes out cut at its width or filled up with NULs |
| MavFields.PackUnpack | Tools/mavlink_px4.py:2361-2378 | the same for whole payloads, field by field |
| MavFields.UnpackPack | Tools/mavlink_px4.py:2361-2378 | every payload of the right size is the packing of what it unpacks to |
| MavMessages.ReorderRoundTrip | Tools/mavlink_px4.py:2367-2372 | the wire order of the pack methods and the order map undo each other |
| MavMessages.ReceivedArrives | Tools/mavlink_px4.py:2361-2378 | what is received has the id sent and every declared field equal; text reads back as given if and only if it fits its width and holds no NUL |
| MavMessages.DecodeOfFrame | Tools/mavlink_px4.py:101-111 | decoding a packed frame gives back the message with its fields as sent, its sequence number and its source ids, for any checksum function |
| MavMessages.FrameLayout | Tools/mavlink_px4.py:91-111 | the frame byte by byte: marker, length, number, system, component, message, payload, checksum |
| MavMessages.PayloadLayout | Tools/mavlink_px4.py:2361-2378 | each field lies behind the widths of those before it in wire order |
| MavMessages.SumIsCourse | Tools/mavlink_px4.py:106-109 | the checksum folds every byte between marker and checksum, and then the message's extra byte |
| MavMessages.OneByteRefused | Tools/mavlink_px4.py:2355-2359 | with a checksum whose steps are injective, a frame that differs in one byte from an accepted one is refused; only another known message's id may escape |
| MavMessages.ExtraBytesMustAgree | Tools/mavlink_px4.py:2352-2359 | under that condition two ends that know a message by different extra bytes do not both accept a frame of it |
| MavMessages.FirstBytesRefused | Tools/mavlink_px4.py:2332-2348 | what is wrong with the header is told, in its order |
| MavMessages.WrongSumIsBad | Tools/mavlink_px4.py:2355-2359 | a wrong checksum is told as sent and as computed |
| MavMessages.RightSumIsGoodIff | Tools/mavlink_px4.py:2355-2366 | with the right one the payload's size alone decides |
| MavMessages.FrameOfDecode | Tools/mavlink_px4.py:2332-2388 | an accepted frame is, byte for byte, what packing its message writes |
| MavMessages.AcceptedIffPacked | Tools/mavlink_px4.py:2332-2388 | a frame is accepted if and only if packing some message writes it |
| MavTable.CommonTableIsValid | Tools/mavlink_px4.py:2115-2200 | the rows given put every field where its message class packs it and fit a frame |
| MavTable.CommonTableIsBySize | Tools/mavlink_px4.py:2115-2200 | in every row given fields go out by element size, the largest first, and within a size as declared |
| MavFramer.RobustStep | Tools/mavlink_px4.py:2274-2317 | the whole of one call in robust mode: it waits, or takes off one garbage byte or one frame and counts it |
| MavFramer.StrictStep | Tools/mavlink_px4.py:2274-2317 | the whole of one call without robust parsing: garbage is told once and then dropped, and a frame that does not decode raises uncounted |
| MavFramer.StepIsFirstOfScan | Tools/mavlink_px4.py:2274-2317 | in robust mode one call takes off the first message of a scan, or nothing, and keeps expected_length coherent with the buffer |
| MavFramer.DrainIsScan | Tools/mavlink_px4.py:2319-2330 | parse_buffer returns what one scan of everything pending finds, with all counters to match |
| MavFramer.StrictDrain | Tools/mavlink_px4.py:2293-2330 | without robust parsing parse_buffer does the same if all that is found is good; otherwise it ends behind the first bad message, those before it counted but lost, with its error raised unless the garbage was told before |
| MavFramer.ScanAppend | Tools/mavlink_px4.py:2274-2330 | a scan may stop anywhere and go on from its rest |
| MavFramer.ScanConserves | Tools/mavlink_px4.py:2274-2317 | the bytes of the messages, in order, and the rest are the bytes scanned |
| MavSession.ChunkingIsInvisible | Tools/mavlink_px4.py:2319-2330 | on arbitrary bytes, however cut into chunks, messages and final state are those of one call |
| MavSession.TwoCallsAreOne | Tools/mavlink_px4.py:2319-2330 | the same for two pieces, from any state the object's own calls leave |
| MavSession.ByteAtATime | Tools/mavlink_px4.py:2274-2330 | parse_char byte by byte, undrained, gives what one parse_buffer call gives |
| MavSession.RunConserves | Tools/mavlink_px4.py:2267-2330 | over every run of parse_char and parse_buffer calls in any mix, from any state they leave, the messages' bytes and the buffer are all bytes fed, every message is counted once, and with what the buffer still holds the messages are one scan's |
| MavSession.ChunksConserve | Tools/mavlink_px4.py:2319-2330 | the same for runs of parse_buffer, which leave nothing to be found |
| MavSession.NoReadAhead | Tools/mavlink_px4.py:2267-2306 | fed at most bytes_needed() bytes, robust or not, the buffer stays short of expected_length and a completed frame, returned or raised, empties it |
| MavSession.NeverAhead | Tools/mavlink_px4.py:2267-2306 | both hold at every call of such a caller, over whole runs |
| MavSession.AsksForWhatIsMissing | Tools/mavlink_px4.py:2267-2272 | the receiver asks for what its frame lacks, and otherwise for one byte |
| MavSession.FrameInTwoReads | Tools/mavlink_px4.py:2267-2317 | reading as many bytes as asked for gives any frame in two reads, in both modes |
| MavSession.WrittenScans | Tools/mavlink_px4.py:2259-2265 | the bytes written by any sends scan as exactly the messages sent |
| MavSession.SequenceNumbers | Tools/mavlink_px4.py:2259-2265 | the k-th message carries the start number plus k modulo 255, its sender's ids and its own fields as sent |
| MavSession.EndToEnd | Tools/mavlink_px4.py:2259-2388 | whatever is sent and however it is cut up, the receiver gets exactly those messages with their fields, without error, and its totals grow by the sender's |
| MavSession.NoisyScans | Tools/mavlink_px4.py:2274-2330 | frames are found behind any garbage without a marker, each garbage byte one bad-data message |
| MavSession.NoiseIsPassedOver | Tools/mavlink_px4.py:2259-2330 | with such garbage before each frame and behind the last, however cut up, the receiver gets exactly the messages sent and one error per garbage byte |
| MavSession.StrictFrame | Tools/mavlink_px4.py:2300-2316 | without robust parsing, byte by byte, a frame that decodes is returned and counted, and one that does not raises its reason |
| MavSession.StrictPassesNoise | Tools/mavlink_px4.py:2274-2317 | without robust parsing each stretch of garbage raises and is counted once, and every frame sent is returned all the same |
| Mavlink.MAVLink.constructor | Tools/mavlink_px4.py:2231-2252 | a new object has sent and received nothing and expects six bytes |
| Mavlink.MAVLink.SendMessage | Tools/mavlink_px4.py:2259-2265 | writes one frame and advances number and totals; a message that cannot be packed changes nothing |
| Mavlink.MAVLink.BytesNeeded | Tools/mavlink_px4.py:2267-2272 | the deficit, or one if there is none |
| Mavlink.MAVLink.ParseChar | Tools/mavlink_px4.py:2274-2317 | result and new state are the specified step, in both modes |
| Mavlink.MAVLink.ParseBuffer | Tools/mavlink_px4.py:2319-2330 | messages and new state are the specified drain, which terminates; a raise loses the messages collected |
| SdLog.ItemSizes | Tools/sdlog2/sdlog2_dump.py:43-62 | the size of each format character's struct item; no other character is known |
| SdLog.StructSizeAdds | Tools/sdlog2/sdlog2_dump.py:213-222 | sizes of concatenated formats add up, and the first unknown character is the one reported |
| SdLog.LabelCountCounts | Tools/sdlog2/sdlog2_dump.py:212 | labels without commas, joined by commas, count as many as they are |
| SdLog.FilterDecides | Tools/sdlog2/sdlog2_dump.py:164-185 | with names in the filter exactly the data records of those names are shown |
| SdLog.DebugShowsAll | Tools/sdlog2/sdlog2_dump.py:112-117 | for debugging, an empty filter shows every data record |
| SdLog.UnfilteredShows | Tools/sdlog2/sdlog2_dump.py:139-185 | without a filter exactly the data records are shown whose name was taught before the first data record, and those names are what is left as the filter |
| SdLog.StuckForever | Tools/sdlog2/sdlog2_dump.py:233-267 | a record of learned length zero is met again by an unchanged parser |
| SdLog.ZeroLengthRecord | Tools/sdlog2/sdlog2_dump.py:143-155 | meeting a record of learned length zero is endless if and only if it is not shown or its format is empty; otherwise unpacking fails |
| SdLog.PositiveLengthsEnd | Tools/sdlog2/sdlog2_dump.py:127-155 | the inner loop ends if every learned length is at least one |
| SdLog.NothingTaughtNothingStuck | Tools/sdlog2/sdlog2_dump.py:127-155 | a file in which no FORMAT header teaches a length of zero never holds the parser up |
| SdLog.StuckIff | Tools/sdlog2/sdlog2_dump.py:127-155 | the inner loop never ends if and only if, all bytes before being read, it comes to a record of learned length zero that is not shown or has an empty format |
| SdLog.StopsForItsReason | Tools/sdlog2/sdlog2_dump.py:127-155 | the bytes at the offset reported are those that cause the failure reported |
| SdLog.DecidedSteps | Tools/sdlog2/sdlog2_dump.py:127-155 | bytes that arrive later never change a step already decided |
| SdLog.ParseAppend | Tools/sdlog2/sdlog2_dump.py:119-156 | parsing one piece and then its rest with the next is parsing both at once |
| SdLog.BlocksAreInvisible | Tools/sdlog2/sdlog2_dump.py:119-156 | however a file is cut into blocks, records, descriptors, failure and offset are those of a one-shot parse |
| SdLogWriter.EntryIsTaken | src/modules/sdlog2/sdlog2_format.h:69-94 | an encoded record is taken whole, as the record it stands for |
| SdLogWriter.FormatIsTakenIff | Tools/sdlog2/sdlog2_dump.py:202-231 | a FORMAT record is refused exactly for an unknown format character, and for the first |
| SdLogWriter.DataIsTakenIff | Tools/sdlog2/sdlog2_dump.py:233-267 | a data record is refused exactly if shown and not of the described size, or short of labels; or of an untaught type |
| SdLogWriter.WrittenLogIsRead | Tools/sdlog2/sdlog2_dump.py:202-267 | a log that teaches before it uses is read back in full |
| SdLogWriter.DamageStopsStrict | Tools/sdlog2/sdlog2_dump.py:127-133 | without error correction the first damage ends the parse where it begins, all before it read |
| SdLogWriter.UntaughtTypeStops | Tools/sdlog2/sdlog2_dump.py:142-145 | a log that uses a type not taught is read up to there |
| SdLogWriter.GarbageIsSkipped | Tools/sdlog2/sdlog2_dump.py:127-133 | with error correction, garbage without the header pair in front of a record only moves the offset |
| SdLogWriter.DamagedLogRecovered | Tools/sdlog2/sdlog2_dump.py:127-155 | such garbage between and behind the records leaves records and descriptors unchanged |
| SdLogWriter.ZeroLengthLog | Tools/sdlog2/sdlog2_dump.py:127-155 | a log that teaches a zero length and then uses it: endless if and only if the format is empty or the filter leaves the name out |
| SdLogWriter.StickingLog | Tools/sdlog2/sdlog2_dump.py:127-155 | a file of 92 bytes that holds the parser up under all options |
| SdLogParser.SDLog2Parser.ParseMsgDescr | Tools/sdlog2/sdlog2_dump.py:202-231 | learns the descriptor, or fails on an unknown format character |
| SdLogParser.SDLog2Parser.ParseMsg | Tools/sdlog2/sdlog2_dump.py:233-267 | takes the record, or fails on a wrong size or a missing label where the message is shown |
| SdLogParser.SDLog2Parser.ParseBlock | Tools/sdlog2/sdlog2_dump.py:127-155 | the inner loop parses all it can of the buffer |
| SdLogParser.SDLog2Parser.Reset | Tools/sdlog2/sdlog2_dump.py:75-84 | forgets the last file but not the message filter |
| SdLogParser.SDLog2Parser.Process | Tools/sdlog2/sdlog2_dump.py:112-185 | for every block size the result is that of parsing the file at once with the filter earlier runs have left, and the names shown stay behind as the filter |
| FlightPath.NearestIsNearest | integrationtests/demo_tests/flight_path_assertion.py:122-140 | the centre is on the segment and no point of the segment is nearer, in every branch and for a one-point segment |
| FlightPath.PastEndIff | integrationtests/demo_tests/flight_path_assertion.py:122-136 | the end is passed if and only if it is the nearest of all points of the line up to it |
| FlightPath.AdvancesIff | integrationtests/demo_tests/flight_path_assertion.py:181-184 | a segment is left exactly when its end was passed or is nearer than the radius |
| FlightPath.NormComparison | integrationtests/demo_tests/flight_path_assertion.py:176-182 | comparing squares decides what comparing the norms does, for any radius |
| FlightPath.WalkInOrder | integrationtests/demo_tests/flight_path_assertion.py:145-197 | with two positions or more no index is out of range and segments are visited one at a time, each left exactly when done |
| FlightPath.WalkEndsRightly | integrationtests/demo_tests/flight_path_assertion.py:176-189 | a walk leaves the tunnel if and only if its last sample is outside, and finishes if and only if its last sample is inside and done with the last segment |
| FlightPath.StoppedAtEnd | integrationtests/demo_tests/flight_path_assertion.py:151-197 | a walk neither finished nor failed has used up every sample |
| FlightPath.WalkAppend | integrationtests/demo_tests/flight_path_assertion.py:151-197 | a walk over more samples goes on where it stopped; an ended one stays ended |
| FlightPath.NoPositionIff | integrationtests/demo_tests/flight_path_assertion.py:191-197 | a walk gives up exactly at a sample without a position behind ten or more that have not ended it |
| FlightPath.FinishedWalk | integrationtests/demo_tests/flight_path_assertion.py:145-197 | a run ending with no more positions had every sample inside the tunnel of its segment and visited every segment |
| FlightPath.FlightPathAssertion.DistanceToLine | integrationtests/demo_tests/flight_path_assertion.py:122-140 | sets the centre to the nearest point and remembers passing the end |
| FlightPath.FlightPathAssertion.Run | integrationtests/demo_tests/flight_path_assertion.py:145-197 | the loop walks as specified, and fails exactly when the tunnel was left or no position came |
| NodeHandle.PointerIsEarliestMinimum | src/platforms/px4_nodehandle.h:303-309 | after every sequence of subscriptions the pointer is null if there are none, and otherwise the earliest of smallest interval |
| NodeHandle.SpinServes | src/platforms/px4_nodehandle.h:251-266 | a callback runs once, only on news, on the message just stored; all topics are served if and only if the unreached ones have no news |
| NodeHandle.SpinDelivers | src/platforms/px4_nodehandle.h:251-266 | each of the newest 101 inboxes stores its news and calls its callback once with it; all others, and those without news, stay as they were |
| NodeHandle.SubscriberNode.Update | src/platforms/px4_subscriber.h:268-287 | stores the news and calls the callback with it, or does nothing |
| NodeHandle.Handle.Subscribe | src/platforms/px4_nodehandle.h:197-235 | the list grows at its head and the pointer stays right |
| NodeHandle.Handle.SpinOnce | src/platforms/px4_nodehandle.h:251-266 | updates each of the first min(n, 101) nodes once and no other |
| NodeHandle.Handle.Destroy | src/platforms/px4_nodehandle.h:158-173 | deletes each of the first min(n, 101) nodes once |
| FetchFile.SpelledIff | Tools/fetch_file.py:55-60 | the window matches if and only if the text ends with the string and no read in the window was silent |
| FetchFile.FirstOccurrence | Tools/fetch_file.py:50-63 | without silences that is: wherever the text ends with the string |
| FetchFile.SilenceHidesPrompt | Tools/fetch_file.py:55-60 | a prompt with one silent read in it is missed |
| FetchFile.WaitForString | Tools/fetch_file.py:50-63 | stops at the first match; the text consumed is the text returned followed by the string; gives up at the first late read without a match |
| FetchFile.OneEnding | Tools/fetch_file.py:50-63 | a wait completes, gives up or goes on, and at one read only |
| FetchFile.ExecCmd | Tools/fetch_file.py:65-69 | the output is what is read between the first echo and the first prompt after it; the command fails exactly when one of the two waits gives up, and is pending otherwise |
| ParamOrder.LexLeIff | Tools/px4params/srcparser.py:78 | names are compared at the first place where they differ, a prefix coming first |
| ParamOrder.PriorityKeepsNames | Tools/px4params/srcparser.py:79 | the second sort, being stable, leaves names in order within a priority |
| ParamOrder.ArrangeIsListed | Tools/px4params/srcparser.py:73-80 | the two sorts give a permutation by priority descending and then name ascending |
| ParamOrder.ArrangeIgnoresKeyOrder | Tools/px4params/srcparser.py:77-80 | the listing does not depend on the order in which a dictionary gives its keys |
| ParamOrder.FieldCodesListed | Tools/px4params/srcparser.py:40-80 | known field codes come first in their fixed order, all others behind them by name |
| ParamOrder.MiscellaneousIsLast | Tools/px4params/srcparser.py:283-292 | the Miscellaneous group is listed behind all others, which are in name order |
| ParamParser.NeverBroken | Tools/px4params/srcparser.py:129-233 | for every sequence of lines the invalid-state assertion is unreachable and nothing unset is appended to |
| ParamParser.ReadyIffJustEnded | Tools/px4params/srcparser.py:135-187 | a comment is ready for a definition if and only if the line before ended a comment block |
| ParamParser.StateIsReadOff | Tools/px4params/srcparser.py:129-187 | after any lines the parser is inside a comment if and only if some line started one and every later line only continues it, and a comment is ready if and only if the last line ended one |
| ParamParser.TagsOfEndedBlock | Tools/px4params/srcparser.py:156-178 | the tags ready for a definition are exactly those on the lines of the block just ended |
| ParamParser.StoredIff | Tools/px4params/srcparser.py:189-233 | a definition of either kind is stored if and only if its line starts no block, none is open, and none ending before it holds an unknown tag |
| ParamParser.RejectedIff | Tools/px4params/srcparser.py:219-226 | a file is given up if and only if some definition follows a block with an unknown tag |
| ParamParser.UnknownTagIff | Tools/px4params/srcparser.py:110 | the tags known are group, board, min, max, unit and decimal |
| ParamParser.UndocumentedDefinition | Tools/px4params/srcparser.py:189-233 | after any lines that leave no block open and end none, a definition of either kind gets its own name as description, the Miscellaneous group, and the value given or remembered |
| ParamParser.OneLineCommentSwallowsDefinition | Tools/px4params/srcparser.py:135-140 | a comment opened and closed in one line costs the definition in the next |
| ParamParser.TagsAreRead | Tools/px4params/srcparser.py:156-178 | tags of any number of lines are gathered, a repeated tag taking its last text |
| ParamParser.BlockIsRead | Tools/px4params/srcparser.py:135-187 | a written block of short text, long text and tags is read back as meant |
| ParamParser.DocumentedParameter | Tools/px4params/srcparser.py:189-233 | the definition after the block, of either kind, stores the parameter in the block's group with its texts and tags, unless a tag is unknown |
| ParamParser.DocumentedFields | Tools/px4params/srcparser.py:206-231 | the stored parameter field by field: descriptions, every tag but the group, nothing else; last in its group, no other group touched |
| ParamParser.LinesAreJoined | Tools/px4params/srcparser.py:166-178 | a text of several lines is those lines with line breaks between |
| ParamParser.TagMapIs | Tools/px4params/srcparser.py:156-161 | of a repeated tag the last text counts |
| ParamParser.TrimDotsTrims | Tools/px4params/srcparser.py:217 | all dots at the end of the short description go, and nothing else |
| ParamParser.OneLineIs | Tools/px4params/srcparser.py:219 | each run of line breaks in the long description becomes one blank |
| ParamParser.PlainValueIs | Tools/px4params/srcparser.py:207-209 | numbers lose the small letters at their end; other values stay |
| ParamParser.DefaultIsUsed | Tools/px4params/srcparser.py:194-204 | a PX4_PARAM_DEFINE gets the last default remembered for it, whatever stands in between |
| ParamParser.BlankChangesNothing | Tools/px4params/srcparser.py:150-154 | an empty comment line matters only behind the short description |
| ParamParser.TextInLastLine | Tools/px4params/srcparser.py:141-187 | text in the line that ends a block counts like any other |
| ParamParser.SourceParser.Inject | Tools/px4params/srcparser.py:209-228 | the loop over the tags, in any order, gathers the group and the fields, or meets an unknown tag |
| ParamParser.SourceParser.Parse | Tools/px4params/srcparser.py:121-234 | the loop over the lines computes the specified parse and keeps what was stored before an unknown tag |

## Left out

- Loading of the firmware file, identification of the board, port scanning, progress bars: input and output around the upload, which is modelled from its two checks on. What the queries before the erase return is only printed and is not kept; a failure to print it, which the program also passes over, is not modelled.
- `image_size` against the image: the size check uses the file's own property, which the program never compares with the decoded image; the model keeps them apart in the same way.
- Time: the erase deadline is a number of polls, `_wait_for_string`'s a mark on each read.
- `mavutil.x25crc`: not part of this model; the theorems hold for any checksum given by a start value and a step, so no error detection is claimed for it.
- Floats in MAVLink payloads are their 32-bit words; how a language reads and prints them is not modelled.
- MAVLink messages beyond the twelve rows of the table, which would be checked in the same way; the array formats of messages 61 and 63, whose order map does not cover array elements; callbacks; the `_encode` and `_send` wrappers.
- MAVLink chunking outside robust mode: there bytes are dropped and a raise interrupts draining.
- The log parser's default filter is one list shared by all its objects in the program; here each object has its own.
- The remembered default values are one dictionary shared by all source parsers in the program; here each object has its own.
- sdlog2 value scaling, CSV output and option parsing: the model keeps each record's payload, whether it is shown, and the failures unpacking can raise. Names and labels are byte strings, as in Python 2.
- Rounding: the flight path is over exact reals. ROS and Gazebo calls, threads and the indicator are left out; a stop request ends the samples.
- The node handle's publications list, a second copy of the same loop, and `spin()`'s polling; uORB is a topic with or without news; memory after deletion is not modelled, so `NodeHandle.Handle.Destroy` names the nodes deleted.
- Regular expressions: the parameter parser starts from lines already matched. `Validate` compares floating-point texts and is left out, as is the near copy for airframes.
- BoardQueries.InTimeIff: leaves out a silence within a serial number or description whose next two bytes happen to be 0x12 and 0x10; the program then takes the part before the silence for a short answer and those two bytes for its acknowledgement, and asks the next query with the rest still to be heard.

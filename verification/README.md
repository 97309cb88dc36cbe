# Verified model of the NeptuneSDR firmware tools

This project models the parts of the repository that loop, keep state and do
byte-level arithmetic, and proves what they promise:

- **The guest streamer** (`firmware/neptune_fft_streamer.c`): the bitwise CRC-32
  register (`Crc32`), the in-place NSFT packet writer (`Nsft`), the configuration-epoch
  tracker with its bounded capture (`ConfigEpoch`, and by its readings
  `CaptureOutcomes`), the FFT driver composed with the asynchronous accelerator
  (`FftDevice`, and bit by bit `FftRegisters`), the accept, frame and send loops
  (`SocketReplies`, `SocketStream`, `ClientStream`), how they end told by their replies
  alone (`SocketOutcomes`, `SessionOutcomes`), and all composed, from the captured block
  to the bins a client decodes (`EndToEnd`).
- **The `newc` initramfs archive** (`runtime_rootfs.py`): parser and writer (`Newc`,
  `NewcRoundTrip`), its numbers as Python reads them (`Hexadecimal`), exactly which images
  and names are accepted (`NewcAcceptance`) and which bytes are written (`NewcWriting`),
  archives of any spelling and with checksums (`NewcChecked`), the archive with its name
  index (`NewcArchive`), symbolic links (`Symlinks`) and where they lead
  (`SymlinkTargets`), the edits that build the derived test image (`ArchiveEdits`) and
  what it holds (`DerivedContents`), and the largest archive (`FullArchive`).
- **Flattened device trees** (`firmware.py`): tokens and their layout (`FdtTokens`), the
  stack machine and the tree grammar (`FdtTree`), links and reading back (`FdtLinks`),
  paths (`FdtPaths`, `FdtFinding`), the parser over node objects (`Fdt`), tokens by their
  bytes (`FdtBytes`), and whole artifacts for every tree (`FdtBlob`, built from
  `FdtShapes`).
- **Checked containers**: DFU suffix (`DfuSuffix`), uImage (`UImage`), both by their bytes
  (`WrittenContainers`), and what damage the CRCs of a uImage miss (`UImageBursts`); FIT
  validation and extraction (`Fit`, `FitExtraction`), exactly what they report and select
  (`FitReports`, `FitSelection`), packing and extracting again (`FitRoundTrip`); and the
  ELF dynamic table (`Elf32Arm`), with images for any needed names (`ElfImages`).

`ShiftRegister`, `Gf2Polynomial` and `WordBits` are the CRC theory shared by the packet
trailer, the DFU suffix and the uImage checks; `Bytes`, `Text`, `StoredNumbers` and
`Wrappers` are shared helpers; `TextEncoding` and `Names` say what text, digits, names
and magic numbers are. Bytes are integers from 0 to 255; machine words are bit-vectors where the code
shifts and masks them, and integers with explicit wrap-around elsewhere.

Two things in the model come from outside the program. The kernel, the clock and the
network are a finite script of replies of any content; every call takes the next one,
and a run is observed until its script ends, so a statement about every script is a
statement about every moment of every run. The accelerator is a transition system that
follows `docs/P210_FFT_ABI.md`; it may move between any two steps of the driver.

A decision of the program is stated twice: the functions follow the code branch by
branch, and the outcome lemmas (`...Iff`) say when they give which result in terms of
the replies, bytes, nodes and numbers alone.

The proofs turned up six limits of the code. Each has its exact condition and an input
that reaches it:

- An accepted archive cannot always be written again: it can if and only if no field is
  negative (the parser accepts a minus sign), every payload has a 32-bit size, and no
  inode is 2^32-1 (the trailer takes the next number)
  (`NewcArchive.ParsedArchiveNormalises`, `NewcArchive.LargestInodeCannotBeWritten`,
  `NewcArchive.NegativeFieldCannotBeWritten`).
- The derived image can be read again if and only if the source had room for one more
  entry (`ArchiveEdits.DerivedImageReadsBack`); a source of 65535 entries is accepted and
  built with any start script, and the result is refused (`FullArchive.FullSourceExists`).
- `find` of a node's path is that node if and only if it and the nodes above it, below
  the root, have nonempty, slash-free names and are the first of their name among their
  siblings (`FdtPaths.FoundByPathIff`); the parser
  accepts an artifact with a node that its own path does not find
  (`FdtBlob.TwinsAccepted`).
- Epochs wrap: two frames have the same epoch if and only if 2^32 divides the changes
  observed between them (`ConfigEpoch.EpochsOfFrames`), and a run of steady captures
  returns two such frames with different settings (`ConfigEpoch.EpochWraps`).
- A burst of at most 32 bits in the header or payload of a uImage goes unnoticed if and
  only if it runs from the header CRC field into the timestamp and changes the CRC as it
  changes the field (`UImageBursts.DamagedImageAcceptedIff`); every accepted image has
  such a burst
  (`UImageBursts.UndetectedBurst`).
- FIT extraction can store its files and then fail: if and only if the selected device
  tree has boot arguments that are not UTF-8 (`FitExtraction.ExtractFitImage`,
  `FitExtraction.BootargsFailIff`); every hash library has containers for which it does
  (`FitRoundTrip.ErrorAfterStoring`, `FitRoundTrip.ErrorAfterStoringExists`).

`dafny verify dfyconfig.toml` checks everything.

## Model

| member | source | states |
|---|---|---|
| Crc32.Crc32Update | firmware/neptune_fft_streamer.c:143-157 | the loop over bytes and bits computes the register function of the whole input |
| Crc32.UpdateSplits | firmware/neptune_fft_streamer.c:143-157 | updating with a concatenation is updating with the parts in turn, from any register |
| Crc32.UpdateRefines | firmware/neptune_fft_streamer.c:143-157 | the byte-at-a-time register equals a bit-serial shift register fed least significant bit first |
| Gf2Polynomial.DivisionIdentity | firmware/neptune_fft_streamer.c:143-157 | register plus dividend is a multiple of the generator polynomial over GF(2) |
| Gf2Polynomial.RemainderUnique | firmware/neptune_fft_streamer.c:143-157 | a polynomial below degree 32 is the remainder for at most one value |
| Gf2Polynomial.SerialIsRemainder | firmware/neptune_fft_streamer.c:143-157 | the bit-serial register holds the reflected remainder, and only that word does |
| Gf2Polynomial.CrcIsRemainder | firmware/neptune_fft_streamer.c:143-157 | for every length and initial register, a word is the result exactly when its reflection is the remainder of the message polynomial modulo the CRC-32 generator (section 8 of RFC 1952) |
| ShiftRegister.StepInjective | firmware/neptune_fft_streamer.c:151-154 | one bit step never merges two registers |
| ShiftRegister.SerialLinear | firmware/neptune_fft_streamer.c:143-157 | the register is linear in initial state and message together |
| ShiftRegister.PaddedBurstSurvives | firmware/neptune_fft_streamer.c:143-157 | a nonzero burst of at most 32 bits, with any zeros around it, leaves a nonzero register |
| ShiftRegister.BurstSeparates | firmware/neptune_fft_streamer.c:143-157 | equal-length bit strings that differ only inside a window of at most 32 bits give different registers |
| Crc32.BurstDetected | firmware/neptune_fft_streamer.c:143-157 | byte strings of any length that differ only inside 32 consecutive bits, across any byte boundary, have different CRCs |
| Nsft.PutBe32 | firmware/neptune_fft_streamer.c:129-135 | stores the big-endian value directly after the bytes before it and changes nothing else |
| Nsft.PutBe64 | firmware/neptune_fft_streamer.c:137-141 | the same for 64 bits, as two halves |
| Nsft.PutHeader | firmware/neptune_fft_streamer.c:508-524 | the 68 header bytes are exactly the fields in order; nothing past them changes |
| Nsft.PutPayload | firmware/neptune_fft_streamer.c:502-528 | the payload is the encoded powers of this channel's half of the output window, after an unchanged header |
| Nsft.PutTrailer | firmware/neptune_fft_streamer.c:529-531 | the trailer is the complemented CRC of everything before it |
| Nsft.BuildNsftPacket | firmware/neptune_fft_streamer.c:498-533 | exactly the packet's bytes are written, and their count returned |
| Nsft.PacketRoundTrip | firmware/neptune_fft_streamer.c:498-533 | a big-endian decoder recovers every header field and every encoded bin of every packet, and the trailer verifies |
| Nsft.DamagedPacketRejected | firmware/neptune_fft_streamer.c:529-531 | a packet damaged by a burst of at most 32 bits before its trailer fails the trailer check |
| ConfigEpoch.EpochTracker.Observe | firmware/neptune_fft_streamer.c:311-334 | the stored observation becomes the new one, with an epoch that counts the changes observed since start, modulo 2^32 |
| ConfigEpoch.KeptMeaning | firmware/neptune_fft_streamer.c:399-416 | the capture that is kept is the first whose settings did not move, and only if nothing before it failed |
| ConfigEpoch.EpochTracker.CaptureOnce | firmware/neptune_fft_streamer.c:399-414 | one attempt returns exactly when its readings agree around a block, is discarded exactly when they moved, and fails otherwise; the observations grow by the one, the two, or the first reading alone |
| ConfigEpoch.EpochTracker.CaptureFrame | firmware/neptune_fft_streamer.c:395-417 | at most three attempts; a frame has equal readings before and after, the block read between them, and equals the stored observation |
| CaptureOutcomes.AttemptIff | firmware/neptune_fft_streamer.c:399-414 | an attempt is kept exactly when both readings are usable and the same around a block, and discarded exactly when they are usable and differ |
| CaptureOutcomes.CaptureIff | firmware/neptune_fft_streamer.c:395-417 | of three attempts the first steady one is kept, if all before it moved |
| CaptureOutcomes.ChangesAre | firmware/neptune_fft_streamer.c:311-334 | epochs count the observations that differ from the one before them |
| ConfigEpoch.ChangesBetween | firmware/neptune_fft_streamer.c:311-334 | the change count never falls, and stays the same exactly while no observation differs |
| ConfigEpoch.EpochsOfFrames | firmware/neptune_fft_streamer.c:303-334 | two frames of a run have equal epochs exactly when 2^32 divides the changes observed between them; with fewer changes, exactly when there was none, and then their settings agree |
| ConfigEpoch.EpochWraps | firmware/neptune_fft_streamer.c:311-417 | the bound is tight: from the observation at the start on, 2^32 + 1 captured frames whose settings differ from one to the next end with a frame that has the first one's epoch and different settings |
| FftDevice.RequestIsValid | firmware/neptune_fft_streamer.c:441-447 | the driver's descriptor passes every check of the device |
| FftDevice.RunKeeps | firmware/neptune_fft_streamer.c:764-804 | the invariant, with registers partly written and input and output partly transferred, holds at every state of every interleaving of the frame loop and the device |
| FftDevice.NormalReturnIsAnswered | firmware/neptune_fft_streamer.c:464-472 | after a normal return the output window is the transform of the input present at this START, the tag is this request's, and the device is idle |
| FftDevice.NoStaleDone | firmware/neptune_fft_streamer.c:452-462 | a DONE that the poll can see belongs to this request, whose result is complete |
| FftDevice.OnlyTheseFailures | firmware/neptune_fft_streamer.c:464-472 | the result metadata check never fails, and a reported error is never a refusal or a start while busy |
| FftDevice.CapturesNeverRace | firmware/neptune_fft_streamer.c:771-774 | captures happen only while the device is idle, and the input does not change during a request |
| FftDevice.FrameIsTransformed | firmware/neptune_fft_streamer.c:771-775 | what the packets of a frame are built from is the transform of the block that was in the input when its capture ended, with this frame's sequence number |
| FftRegisters.StatusBits | docs/P210_FFT_ABI.md:49 | bit 0 of the status is a request being worked on, bit 1 a finished one, bit 2 an error, and no other bit is set |
| FftRegisters.AcknowledgeBits | docs/P210_FFT_ABI.md:49 | ones written to bits 1 and 2 of the status clear them and change nothing else |
| FftRegisters.StartBit | docs/P210_FFT_ABI.md:48 | bit 0 of the control register starts an idle device and is error 1 for any other |
| FftRegisters.ProgramRequests | firmware/neptune_fft_streamer.c:440-449 | whatever an idle device was left with, the ten writes request two channels of 65536 points between the two windows under this frame's number, and clear stale status |
| FftRegisters.RefusedIff | docs/P210_FFT_ABI.md:111-125 | exactly which descriptors the device works on, in numbers |
| FftRegisters.PollIff | firmware/neptune_fft_streamer.c:451-467 | in any state of the device: what each answer to the poll makes of the driver |
| FftRegisters.ResultIff | firmware/neptune_fft_streamer.c:468-472 | a result with another tag, or of other than 131072 bins, ends the program |
| FftDevice.BlocksCanBeSent | firmware/neptune_fft_streamer.c:764-804 | from every start, some run captures and sends any given blocks, one frame after another |
| SocketReplies.SendFailsForCause | firmware/neptune_fft_streamer.c:583-613 | interrupted calls, full buffers and partial sends alone never make a send fail |
| SocketReplies.SteadyProgressSuffices | firmware/neptune_fft_streamer.c:583-613 | however little each send takes, enough of them before the deadline send everything |
| SocketStream.WaitMilliseconds | firmware/neptune_fft_streamer.c:553-559 | a wait is the time left rounded up to a millisecond, at most what an int holds; only where rounding leaves 64 bits it is zero |
| SocketStream.Socket.WaitWritable | firmware/neptune_fft_streamer.c:535-578 | the wait ends as the script of replies says, sends nothing, and every poll follows a clock reading below the deadline |
| SocketOutcomes.WaitedIff | firmware/neptune_fft_streamer.c:535-578 | a wait succeeds exactly when, after passes in time that report nothing, one finds room, and fails exactly when one is late, an error, out of time or a hangup |
| SocketOutcomes.SentIff | firmware/neptune_fft_streamer.c:580-614 | sending succeeds exactly when sends in time, interrupted, partial or after a wait for room, lead to nothing left, and fails exactly when such sends lead to one that is late, an error, takes nothing, or waits in vain; the replies left are those after the last |
| SocketOutcomes.PeekEnds | firmware/neptune_fft_streamer.c:626-643 | after interruptions, nothing to read or pending data is an open connection, and the end of the stream or an error a closed one |
| SocketStream.TookKeeps | firmware/neptune_fft_streamer.c:592-611 | a partial send of the next bytes keeps the client's stream whole pairs and a prefix |
| SocketStream.BegunStarts | firmware/neptune_fft_streamer.c:771-783 | a frame begun after all earlier ones were sent in full starts a new pair |
| SocketStream.Socket.SendAll | firmware/neptune_fft_streamer.c:580-614 | the loop ends exactly as the script of replies says; success means every byte was taken in order, anything else a proper prefix, and each send follows a clock reading below the deadline |
| SocketStream.Socket.PeerClosed | firmware/neptune_fft_streamer.c:626-643 | peeking sends nothing and answers as the first reply that is not an interruption |
| ClientStream.Streamer.SendPacket | firmware/neptune_fft_streamer.c:777-783 | the packet built for a channel continues the client's stream exactly where it stopped |
| ClientStream.Streamer.SendPair | firmware/neptune_fft_streamer.c:776-790 | both packets in channel order, ending as the script says; the client is left with whole pairs exactly on success |
| ClientStream.Streamer.Acquire | firmware/neptune_fft_streamer.c:772-775 | capture, timestamp, transform and deadline touch no byte of the stream, succeed exactly when the hardware and two clock readings do, and give this frame its data |
| ClientStream.Streamer.DeliverFrame | firmware/neptune_fft_streamer.c:775-790 | the frame is recorded with its number, data and deadline before its first byte is sent |
| ClientStream.Streamer.ServeClient | firmware/neptune_fft_streamer.c:764-804 | exactly one frame per sequence number until a send fails or the peer closes, numbered on from the client before, for every script |
| ClientStream.Streamer.AcceptClient | firmware/neptune_fft_streamer.c:752-807 | a new client is served exactly the frames that its replies and the hardware allow, numbered on from the client before |
| ClientStream.Streamer.Serve | firmware/neptune_fft_streamer.c:745-808 | for every script and all hardware data, the clients accepted, the frames begun for each and the last sequence number are those that the script determines, every frame is made of its own hardware data, and everything recorded about the run is true |
| SessionOutcomes.SessionIff | firmware/neptune_fft_streamer.c:764-804 | a session ends well exactly when, after frames sent in full with the peer found open, one is sent in full and the peer found closed, and fails exactly when after such frames one packet breaks; told by the replies alone |
| SessionOutcomes.SteadyClientGetsAll | firmware/neptune_fft_streamer.c:764-804 | a client that takes any bytes at each send in time, and is never found closed, is sent a frame for everything the hardware supplies |
| SessionOutcomes.ClosedEnds | firmware/neptune_fft_streamer.c:801-803 | a peer that is found closed after its frame gets no further one |
| SessionOutcomes.ServiceGoes | firmware/neptune_fft_streamer.c:745-763 | interrupted accepts and clients that cannot be configured are passed over; the next client is served, and the ones after it follow exactly when its session ends |
| ClientStream.PairAgrees | firmware/neptune_fft_streamer.c:776-784 | both packets of a pair verify and decode to the same sequence, timestamp and epoch, on channels 0 and 1 |
| ClientStream.ClientReceivesPairs | firmware/neptune_fft_streamer.c:764-804 | whatever a client has received is whole pairs of consecutive frames and a prefix of at most one more |
| ClientStream.ClientsShareNoFrame | firmware/neptune_fft_streamer.c:745-808 | frames of an earlier client all come before those of a later one |
| ClientStream.SequencesNeverReused | firmware/neptune_fft_streamer.c:771 | two frames of a run have equal sequence numbers exactly when 2^32 divides their distance; neighbours are consecutive |
| ClientStream.SendsAreTimely | firmware/neptune_fft_streamer.c:586-592 | every send of every run follows a clock reading below its frame's deadline |
| ClientStream.StreamedEpochs | firmware/neptune_fft_streamer.c:771-778 | the epochs of two streamed frames are equal exactly when 2^32 divides the changes observed between their captures |
| EndToEnd.SentBinsAreTransformed | firmware/neptune_fft_streamer.c:764-804 | in every run composed with the accelerator, each bin that a receiver decodes from a frame is the encoded transform of the block read in that frame's kept attempt, under the settings read both before and after it |
| EndToEnd.ComposableIff | firmware/neptune_fft_streamer.c:764-804 | frames come from some run of driver and accelerator exactly when the powers of each are the transform of its block |
| Bytes.Align4IsMask | src/neptunesdr_firmware/runtime_rootfs.py:60-61 | the bits of an aligned offset are those of the offset plus three without the lowest two |
| Hexadecimal.HexRoundTrip | src/neptunesdr_firmware/runtime_rootfs.py:353-369 | digits of any width read back as the value |
| Hexadecimal.SpelledIff | src/neptunesdr_firmware/runtime_rootfs.py:168-174 | a field is a number exactly when it is white space around an optional sign, an optional prefix and groups of digits with single underscores between them, and then has that value |
| TextEncoding.TextIff | src/neptunesdr_firmware/runtime_rootfs.py:198-201 | text is exactly what encodes Unicode scalar values (section 3 of RFC 3629) |
| TextEncoding.SpellingParts | src/neptunesdr_firmware/runtime_rootfs.py:168-174 | the signs and prefixes that a number may have |
| NewcAcceptance.ValidNameIff | src/neptunesdr_firmware/runtime_rootfs.py:241-252 | a name is valid exactly when it is a dot, or one or more parts with slashes between them, each nonempty, not one or two dots, and free of NUL, backslash and slash |
| NewcAcceptance.RootReadsBack | src/neptunesdr_firmware/runtime_rootfs.py:152-252 | an archive that starts with the root directory's record is written and read back |
| NewcAcceptance.RecordIff | src/neptunesdr_firmware/runtime_rootfs.py:162-231 | the parser reads a record exactly where one stands: magic, thirteen numbers, name, data and checksum in their places |
| NewcAcceptance.ImageIff | src/neptunesdr_firmware/runtime_rootfs.py:152-238 | an image is accepted, as these entries, exactly when fewer than 65536 records of valid names and no trailer stand one after another from its start, then the trailer, and then nothing but NUL bytes |
| Newc.ParseEntries | src/neptunesdr_firmware/runtime_rootfs.py:152-238 | the parser's loop, with every error in its order, is the record-scanning function, with Python's numbers, slices and backward offsets |
| NewcChecked.CheckedImageReadBack | src/neptunesdr_firmware/runtime_rootfs.py:152-238 | an archive of plain and checked records in any mixture, however their fields are spelled, parses exactly when its names are readable, there are fewer than 65536 entries and every stored sum is right, and gives the entries back |
| Newc.AppendFields | src/neptunesdr_firmware/runtime_rootfs.py:353-372 | the fields are written in order, and writing fails exactly when one does not fit 32 bits |
| Newc.AppendEntry | src/neptunesdr_firmware/runtime_rootfs.py:352-377 | one record, padded twice to four bytes, is appended to an aligned output |
| Newc.ToBytes | src/neptunesdr_firmware/runtime_rootfs.py:330-349 | the image is the records, the trailer and 512-byte padding; it fails exactly when some value does not fit |
| NewcWriting.ImageStands | src/neptunesdr_firmware/runtime_rootfs.py:330-377 | what is written, byte by byte: every field in eight upper-case digits at its place, names and data padded with zeros, the trailer under the next inode number, and zeros up to the next multiple of 512 |
| NewcRoundTrip.RecordReadBack | src/neptunesdr_firmware/runtime_rootfs.py:162-231 | a written record, anywhere in an image, reads back as its entry, unless its name is too long or not text |
| NewcRoundTrip.ScanOfLayout | src/neptunesdr_firmware/runtime_rootfs.py:156-238 | over records laid out one after another the loop succeeds exactly when all are readable, no sum is wrong and there are fewer than 65536, and returns them in order |
| NewcRoundTrip.ImageReadBack | src/neptunesdr_firmware/runtime_rootfs.py:330-377 | parsing a written image succeeds exactly when every name is readable and there are fewer than 65536 entries, and gives the entries back |
| NewcRoundTrip.ParseGuarantees | src/neptunesdr_firmware/runtime_rootfs.py:152-252 | the fields of everything accepted are below 2^32, its names can be read again, and it leaves room under the entry limit |
| NewcRoundTrip.WritableIff | src/neptunesdr_firmware/runtime_rootfs.py:330-345 | entries can be written exactly when they fit their fields and no inode is 2^32-1 |
| NewcArchive.ConstructedIff | src/neptunesdr_firmware/runtime_rootfs.py:143-149 | construction succeeds exactly on valid, distinct names |
| NewcArchive.IndexAgreesWithScan | src/neptunesdr_firmware/runtime_rootfs.py:147-149 | the name index of every archive agrees with a linear search of its entries |
| NewcArchive.ArchiveRoundTrip | src/neptunesdr_firmware/runtime_rootfs.py:152-238 | parsing what was written gives exactly the archive, under the exact condition for success |
| NewcArchive.ParsedArchiveNormalises | src/neptunesdr_firmware/runtime_rootfs.py:152-252 | an accepted image can be written again exactly when no field is negative, every payload has a 32-bit size and no inode is 2^32-1, and then parses to the same archive |
| NewcArchive.LargestInodeCannotBeWritten | src/neptunesdr_firmware/runtime_rootfs.py:330-345 | a concrete accepted image that cannot be written again, for its inode |
| NewcArchive.NegativeFieldCannotBeWritten | src/neptunesdr_firmware/runtime_rootfs.py:352-372 | another one, for a modification time spelled `-0000001` |
| Symlinks.Follow | src/neptunesdr_firmware/runtime_rootfs.py:276-305 | the loop of 16 lookups with its set of seen names agrees with following links without memory, except that it may report a loop, and then links do lead back to a name already passed |
| Symlinks.Read | src/neptunesdr_firmware/runtime_rootfs.py:276-305 | reading with links followed agrees with resolution, and without is the entry's own data |
| Symlinks.ReadIffChain | src/neptunesdr_firmware/runtime_rootfs.py:276-305 | data is returned exactly when a chain of at most 16 lookups, each link leading to its normalised target, ends at an entry that is not a link |
| SymlinkTargets.LookupIff | src/neptunesdr_firmware/runtime_rootfs.py:254-263 | a path names an entry exactly as it is or after one slash, and nothing or one slash is the root |
| SymlinkTargets.AbsoluteAnywhere | src/neptunesdr_firmware/runtime_rootfs.py:290-304 | an absolute target does not depend on where the link stands |
| SymlinkTargets.NormalTarget | src/neptunesdr_firmware/runtime_rootfs.py:290-304 | an absolute path of normal parts leads to exactly that path |
| SymlinkTargets.RelativeTarget | src/neptunesdr_firmware/runtime_rootfs.py:290-304 | a relative target of a link is that of the absolute path from the link's directory |
| SymlinkTargets.ParentVanishes | src/neptunesdr_firmware/runtime_rootfs.py:295-303 | a name and the two dots after it change nothing, wherever they stand in a target |
| SymlinkTargets.ReadIffLinks | src/neptunesdr_firmware/runtime_rootfs.py:276-305 | reading gives data exactly when at most 16 lookups, each of an entry of the archive whose mode says link and whose text leads on, end at an entry that is no link |
| SymlinkTargets.LinkAcross | src/neptunesdr_firmware/runtime_rootfs.py:276-305 | a link to `../name` is read as the entry `name` next to its directory |
| Symlinks.ReachableCycleFails | src/neptunesdr_firmware/runtime_rootfs.py:281-305 | a cycle reachable from the path always fails |
| Symlinks.TargetIsNormal | src/neptunesdr_firmware/runtime_rootfs.py:290-304 | every link leads to the root or to a name without empty, dot or dot-dot parts |
| Symlinks.ChainStaysInside | src/neptunesdr_firmware/runtime_rootfs.py:276-305 | every name looked up on the way is an entry of the archive, and normalised after the first |
| Symlinks.EscapesIff | src/neptunesdr_firmware/runtime_rootfs.py:295-303 | normalisation fails exactly when some prefix climbs further than it descends |
| Symlinks.NameAndParentCancel | src/neptunesdr_firmware/runtime_rootfs.py:295-303 | a name and the dot-dot after it cancel wherever they stand |
| ArchiveEdits.ReplacedMeaning | src/neptunesdr_firmware/runtime_rootfs.py:314-320 | replacing succeeds exactly for an existing path and changes only that entry's data and mode |
| ArchiveEdits.AddedMeaning | src/neptunesdr_firmware/runtime_rootfs.py:322-328 | adding succeeds exactly for a valid new name, and appends |
| ArchiveEdits.EditsCommute | src/neptunesdr_firmware/runtime_rootfs.py:314-328 | adding one name and replacing another give the same archive in either order, success included |
| ArchiveEdits.BuildFftImageIff | src/neptunesdr_firmware/runtime_rootfs.py:1239-1267 | the derived image is built exactly when the executable passes, the source parses, `init` exists, no streamer entry does, no source field is negative and no kept payload too large, and two inode numbers and both sizes fit |
| ArchiveEdits.DerivedImageReadsBack | src/neptunesdr_firmware/runtime_rootfs.py:1247-1267 | reading the derived image gives the source entries in order with only `init`'s data and mode changed, and one more with a fresh inode; it can be read exactly when the source had room for one more entry |
| DerivedContents.ExecutableBits | src/neptunesdr_firmware/runtime_rootfs.py:1261-1266 | the start script's mode has bits 6, 3 and 0 set and every other bit kept |
| DerivedContents.DerivedImageHolds | src/neptunesdr_firmware/runtime_rootfs.py:1249-1267 | what is read back, in literal terms: the source's entries with only the start script changed, and the program with its name, mode 0755, owner, link count and the next inode number |
| DerivedContents.TakenIff | src/neptunesdr_firmware/runtime_rootfs.py:1239-1245 | an executable is taken exactly when it loads, byte 39 is 5, its hard-float bit is set and its soft-float bit is not, it has no interpreter, and it needs no names |
| DerivedContents.NeedingRefused | src/neptunesdr_firmware/runtime_rootfs.py:1244-1245 | an executable that needs any library is refused as not static |
| FullArchive.FullSourceGivesUnreadableImage | src/neptunesdr_firmware/runtime_rootfs.py:1239-1267 | a source of 65535 distinct entries parses, the test image is built from it with any start script that fits, and that image is refused |
| FullArchive.FullSourceExists | src/neptunesdr_firmware/runtime_rootfs.py:1239-1267 | there is such a source |
| Elf32Arm.Load | src/neptunesdr_firmware/runtime_rootfs.py:395-416 | the header loop, with every error, is the loading function; accepted headers lie inside the data |
| ElfImages.LoadedIff | src/neptunesdr_firmware/runtime_rootfs.py:395-416 | exactly which files are accepted, and as what, with every field at its offset |
| ElfImages.AbiIs | src/neptunesdr_firmware/runtime_rootfs.py:418-432 | the ABI version is byte 39 of the file, and hard floats are bits 10 and 9 of the flags |
| ElfImages.NeededIff | src/neptunesdr_firmware/runtime_rootfs.py:458-492 | these names are needed exactly when the segments and the dynamic table give them: the converse of `NeededMeaning` too |
| ElfImages.AnyNamesNeeded | src/neptunesdr_firmware/runtime_rootfs.py:395-492 | for every list of NUL-free text names there is an accepted image that needs exactly these, in this order |
| Elf32Arm.MappedIff | src/neptunesdr_firmware/runtime_rootfs.py:449-456 | an address range maps exactly when some PT_LOAD segment holds it in its file part, to the first such segment |
| Elf32Arm.ScanTable | src/neptunesdr_firmware/runtime_rootfs.py:468-482 | the loop over the dynamic table collects the needed offsets before the first DT_NULL and the last string table entries |
| Elf32Arm.Needed | src/neptunesdr_firmware/runtime_rootfs.py:458-492 | the property, with every error, is the specified one |
| Elf32Arm.NeededMeaning | src/neptunesdr_firmware/runtime_rootfs.py:458-492 | for every accepted image: no names without a dynamic segment; otherwise, in order, the terminated strings named by the DT_NEEDED entries in a table wholly inside the file part of the first PT_LOAD segment that holds it (chapter 5 of the System V gABI) |
| Elf32Arm.ValuesMeaning | src/neptunesdr_firmware/runtime_rootfs.py:468-482 | exactly the entries of a tag are listed, in table order |
| FdtTokens.ValuesAreSlices | src/neptunesdr_firmware/firmware.py:176-185 | every property value is a slice of the structure block |
| FdtBytes.TokenIff | src/neptunesdr_firmware/firmware.py:153-191 | exactly which token is read at a position and where the next one starts, by the bytes that stand there |
| FdtBytes.OutsideIff | src/neptunesdr_firmware/firmware.py:174-175 | a property is an error before the first node opens, and nothing else differs there |
| FdtBytes.SampleParses | src/neptunesdr_firmware/firmware.py:104-194 | 102 literal bytes are accepted, as a root with one property and one child |
| FdtTokens.BlockReadBack | src/neptunesdr_firmware/firmware.py:145-194 | tokens written in the layout of section 5.4 of the Devicetree Specification v0.4, with any valid string offsets, read back exactly |
| FdtTree.AssignStores | src/neptunesdr_firmware/firmware.py:184 | storing a property keeps every other one in place; a known name keeps its place, a new one goes last, and the name now has the value |
| FdtTree.ItemsAreBuilt | src/neptunesdr_firmware/firmware.py:151-186 | what is read inside an open node is built under it, in order, and the node stays open |
| FdtTree.DocumentIsBuilt | src/neptunesdr_firmware/firmware.py:145-194 | every flattened tree, with padding around it, builds exactly its records and leaves no node open |
| FdtTree.ItemsBeforeEnd | src/neptunesdr_firmware/firmware.py:170-173 | tokens that close the open node begin with a sequence of complete items |
| FdtTree.BuiltIsDocument | src/neptunesdr_firmware/firmware.py:145-194 | every token sequence the machine accepts is one flattened tree with padding around it |
| FdtLinks.StepKeepsLinks | src/neptunesdr_firmware/firmware.py:151-191 | after every token parent and child links agree and the stack is the chain of parents from the root to the open node |
| FdtLinks.LayoutReadsBack | src/neptunesdr_firmware/firmware.py:51-54 | a built tree reads back as its meaning, and walking it visits every node exactly once, in order of creation |
| FdtLinks.MeaningIsExact | src/neptunesdr_firmware/firmware.py:184 | with distinct property names a tree means exactly what was written, in order |
| FdtPaths.PathOfPlainNames | src/neptunesdr_firmware/firmware.py:41-46 | with plain names from a node up, the parts of its path are the names from the root |
| FdtPaths.FoundByPathIff | src/neptunesdr_firmware/firmware.py:132-140 | `find` of a node's path is that node exactly when it and every node above it, below the root, has a plain name and is the first of that name among its siblings |
| FdtPaths.FindInvertsPathIff | src/neptunesdr_firmware/firmware.py:132-140 | it is so for every node exactly when names below the root are nonempty, slash-free and unique among siblings |
| FdtPaths.PathsDiffer | src/neptunesdr_firmware/firmware.py:41-54 | then different nodes have different paths |
| FdtFinding.FindStep | src/neptunesdr_firmware/firmware.py:132-140 | one more name in a path leads to the first child of that name |
| FdtFinding.SlashesIgnored | src/neptunesdr_firmware/firmware.py:132-140 | slashes before, after and next to others make no difference, and the empty path is the root |
| FdtBlob.TwinsAccepted | src/neptunesdr_firmware/firmware.py:132-140 | the parser accepts an artifact with two siblings of one name, and `find` of the second one's path is the first |
| Fdt.ParseIff | src/neptunesdr_firmware/firmware.py:145-194 | the loop succeeds exactly when its tokens can be read and build a closed root, and returns what they build |
| Fdt.AcceptedIsDocument | src/neptunesdr_firmware/firmware.py:145-194 | whatever is accepted is one balanced root, and the result is the tree its tokens denote |
| Fdt.BeginNode | src/neptunesdr_firmware/firmware.py:153-169 | a new node object, linked both ways with the open node, or an error for a second root |
| Fdt.SetProperty | src/neptunesdr_firmware/firmware.py:183-184 | only the open node's dictionary changes |
| Fdt.ParseStructure | src/neptunesdr_firmware/firmware.py:145-194 | the loop over node objects returns exactly the specified result, its objects mirroring the records at every pass |
| Fdt.MirroredLinksAgree | src/neptunesdr_firmware/firmware.py:34-39 | in the object graph every child names its parent, every parent lists its child, and only the root has none |
| Fdt.Find | src/neptunesdr_firmware/firmware.py:132-140 | following child objects finds the node that the path names |
| Fdt.Path | src/neptunesdr_firmware/firmware.py:41-46 | climbing parent objects gives the path of the node's record |
| Fdt.WalkFrom | src/neptunesdr_firmware/firmware.py:51-54 | following child objects visits the objects of the record walk, in its order |
| Fdt.Load | src/neptunesdr_firmware/firmware.py:104-130 | header checks, blocks, trailer and tree are as specified, with the checks in order |
| Fdt.HeaderAcceptedIff | src/neptunesdr_firmware/firmware.py:104-126 | exactly which headers are accepted: the magic, a total size within the artifact, and both blocks within the total size |
| Fdt.TrailerAppended | src/neptunesdr_firmware/firmware.py:121-124 | bytes after an accepted artifact are added to its trailer, and header and nodes stay the same |
| Fdt.OnlyBlocksMatter | src/neptunesdr_firmware/firmware.py:121-130 | acceptance and nodes depend on the header and the two blocks alone |
| Fdt.AcceptedMeaning | src/neptunesdr_firmware/firmware.py:104-130 | every accepted artifact holds one balanced root, and its nodes are that tree, linked and walked once each |
| Fdt.TreeRoundTrip | src/neptunesdr_firmware/firmware.py:145-194 | every tree, written with any padding between tokens and any string layout, is parsed back to exactly that tree |
| FdtBlob.ArtifactParses | src/neptunesdr_firmware/firmware.py:104-194 | every tree of NUL-free text names whose artifact fits 32-bit sizes, written out with header, strings and offsets, is accepted and read back as that tree |
| FdtBlob.AcceptedNormalises | src/neptunesdr_firmware/firmware.py:104-194 | every accepted artifact, written again from its tokens, parses to the same records, unless it no longer fits 32-bit sizes |
| WrittenContainers.SuffixReadIff | src/neptunesdr_firmware/firmware.py:281-294 | exactly what is read from an artifact's last sixteen bytes: each number at its offset, the signature, the length and the CRC |
| WrittenContainers.SuffixRoundTrip | src/neptunesdr_firmware/firmware.py:281-294 | any contents with any device, product, vendor and version numbers in the suffix are accepted and read back as these |
| DfuSuffix.AcceptedIffResidueZero | src/neptunesdr_firmware/firmware.py:281-294 | the suffix check passes exactly when the raw register over the whole file, stored CRC included, ends at zero (Appendix B of the USB DFU 1.1 specification) |
| DfuSuffix.AppendedCrcAccepted | src/neptunesdr_firmware/firmware.py:281-294 | four bytes appended to a file that ends in suffix fields are accepted exactly when they are the little-endian complement of its CRC |
| DfuSuffix.DamagedArtifactRejected | src/neptunesdr_firmware/firmware.py:281-294 | a burst of at most 32 bits anywhere in an accepted file, stored CRC included, is rejected |
| WrittenContainers.ImageReadIff | src/neptunesdr_firmware/firmware.py:233-263 | exactly what is read from an image: each header field at its offset, the name, the payload, the trailer, and both CRCs |
| WrittenContainers.ImageRoundTrip | src/neptunesdr_firmware/firmware.py:233-263 | any header, payload and trailer are written as an image that is accepted and read back as these |
| UImage.DamagedHeaderFails | src/neptunesdr_firmware/firmware.py:257-261 | a burst of at most 32 bits in the header, inside bytes 4 to 7 or clear of them, fails the header check, although those bytes are blanked |
| UImage.DamagedImageRejected | src/neptunesdr_firmware/firmware.py:233-263 | a burst of at most 32 bits that changes anything in header or payload, across their edges too, makes every accepted image fail, unless it runs out of the CRC field into the timestamp |
| UImage.TrailerIsFree | src/neptunesdr_firmware/firmware.py:250-263 | whatever follows the payload, an image with the same header and payload is accepted |
| UImageBursts.PassesIff | src/neptunesdr_firmware/firmware.py:257-261 | whether a damaged header still passes depends on the damage alone: exactly when its CRC, started at zero and with the field blanked, equals its field |
| UImageBursts.DamagedImageAcceptedIff | src/neptunesdr_firmware/firmware.py:233-263 | exactly which bursts of at most 32 bits, anywhere in the file, an accepted image survives |
| UImageBursts.UndetectedBurst | src/neptunesdr_firmware/firmware.py:233-263 | every accepted image has another accepted one within a burst of 31 bits |
| Fit.NoProblemIff | src/neptunesdr_firmware/firmware.py:504-555 | a hash node passes exactly when it names a fixed-length algorithm whose digest of the payload is its value |
| Fit.CheckImageHashes | src/neptunesdr_firmware/firmware.py:504-555 | the hash loop reports exactly the specified issues, in order |
| Fit.CheckAllImages | src/neptunesdr_firmware/firmware.py:490-555 | the image loop reports exactly the specified issues, or stops at undecodable text |
| Fit.ImagesSoundIff | src/neptunesdr_firmware/firmware.py:490-555 | no error is reported exactly when every image has inline data and all its hashes hold |
| FitReports.HashNameIff | src/neptunesdr_firmware/firmware.py:505 | a hash node is one named `hash`, or `hash@` and anything: what stands before the first `@` is `hash` |
| FitReports.WrongHashRefused | src/neptunesdr_firmware/firmware.py:504-555 | a hash node of either name that does not hold makes the report incompatible, and nothing is extracted |
| FitReports.OthersIgnored | src/neptunesdr_firmware/firmware.py:505-506 | children of any other name have no influence on the report |
| FitReports.WrongIff | src/neptunesdr_firmware/firmware.py:508-555 | which problem of a hash node is reported |
| FitReports.ReportIs | src/neptunesdr_firmware/firmware.py:489-555 | the report goes through the images in order: missing data, or one error for every wrong hash in the order of the children |
| FitReports.TrailerAgainstIff | src/neptunesdr_firmware/firmware.py:461-483 | what follows the tree speaks against it exactly when it is a legacy line that is not the tree's MD5 in either case, or looks like a DFU suffix and is none |
| FitReports.ImagesGarbledIff | src/neptunesdr_firmware/firmware.py:496-497 | validation stops exactly at an image with data whose type or compression is not UTF-8 |
| FitExtraction.ValidateFitImage | src/neptunesdr_firmware/firmware.py:450-558 | the report is the specified one, structure, trailer and layout included |
| FitExtraction.CompatibleIff | src/neptunesdr_firmware/firmware.py:450-558 | an artifact is compatible exactly when its tree parses, its trailer is not wrong and every hash of every image is right |
| FitExtraction.ExtractionIsHashSound | src/neptunesdr_firmware/boot_harness.py:250-300 | whatever is extracted is the inline data of the image its configuration names, of the required type and compression, in a tree all of whose hashes hold; the configuration is the one asked for, the default, or the first |
| FitSelection.StringOfIff | src/neptunesdr_firmware/firmware.py:56-67 | a property reads as the text before its first NUL, if the whole value is UTF-8 |
| FitSelection.YieldsIff | src/neptunesdr_firmware/boot_harness.py:278-300 | a configuration yields these outputs exactly when its references name first children that carry them, of the required types and compressions |
| FitSelection.ExtractedIff | src/neptunesdr_firmware/boot_harness.py:250-300 | exactly what is extracted: the outputs that the configuration asked for, or else the default or first one, yields in a container whose trailer and hashes hold |
| FitSelection.BootargsIff | src/neptunesdr_firmware/boot_harness.py:219-223 | the boot arguments are the text of `/chosen`'s `bootargs`, and none if there is no such node or property or only the empty text |
| FitExtraction.ExtractFitImage | src/neptunesdr_firmware/boot_harness.py:250-327 | validate, select, store: an error found before storing leaves every file alone; otherwise the files hold exactly the inline data of images whose hashes all hold, as the configuration names them, every other file is untouched, and only boot arguments that are not text still make it fail |
| FitExtraction.BootargsFailIff | src/neptunesdr_firmware/boot_harness.py:219-223 | the boot arguments cannot be read exactly when the device tree has a `/chosen` node whose `bootargs` value is not UTF-8 |
| FitRoundTrip.PackedImagesExtracted | src/neptunesdr_firmware/boot_harness.py:250-300 | any kernel, device tree and ramdisk, or none, packed with their digests under any configuration name, are extracted as they are, exactly when the device tree parses and a gzip ramdisk has its magic |
| FitRoundTrip.BootArgumentsRead | src/neptunesdr_firmware/boot_harness.py:219-223 | the boot arguments of a written device tree are its text up to the first NUL, none if that is empty, and an error exactly when they are not UTF-8 |
| FitRoundTrip.ErrorAfterStoring | src/neptunesdr_firmware/boot_harness.py:303-327 | for every hash library, a container with a device tree whose boot arguments are not text is extracted and stored and then reported as failed |
| FitRoundTrip.ErrorAfterStoringExists | src/neptunesdr_firmware/boot_harness.py:303-327 | every library with an algorithm of ordinary digests has such a container |
| Names.FitNames | src/neptunesdr_firmware/firmware.py:489-513 | node and property names of a container, as text |
| Names.ArchiveNames | src/neptunesdr_firmware/runtime_rootfs.py:41-43 | the magics, the trailer and the start script of archives, as text |

## Left out

- `encode_log_power` (`firmware/neptune_fft_streamer.c:475-496`) is an arbitrary function from 32-bit powers to 16-bit codes: its floating point is not modelled. The transform of the accelerator is arbitrary too.
- System calls, sysfs text and file descriptors: `read_uint_relative`, `capture_iio_block`, `map_hardware` and the listener setup appear only through what they return. `Attempt` holds one block as a single step of the environment; its read loop is not modelled.
- ConfigEpoch.EpochTracker.CaptureFrame: every fatal outcome is one value; which message is printed is not modelled. The `configure_wideband` observation at start is one call of `Observe`.
- FftDevice.NormalReturnIsAnswered: safety only. That a device answers at all, and within the polling deadline, is not claimed; `SOFT_RESET`, interrupts and the 64-bit counters of the device are unused by the driver and left out.
- SocketStream.Socket.SendAll: scripts are finite, so an endless run is covered by its finite observations. Bytes accepted by the socket are counted as sent; delivery is any prefix of them.
- ClientStream.Streamer.Serve: the pacing sleep, `shutdown`, `close` and log output have no effect on the model.
- Archives after `_bounded_gunzip` only: gzip is outside the model, and images are the inflated ones. Names are UTF-8 byte strings; text that only Python can hold, such as lone surrogates, is left out.
- ArchiveEdits.BuildFftImageIff: the start script is a parameter, because it is a constant of the program; the sibling builders that only replace `init` are instances of `ReplacedMeaning`.
- `linux_abi_floor` and `interpreter` text of ELF files: field reads that the dynamic table does not need.
- FdtTokens.BlockReadBack: the reservation block and header fields other than offsets and sizes are free, because the parser ignores them.
- Fit.NoProblemIff: hash and MD5 libraries are parameters of any behaviour; the facts and messages of a report are left out, its issues are kept.
- FitRoundTrip.PackedImagesExtracted: configuration names of ASCII without NUL, and containers below 4 GiB; the algorithm is a nonempty ASCII name, the only kind that validation takes.
- FitExtraction.ExtractFitImage: the hashes of the returned record, failures of the file system and the size limit on files read from disk are left out; default boot arguments appear as none.
- Kernel, root filesystem and device-tree audits, the XSA, interface, lock, manifest and provenance modules, and the process runner: field-by-field checks and plumbing that would add only easy members.

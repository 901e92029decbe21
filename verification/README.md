# MeshRMM, modelled in Dafny

MeshRMM is remote monitoring and management: an Agent on each computer, a viewer
for remote sessions, a server and a dashboard. This project models the parts of
it whose correctness is not visible in any one function, and proves what they
promise. `dafny verify dfyconfig.toml` checks everything.

| files | what they model |
|---|---|
| `Fips180`, `PrimeRoots`, `Sha256` | the dashboard's incremental SHA-256, proved against FIPS 180-4 stated on whole values, with its constants derived from the primes |
| `AnnexB`, `Rbsp`, `Avcc` | splitting video byte streams into NAL units, and removing emulation prevention |
| `BitReader`, `BitWriter`, `ParameterSets`, `SpsSyntax`, `AvcEscapes`, `DecoderConfig` | reading AVC and HEVC parameter sets, proved against printers written from the standards, and the records made of them, proved against a reader of ISO/IEC 14496-15 |
| `Ebml`, `Matroska`, `Playback` | the Matroska writer, proved against an independent reader by RFC 8794 and RFC 9559 |
| `Recording`, `Recorder` | splitting a recording into parts, and queueing frames for its writer |
| `Postcard`, `Clipboard` | sending a clipboard in chunks and putting it together again |
| `WakeUp`, `AsyncLog` | the wake-up protocol and the log with loss accounting, as interleaved steps |
| `Session`, `UpdatePolicy`, `Updater` | the viewer's retry loop, the update schedule, and replacing the Agent's executable |
| `Targets`, `Audit`, `AuditPages` | what two database queries mean |
| `VideoLayout` | where the video appears, and how the pointer maps |
| `Bytes`, `Strings` | bytes, big-endian numbers and byte order |

Code that computes a value is a function with lemmas about it. Code that updates
state is a class or a method with its loop, proved against a function or stated
outright; what the source promises is then proved about that function. Protocols
between threads are state machines whose events may come in any order; a
lemma over every list of events is then about every run. What a file system, a
clock, a network or a user does is a parameter or a nondeterministic choice.

Modelling decisions:

- SHA-256 words are 32-bit vectors. The source adds doubles and truncates with
  `| 0`; sums of five 32-bit numbers are exact in a double, so this is addition
  modulo 2^32.
- A parse of bits is a function from the bits left to a value and the bits left
  after it; the methods on `Bits` are proved against these.
- In `AsyncLog` a producer that finds the queue full counts its record in a
  separate step, so the counter can be taken in between. A failed write may
  leave any number of whole entries in the file.
- In `WakeUp` the shutdown flag is a generation above zero, so both waits are
  one protocol. `Notify` is the set of waiters registered since the last
  notification.
- In `Matroska` and `Recording` a disk is the number of bytes after which
  writing fails, the number of files that can be begun and whether the last one
  syncs. A recording stops at its first error, so this covers any one.
- In `Recorder` an event is one hold of the lock. `toggle` and `take_notice`
  take it several times, so a start may replace another's session.
- In `Updater` a rename or a removal happens or leaves the files as they were.
- In `Session` a turn of the loop is what the world does in it: the frames
  shown, the error, the answer to resuming and how the wait ended.
- A table is a sequence of rows; SQL is filtering, grouping, counting, sorting
  and limiting, and a comparison with NULL holds for no row.

The list of AVC profiles that get chroma fields in their record
(remote/src/matroska.rs:138) has 144 where section 7.3.2.1.1 of H.264 has 244, so
the record of a High 4:4:4 Predictive stream comes without them
(`DecoderConfig.ListsDiffer`, `DecoderConfig.AvcConfigRead`).

Three promises hold only under a condition, which is proved to be exact:

- `codec_private` unescapes an AVC parameter set from its fifth byte as if no
  zero byte came before. For any ID and the two bytes before it, every set is
  read right if and only if those zero bytes and the ID's code do not make an
  emulation prevention byte that it cannot see (`AvcEscapes.ReadRightExactly`).
  `AvcEscapes.HighIdMisread` is a stream whose record is wrong. This takes an ID
  of 63 or more, and H.264 allows 0 to 31: every set within the standard is read
  right, whatever its level byte (`AvcEscapes.LegalAvcRoundTrip`).
- The SQL form of an "all tags" target counts rows against the length of the
  list, so it disagrees with `covers` exactly for a repeated tag on a device
  that has all the tags. `from_request` removes repeats
  (`Targets.ConditionVersusCovers`, `Targets.RepeatedTagDisagrees`).
- The audit filter's documentation speaks of a prefix. On SQLite, LIKE ignores
  the case of ASCII letters, so the events found are exactly those whose action
  starts with the prefix if and only if the prefix has no such letter; on
  Postgres they always are (`Audit.PrefixFoundExactly`, `Audit.SqliteIgnoresCase`).

## Model

| member | source | states |
|---|---|---|
| `Sha256.HashPieces` | dashboard/lib/sha256.ts:24-56 | for every message under 2^53 bytes and every cutting of it into pieces, empty ones included, feeding the pieces in turn gives the message digest of FIPS 180-4 in lowercase hexadecimal, so the result never depends on the cutting |
| `Sha256.OfBlob` | dashboard/lib/sha256.ts:117-126 | hashing a file 4 MiB at a time gives the digest of the whole file |
| `PrimeRoots.ConstantsAreCubeRoots` | dashboard/lib/sha256.ts:4-13 | every round constant is the first 32 bits of the fractional part of the cube root of its prime, the t-th of all primes |
| `PrimeRoots.InitialAreSquareRoots` | dashboard/lib/sha256.ts:16-18 | the initial hash value is the same of the square roots of the first eight primes |
| `PrimeRoots.NextPrime` | dashboard/lib/sha256.ts:4-13 | what the sieve leaves between one prime and the next is counted right |
| `Fips180.Chooses` | dashboard/lib/sha256.ts:79 | at any bit positions the choice function takes the second word where the first has ones and the third where it has zeros |
| `Fips180.Majority` | dashboard/lib/sha256.ts:81 | at any bit positions where two words agree the majority function is what they have |
| `Sha256.Hasher.constructor` | dashboard/lib/sha256.ts:16-22 | a new hash has been fed nothing, and its state is the initial hash value |
| `Sha256.Hasher.Update` | dashboard/lib/sha256.ts:24-42 | the state afterwards is decided only by all bytes fed so far: whole blocks hashed, the rest buffered |
| `Sha256.Hasher.TopUp` | dashboard/lib/sha256.ts:27-35 | fills the unfinished block from the piece; hashes it exactly when it becomes full, and otherwise has taken the whole piece |
| `Sha256.Hasher.TakeBlocks` | dashboard/lib/sha256.ts:36-41 | hashes every whole block left in the piece and buffers what is left over |
| `Sha256.Hasher.Hex` | dashboard/lib/sha256.ts:45-56 | returns the digest of everything fed, padded by section 5.1.1 of FIPS 180-4 |
| `Sha256.Hasher.PaddingTail` | dashboard/lib/sha256.ts:46-51 | the bytes fed plus the tail are exactly the padded message, on both sides of the 56-byte boundary |
| `Sha256.BuildTail` | dashboard/lib/sha256.ts:46-51 | the tail is a 0x80 byte, zeros and the bit length as one 64-bit big-endian number, although written as two 32-bit halves |
| `Sha256.Hasher.Compress` | dashboard/lib/sha256.ts:60-108 | compressing a block-aligned range, with one reused word array and the state in locals, is the hash of those blocks one after the other |
| `Sha256.Hasher.CompressBlock` | dashboard/lib/sha256.ts:64-99 | one turn of the outer loop is the single-block computation of section 6.2.2 of FIPS 180-4 |
| `Sha256.LoadWords` | dashboard/lib/sha256.ts:65-68 | the first sixteen words are the first sixteen of the message schedule |
| `Sha256.ExtendWords` | dashboard/lib/sha256.ts:69-75 | extending the words in place gives the whole message schedule |
| `Sha256.RunRounds` | dashboard/lib/sha256.ts:76-90 | the rotating locals after 64 turns are the working variables of the standard after 64 rounds |
| `Sha256.ShiftsAreRotations` | dashboard/lib/sha256.ts:72-80 | each shift-or-xor expression is the sigma function of the standard on all 32-bit words |
| `Sha256.JoinedIsBlockWord` | dashboard/lib/sha256.ts:67 | shifting and or-ing four bytes gives the big-endian word of the block |
| `Sha256.ExtendedIsScheduleWord` | dashboard/lib/sha256.ts:70-74 | the extension expression is the schedule word of the standard |
| `Sha256.StepIsRound` | dashboard/lib/sha256.ts:78-81 | the two temporaries are T1 and T2 of the standard |
| `Sha256.WordHexIsText` | dashboard/lib/sha256.ts:55 | the shortest hexadecimal form padded to eight digits is the fixed-width form of the word |
| `Sha256.PaddedIsFixed` | dashboard/lib/sha256.ts:55 | the same for every number and width it fits |
| `Sha256.StateHexIsHexadecimal` | dashboard/lib/sha256.ts:55 | joining the eight words in order gives the digest text |
| `Fips180.HashBlocksConcat` | dashboard/lib/sha256.ts:60-108 | hashing blocks in two goes is hashing them in one |
| `Fips180.BigEndianHalves` | dashboard/lib/sha256.ts:50-51 | a 64-bit big-endian number is its two 32-bit halves in turn |
| `Fips180.ZeroCountIsLeast` | dashboard/lib/sha256.ts:47 | the number of zero bytes is the smallest that fills the last block |
| `Fips180.FixedHexInjective` | dashboard/lib/sha256.ts:55 | different numbers have different texts |
| `Fips180.FixedHexRead` | dashboard/lib/sha256.ts:55 | the hexadecimal text of a number reads as that number |
| `AnnexB.FindStarts` | remote/src/h264.rs:53-66 | the scan finds the start codes from left to right without overlap, preferring the four-byte form |
| `AnnexB.CollectUnits` | remote/src/h264.rs:68-81 | cutting at the starts and trimming gives the units between them, empty ones left out |
| `AnnexB.TrimEnd` | remote/src/h264.rs:76-78 | trailing zero bytes, and only those, are trimmed |
| `AnnexB.AnnexBUnits` | remote/src/h264.rs:52-82 | the two passes together give the units of the stream |
| `AnnexB.UnitsWellFormed` | remote/src/h264.rs:52-82 | for every byte stream: no unit is empty, ends in a zero byte or holds a start code |
| `AnnexB.UnitsOfFramed` | remote/src/h264.rs:52-82 | units framed with any mix of three- and four-byte start codes and any extra zero bytes are read back exactly |
| `Avcc.ToLengthPrefixed` | remote/src/h264.rs:18-50 | fails exactly when there is no unit or one is too long; otherwise a reader of 32-bit lengths recovers exactly the units, and the parameter sets are the last of each kind |
| `Avcc.FindSets` | remote/src/h264.rs:32-41 | the parameter sets kept are the last units of their kinds |
| `Avcc.LastIsLast` | remote/src/h264.rs:36-41 | no later unit is of the kind |
| `Avcc.PrefixedUnlessLong` | remote/src/h264.rs:29-31 | prefixing fails exactly when some unit has 2^32 bytes or more |
| `Rbsp.RemoveEmulationPrevention` | remote/src/matroska.rs:234-246 | the loop drops exactly the 3 bytes that follow two zero bytes |
| `Rbsp.UnescapeOfEscape` | remote/src/matroska.rs:234-246 | removing emulation prevention bytes undoes adding them, for every payload |
| `Rbsp.EscapeIsClean` | remote/src/matroska.rs:234-246 | an escaped payload holds no two zero bytes followed by 0, 1 or 2 |
| `Rbsp.NalWellFormed` | remote/src/h264.rs:52-82 | a header and an escaped payload make a unit the byte stream can carry |
| `Rbsp.StreamRoundTrip` | remote/src/h264.rs:52-82 | every list of payloads, escaped, given headers and framed in any way Annex B allows, comes back as exactly those units, none holding a start code, and each payload unescapes to the original |
| `BitReader.Bits.constructor` | remote/src/matroska.rs:234-246 | the reader stands at the first bit of the unescaped payload |
| `BitReader.Bits.Read` | remote/src/matroska.rs:247-259 | returns the next bits as a number modulo 2^32 and moves past them, or fails without moving |
| `BitReader.Bits.ReadUe` | remote/src/matroska.rs:260-267 | reads one Exp-Golomb code and moves past it; the value is at most 2^32 - 2, so nothing overflows |
| `BitReader.SuffixFits` | remote/src/matroska.rs:266 | with at most 31 leading zeros the sum stays within 2^32 - 2 |
| `BitReader.BitsOfPack` | remote/src/matroska.rs:254-255 | reading bits out of packed bytes gives the bits back |
| `BitWriter.TakeFixed` | remote/src/matroska.rs:247-259 | a fixed-width number is read back, whatever follows it |
| `BitWriter.UeOfGolomb` | remote/src/matroska.rs:260-267 | every Exp-Golomb code up to 2^32 - 2 is read back exactly, and every longer one is refused |
| `ParameterSets.CodecPrivate` | remote/src/matroska.rs:110-227 | the loops and early returns compute the record that the round trips below are about |
| `ParameterSets.AvcPrivate` | remote/src/matroska.rs:128-158 | the AVC branch, its errors included |
| `ParameterSets.HevcPrivate` | remote/src/matroska.rs:159-225 | the HEVC branch, its errors included |
| `ParameterSets.ParameterIsFirst` | remote/src/matroska.rs:112-121 | the unit used is the first of the kind asked for |
| `ParameterSets.Parameter` | remote/src/matroska.rs:112-121 | there is a unit of the kind asked for unless it reports that there is none |
| `ParameterSets.ReadTier` | remote/src/matroska.rs:165-191 | skips sub-layer flags, alignment pairs and sub-layer fields as the bit-level description says, failing where it fails |
| `ParameterSets.ReadChroma` | remote/src/matroska.rs:192-197 | reads the chroma format and refuses one above 3 |
| `ParameterSets.ReadDepths` | remote/src/matroska.rs:205-207 | reads both bit depths and refuses one above 7 |
| `ParameterSets.ReadHevcDepths` | remote/src/matroska.rs:192-207 | skips the dimensions and any conformance window in between |
| `ParameterSets.PrivateLength` | remote/src/matroska.rs:110-227 | a record never has more than 2^18 bytes |
| `DecoderConfig.PrivateRead` | remote/src/matroska.rs:110-227 | for every keyframe accepted, a reader of the decoder configuration records of ISO/IEC 14496-15 finds the first parameter sets of each kind, the profile and level bytes, and the chroma format, depths, layers and nesting those sets say |
| `DecoderConfig.AvcConfigRead` | remote/src/matroska.rs:128-158 | the AVC record for any two sets, profiles without chroma fields included: exactly when there is one, and all a reader finds in it |
| `DecoderConfig.HevcConfigRead` | remote/src/matroska.rs:159-225 | the HEVC record for any three sets: exactly when there is one, and all a reader finds in it |
| `DecoderConfig.HevcSetRead` | remote/src/matroska.rs:159-225 | from any Annex B stream carrying an escaped HEVC parameter set, a reader of the record finds exactly the fields printed |
| `DecoderConfig.AvcSetRead` | remote/src/matroska.rs:128-158 | the same for AVC, unless an emulation prevention byte is hidden |
| `DecoderConfig.KindIsUnitType` | remote/src/matroska.rs:116-119 | the kind looked for is the unit type field of the header, for either codec |
| `DecoderConfig.ListsDiffer` | remote/src/matroska.rs:136-139 | the profiles listed are those of H.264 except that 144 stands where the standard has 244 |
| `SpsSyntax.HevcRead` | remote/src/matroska.rs:159-207 | an HEVC parameter set printed by section 7.3.2.2.1 of H.265, with any sub-layers and window, is read back exactly, and refused exactly when a field is out of range |
| `SpsSyntax.AvcRead` | remote/src/matroska.rs:140-149 | the same for the fields of a high-profile AVC parameter set, section 7.3.2.1.1 of H.264 |
| `SpsSyntax.HevcRoundTrip` | remote/src/matroska.rs:110-227 | from any Annex B stream carrying an escaped HEVC parameter set, there is a record exactly when the fields are in range and the sets short enough, and it is the one for those fields |
| `AvcEscapes.AvcRoundTrip` | remote/src/matroska.rs:110-227 | from any Annex B stream carrying an escaped high-profile AVC parameter set, whatever its level byte, the record holds exactly its fields or fails exactly when it must, unless an emulation prevention byte is hidden before or inside its ID |
| `AvcEscapes.LegalAvcRoundTrip` | remote/src/matroska.rs:110-227 | so for every ID that H.264 allows, 0 to 31 |
| `AvcEscapes.ReadRightExactly` | remote/src/matroska.rs:140-149 | for every ID and the two bytes before it: all parameter sets with them are read right if and only if no emulation prevention byte is hidden, that is unless both bytes are zero and the ID is 63 or more, or only the level byte is and the ID is 16383 or more |
| `AvcEscapes.AvcRecordExactly` | remote/src/matroska.rs:128-158 | the record is the right one if and only if the fields are read right, or a unit is missing or too long |
| `AvcEscapes.AvcRecordSeen` | remote/src/matroska.rs:128-158 | the record is made of what is read in place of the fields |
| `AvcEscapes.HiddenMisread` | remote/src/matroska.rs:140-149 | when it is hidden, of the two smallest sets with one ID and chroma formats 0 and 1 at least one is misread, whatever follows |
| `AvcEscapes.SkippedHead` | remote/src/matroska.rs:140 | on bytes: unescaping from the fifth byte gives the fields back if and only if no emulation prevention byte depends on the zero bytes before |
| `AvcEscapes.HidesIsStraddles` | remote/src/matroska.rs:140 | and the ID alone decides whether one does |
| `AvcEscapes.HighIdMisread` | remote/src/matroska.rs:110-227 | a stream with a parameter set of ID 129 for which the record gives bit depths of 11 and 9 instead of 9 and 8 |
| `Ebml.SizeRead` | remote/src/matroska.rs:19-24 | every size written is read back, and never as the reserved unknown size |
| `Ebml.IdIsVint` | remote/src/matroska.rs:13-18 | every element ID used is written in as many bytes as its first byte announces |
| `Ebml.ElementRead` | remote/src/matroska.rs:12-27 | an element is read back exactly, whatever follows it |
| `Ebml.TruncatedElement` | remote/src/matroska.rs:12-27 | an element cut short anywhere leaves nothing to read |
| `Ebml.ItemsRead` | remote/src/matroska.rs:12-35 | of elements in a row, followed by a truncated one or by nothing, exactly the complete ones are read |
| `Matroska.Open` | remote/src/matroska.rs:38-90 | writes the header, the segment of unknown size, the info and the track, or as many bytes of them as the file takes; fails exactly when there is no codec record or no room |
| `Matroska.Writer.Frame` | remote/src/matroska.rs:92-107 | appends one complete cluster, or as many bytes of it as the file takes; appends nothing for a frame without units or with one too long |
| `Matroska.PrefixUnits` | remote/src/matroska.rs:96-99 | each unit after its 32-bit length, or an error for one too long |
| `Matroska.PrefixedLength` | remote/src/matroska.rs:96-99 | prefixing at most doubles the frame, because every start code it replaces had three bytes |
| `Playback.ClusterRead` | remote/src/matroska.rs:92-107 | a reader that takes the time unit from the Info element and the track number from the track entry recovers the frame time in nanoseconds, the keyframe flag and the units in order |
| `Playback.ShownWithinMillisecond` | remote/src/matroska.rs:102 | that time is zero for a frame not after the first and otherwise the last whole millisecond not after its capture |
| `Playback.PreambleRead` | remote/src/matroska.rs:54-84 | the Info element gives a unit of one millisecond, and the track is number 1, the number the blocks carry |
| `Playback.HeaderReadable` | remote/src/matroska.rs:40-50 | the header names Matroska and versions and limits a reader accepts |
| `Playback.TrackRead` | remote/src/matroska.rs:63-84 | a reader recovers the codec name as RFC 9559 spells it, the codec record and the picture size |
| `Playback.PlayedBack` | remote/src/matroska.rs:37-108 | every run of `new` and `frame` calls plays back exactly the frames written |
| `Playback.PlayedUntilCut` | remote/src/matroska.rs:100-104 | a file cut anywhere inside cluster k + 1 plays back exactly the first k frames |
| `Playback.CutHeadPlaysNothing` | remote/src/matroska.rs:38-90 | a file cut anywhere before its first cluster shows nothing |
| `Playback.PlayedWithTail` | remote/src/matroska.rs:100-104 | bytes at the end that are no complete element change nothing |
| `Recording.WriteRecording` | remote/src/recording.rs:220-253 | wherever writing fails: succeeds exactly when every frame can be written, every file begun and the last one synced; the files are then exactly the parts, and otherwise play back as exactly the frames before the first that could not be written, with at most one more file that shows nothing |
| `Recording.NewPart` | remote/src/recording.rs:231-246 | a new part starts with the keyframe that opened it, or the file left of it shows nothing |
| `Recording.SamePart` | remote/src/recording.rs:244-246 | a frame of the same stream extends the open part by its cluster, or what is written of it changes nothing the part shows |
| `Recording.FitPrefix` | remote/src/recording.rs:226-247 | frames added later never make room |
| `Recording.PartsValid` | remote/src/recording.rs:226-247 | every part starts with a keyframe, has one stream and differs in stream from the next |
| `Recording.PartsHoldKept` | remote/src/recording.rs:226-247 | the parts together hold exactly the frames received, in order, minus the non-keyframes of another stream than the current part |
| `Recording.PartsBegin` | remote/src/recording.rs:227-242 | there is one part for each keyframe of another stream than the one before, with that frame first and in the format it came in |
| `Recording.PartsPlay` | remote/src/recording.rs:220-253 | every finished file plays back as exactly the frames of its part |
| `Recorder.RunsAreSafe` | remote/src/recording.rs:50-140 | in every interleaving of lock holds and writer threads, several toggles at once included, each writer has seen a gap-free prefix of the frames received while its recording was active |
| `Recorder.NothingRefused` | remote/src/recording.rs:205-217 | from its start until it is stopped or replaced, a recording has received exactly the frames that came and refuses none as long as the writer runs and is fewer than eight behind, so the writer sees them all in turn |
| `Recorder.StepRefusesNothing` | remote/src/recording.rs:205-217 | the same for every single step |
| `Recorder.StepSafe` | remote/src/recording.rs:205-217 | every single step keeps that |
| `Recorder.EndedHoldsAll` | remote/src/recording.rs:205-217 | in every run, a recording collected after its writer came to the end of the queue, and that refused no frame, holds every frame it received, and its parts the kept ones |
| `Recorder.EndedIsCollected` | remote/src/recording.rs:62-72 | as long as a stopped recording's writer has ended, looking for a notice collects one such and loses no other |
| `Recorder.WriterSawPrefix` | remote/src/recording.rs:205-253 | the parts written are the kept frames of a prefix of what was received |
| `Recorder.Recorder.ReceiveFrame` | remote/src/recording.rs:205-217 | the queueing step: never waits, and never queues again after a frame was refused |
| `Recorder.Recorder.ToggleRecording` | remote/src/recording.rs:76-89 | stops an active recording or starts one, and asks for a keyframe of the stream shown only when it started |
| `Recorder.Recorder.StartRecording` | remote/src/recording.rs:117-126 | the new session takes the place of any other, whose writer goes on |
| `Recorder.Recorder.StopRecording` | remote/src/recording.rs:130-140 | closes the queue and leaves the session to finish |
| `Recorder.Recorder.LookForNotice` | remote/src/recording.rs:50-74 | stops a recording whose writer has ended and collects the first finished one |
| `Postcard.VarintRead` | agent/protocol/src/control.rs:796-798 | every number within a reader's width is read back from its varint, whatever follows |
| `Postcard.U32Read` | agent/protocol/src/control.rs:796-798 | for 32-bit numbers |
| `Postcard.UsizeRead` | agent/protocol/src/control.rs:796-798 | for 64-bit lengths |
| `Postcard.VarintExamples` | agent/protocol/src/control.rs:796-798 | the bytes of 1280, 720 and 43 as the source gives them |
| `Postcard.PrefixedRead` | agent/protocol/src/clipboard.rs:49-64 | a byte string after its length is read back, whatever follows |
| `Clipboard.EncodeDecode` | agent/protocol/src/clipboard.rs:49-64 | decoding undoes encoding for every valid content, within the wire limit |
| `Clipboard.DecodedIsValid` | agent/protocol/src/clipboard.rs:55-64 | whatever is decoded, from any bytes, is valid and well typed |
| `Clipboard.ValidImage` | agent/protocol/src/clipboard.rs:30-47 | an image is valid exactly when it has pixels, four bytes for each and at most 32 MiB |
| `Clipboard.ChunksAreFull` | agent/protocol/src/clipboard.rs:65-83 | every chunk but the last has 60 KiB, and each says its offset and the total |
| `Clipboard.InvalidIsNotSent` | agent/protocol/src/clipboard.rs:65-83 | messages are refused exactly for invalid content |
| `Clipboard.Receiver.Receive` | agent/protocol/src/clipboard.rs:91-139 | the new state and the outcome of every message, errors included |
| `Clipboard.DeliveredFromAnyState` | agent/protocol/src/clipboard.rs:65-139 | from any receiver state, all messages of a valid content yield nothing until the last, then exactly that content, and leave the receiver empty |
| `Clipboard.ChunksReceived` | agent/protocol/src/clipboard.rs:91-139 | the same for the chunks still to come once the earlier ones are held |
| `Clipboard.AlwaysBounded` | agent/protocol/src/clipboard.rs:91-139 | under any messages the receiver is empty or holds fewer bytes than an announced total within the wire limit |
| `Clipboard.HoldsOneTransfer` | agent/protocol/src/clipboard.rs:91-139 | what it holds is always one unfinished transfer: chunks that follow one another from offset zero |
| `Clipboard.OthersDoNotDisturb` | agent/protocol/src/clipboard.rs:137-138 | messages that are none of the clipboard's, wherever they come, leave a transfer as it is |
| `Clipboard.DeliveriesAreWhole` | agent/protocol/src/clipboard.rs:91-139 | under any messages a delivery is valid, and is one short text or the decoded bytes of a single transfer |
| `WakeUp.NoLostWakeUp` | remote/src/reconnect.rs:248-280 | for any number of waiters and requesters in any interleaving: once every request has notified, no waiter whose condition holds is asleep |
| `WakeUp.StepKeepsInv` | remote/src/reconnect.rs:258-280 | every step keeps the invariant behind it |
| `WakeUp.ReturnsAfterLaterRequest` | remote/src/reconnect.rs:264-280 | `wait_for_retry_after(g)` returns only after a request later than the reading of `g` |
| `WakeUp.ShutdownReturnsAfterRequest` | remote/src/shutdown.rs:17-51 | waiting for shutdown returns only after a request |
| `WakeUp.ShutdownMetExactly` | remote/src/shutdown.rs:24-51 | in every run a waiter for shutdown has something to return for exactly once a request came, before its call or after |
| `WakeUp.ShutdownReturnsAtOnce` | remote/src/shutdown.rs:38-48 | a wait begun after a request returns at its first check, whatever others do meanwhile |
| `WakeUp.RetryMetExactly` | remote/src/reconnect.rs:264-280 | a waiter for a retry has exactly once a request came after its reading |
| `WakeUp.BoundedSteps` | remote/src/shutdown.rs:40-51 | a waiter whose condition holds takes at most three more steps of its own, whatever the others do |
| `WakeUp.NeverStuck` | remote/src/reconnect.rs:269-280 | until it has returned it can take one of them, or a request has yet to notify and any such notification lets it |
| `AsyncLog.RunsBalance` | agent/src/logging.rs:172-265 | in every interleaving no record vanishes uncounted: produced is at most written, reported, counted and queued together, with equality unless a failed write left part of itself |
| `AsyncLog.StepBalanced` | agent/src/logging.rs:172-265 | every step keeps the balance |
| `AsyncLog.FlushCovers` | agent/src/logging.rs:46-79 | once a flush is answered, every record queued before it was written or given up, and all that were given up are in a count |
| `AsyncLog.RunsCountLosses` | agent/src/logging.rs:172-207 | in every run the losses reported in the file, being reported or yet to be are at least the records given up |
| `AsyncLog.FittingIsQueued` | agent/src/logging.rs:253-265 | in every run a record of a fitting size made while fewer than 1024 messages wait is queued behind the others |
| `AsyncLog.WritableIsWritten` | agent/src/logging.rs:173-217 | if the log is open, or due and can be opened, the next record is written |
| `AsyncLog.HeadIsAnswered` | agent/src/logging.rs:51-53 | a flush request at the head of the queue is answered |
| `AsyncLog.DelayDoubles` | agent/src/logging.rs:219-222 | the delay is a tenth of a second doubled with each failure, up to half a minute |
| `AsyncLog.StepOrderly` | agent/src/logging.rs:46-56 | the writer finishes messages in queue order and answers a flush only in its turn |
| `AsyncLog.ReopenedOnlyWhenDue` | agent/src/logging.rs:209-222 | in every run the log is opened again only a full backed-off delay after the latest failure |
| `AsyncLog.LogWriter.Write` | agent/src/logging.rs:173-207 | the whole new state of the writer, for every outcome of opening and writing |
| `AsyncLog.WriteIsSteps` | agent/src/logging.rs:173-207 | which is the step that begins a write followed by the one that ends it, in every state of the log |
| `AsyncLog.LogWriter.ReopenIfDue` | agent/src/logging.rs:210-217 | opens a closed log only when due, and backs off if that fails |
| `AsyncLog.LogWriter.BackOff` | agent/src/logging.rs:219-222 | the next attempt is one delay away and the delay doubles up to its limit |
| `AsyncLog.RecordBuffer.Write` | agent/src/logging.rs:240-248 | holds everything written to it, or is oversized exactly because that is more than 64 KiB; always reports all bytes taken |
| `Updater.Machine.InstallUpdate` | agent/src/updater.rs:233-271 | the service is stopped first; whichever operations fail, after every one of them the executable installed at the start is at the target or the backup path until the new service was seen to start; a failed update ends with a start attempt; what it reports of stopping and restoring was tried and went so, and if every stop and restore tried since the start worked, the old executable is back |
| `Updater.Machine.UpdateStopped` | agent/src/updater.rs:247-270 | the same from the stopped service on; an update that succeeds made the new executable runnable, started it and then removed the backup |
| `Updater.Machine.ReplaceExecutable` | agent/src/updater.rs:275-298 | installs the staged executable keeping the old one as backup; a failed install was followed by an attempt to put the old one back, which its failure reports |
| `Updater.Machine.RollBack` | agent/src/updater.rs:257-270 | stops the new service, then puts the old executable back, then starts the service, reporting how that went |
| `Updater.WorkedMeansUndone` | agent/src/updater.rs:262-269 | if every stop and restore worked, the failure was undone |
| `Updater.Machine.RestoreBackup` | agent/src/updater.rs:300-313 | puts the kept executable back, or changes nothing |
| `Updater.Machine.RestartInstalled` | agent/src/updater.rs:318-332 | ends a failed update with a start attempt and loses nothing |
| `Updater.Machine.RemoveIfPresent` | agent/src/updater.rs:460-468 | removes at most the one path |
| `Session.RunSession` | remote/src/main.rs:236-336 | for any errors, timings, frames and restarts: without a frame shown at most three attempts; after one never a stop for the startup cap; retrying stops only for that cap or an error that cannot be helped, and no attempt follows such an error, a stop or a refused resume; every turn before the last was one to go on after and the last ended as the exit says; each attempt uses the credentials in force, the waits follow the schedule, and every exit after authorization asks once, last of all, for the release of the lease unless resuming was refused |
| `Session.Attempts` | remote/src/main.rs:257-336 | the same for the loop once there is a session |
| `Session.LiveThrough` | remote/src/transport.rs:46-64 | what an attempt leaves in the state: its first frame, and the restart that explains a disconnect |
| `Session.TakeTurn` | remote/src/main.rs:263-335 | how one turn of the loop ends, which credentials follow, how long it waits, and the reason and start of the outage the window then shows |
| `Session.TurnLawful` | remote/src/reconnect.rs:34-66 | the decision after a failure keeps the promises above |
| `Session.DispositionMeans` | remote/src/reconnect.rs:34-66 | retrying ends exactly for an error that cannot be helped, or before the first frame at three failures or sixty seconds |
| `Session.ScheduleReconnect` | remote/src/main.rs:340-370 | the delay is the next on the schedule, started over only after a stable connection; the window counts from the first failure in a row and gives a restart as the reason if there is one |
| `Session.ApplyResumed` | remote/src/main.rs:374-407 | new credentials, the old ones or the end, and the reason changes only outside a restart |
| `Session.Backoff.DelayFor` | crates/signaling-client/src/lib.rs:46-65 | a delay on the doubling schedule, which only an attempt that streamed for twenty seconds starts over |
| `Session.DelaysGrow` | crates/signaling-client/src/lib.rs:46-50 | delays never shrink while attempts fail and stay within the limits |
| `Session.DelaysDouble` | crates/signaling-client/src/lib.rs:46-50 | each delay is the first doubled with every failure in a row, up to the limit |
| `Session.ResumeState.BeginAttempt` | remote/src/reconnect.rs:290-293 | forgets the previous attempt's first frame and nothing else |
| `Session.ResumeState.ObservePresentation` | remote/src/transport.rs:46-64 | the first frame of an attempt, and only that, ends the reconnect and any restart |
| `Session.ResumeState.RecordFailure` | remote/src/transport.rs:183-196 | the time without a display counts from the first failure in a row |
| `Session.ResumeState.Streaming` | remote/src/transport.rs:288-296 | idle time counts exactly while the display is up |
| `UpdatePolicy.UpdateSchedule.Due` | agent/src/update_policy.rs:35-61 | whether a call checks, and the schedule afterwards |
| `UpdatePolicy.ChecksAreApart` | agent/src/update_policy.rs:20-62 | two update checks of a run are at least six hours apart |
| `UpdatePolicy.CheckRunsInTime` | agent/src/update_policy.rs:20-62 | polled at gaps of at most d, a check runs within 24 h + 5 min + 2d of falling due, however sessions last or flap |
| `UpdatePolicy.SessionsAreSpared` | agent/src/update_policy.rs:39-51 | a check during a session comes at least 24 hours after a poll in a session that put it off, with no check in between |
| `UpdatePolicy.IdlePollsCheck` | agent/src/update_policy.rs:35-61 | without a session a poll checks exactly when the check is due |
| `UpdatePolicy.AttemptsLimited` | agent/src/update_policy.rs:73-96 | for one release and a clock that does not go back, any half-open 24 hours hold at most five grants |
| `UpdatePolicy.WindowsLimited` | agent/src/update_policy.rs:73-96 | and any one window at most three |
| `UpdatePolicy.RefusedExactlyWhenUsedUp` | agent/src/update_policy.rs:73-96 | in every run of requests for a release, one more is refused exactly when the last three grants were of one window whose first came within 24 hours; otherwise exactly one grant is added |
| `UpdatePolicy.GrantedAgain` | agent/src/update_policy.rs:73-96 | a window starts afresh with one attempt exactly when 24 hours have passed since the current one began |
| `UpdatePolicy.FiveFit` | agent/src/update_policy.rs:73-96 | a run with five grants in one span of 24 hours, so the bound cannot be lowered |
| `Targets.FromRequest` | server/src/targets.rs:123-162 | accepts exactly well-formed non-empty choices; the target has the chosen IDs, each once |
| `Targets.ParseIds` | server/src/targets.rs:124-131 | refuses exactly a malformed ID; otherwise the same IDs, ascending and without repeats |
| `Targets.SortDedup` | server/src/targets.rs:128-129 | ascending, without repeats, and with the same elements |
| `Targets.RequestedTargetsAgree` | server/src/targets.rs:208-239 | for every target without repeated IDs and every table of distinct device-tag pairs, a row satisfies the SQL condition exactly when the target covers its device |
| `Targets.ConditionVersusCovers` | server/src/targets.rs:208-239 | for every target whatever, they agree if and only if it is not an "all tags" target with a repeated tag on a device that has all its tags |
| `Targets.AllAgrees` | server/src/targets.rs:355-367 | the same for the grouped and counted subquery |
| `Targets.AnyAgrees` | server/src/targets.rs:355-367 | without the count they always agree |
| `Targets.CountIsMatched` | server/src/targets.rs:361-365 | the count of a device's group is the number of wanted tags it has |
| `Targets.RepeatedTagDisagrees` | server/src/targets.rs:361-365 | a list that repeats a tag misses a device that has it |
| `Audit.PagesAreTheListing` | server/src/audit.rs:277-354 | paging to the end with any limit of at least 1 gives exactly the one unlimited listing as of the first request, even if newer events are added in between |
| `Audit.PagingEnds` | server/src/audit.rs:277-354 | the number of pages: a short page comes exactly when the pages reach past the end of the listing |
| `Audit.PagesInOrder` | server/src/audit.rs:326-334 | whatever happens to the table between requests, the pages together are newest first, repeat nothing and hold only matching events |
| `Audit.NothingMissed` | server/src/audit.rs:326-334 | whatever else happens, an event there at every request is returned |
| `Audit.NothingInvented` | server/src/audit.rs:277-354 | every event returned was in the table at some request |
| `Audit.List` | server/src/audit.rs:277-335 | exactly the newest matching events up to the limit, newest first |
| `Audit.Conditions` | server/src/audit.rs:302-334 | the conditions added to the query ask together for exactly the events of the filter |
| `Audit.PageUnique` | server/src/audit.rs:277-335 | that description fixes the page |
| `Audit.LimitedIsPage` | server/src/audit.rs:298-300 | a page is the start of the full listing |
| `Audit.LikeIsPrefix` | server/src/audit.rs:312-321 | for every prefix, wildcards and escapes in it included, the pattern matches exactly the texts that start with it as the database compares characters |
| `Audit.EscapedStep` | server/src/audit.rs:313-317 | the three replacements escape every character exactly once |
| `Audit.PrefixFoundExactly` | server/src/audit.rs:312-321 | a prefix filter finds exactly the actions that start with the prefix on Postgres, and on SQLite if and only if the prefix has no ASCII letter |
| `Audit.SqliteIgnoresCase` | server/src/audit.rs:312-321 | one event and one filter for which the page on SQLite has it and the page on Postgres does not |
| `AuditPages.AuditPage` | server/src/api/audit_log.rs:48-90 | the page asked for, refused exactly for a malformed cursor or half a target; a cursor exactly when the page is full, and handing it back asks for what follows the last row |
| `AuditPages.CursorRead` | server/src/api/audit_log.rs:55-64 | every cursor is read back, whatever its ID holds |
| `AuditPages.QueryMeans` | server/src/api/audit_log.rs:55-80 | a query is refused for nothing but an unreadable cursor or half a target, and asks for events that match each of its fields |
| `AuditPages.CursorNeedsColon` | server/src/api/audit_log.rs:58-62 | text without a colon is no cursor |
| `AuditPages.PageLimit` | server/src/api/audit_log.rs:54 | the limit asked for if it is between 1 and 200, fifty if there is none, and always within those bounds |
| `VideoLayout.LetterboxFits` | remote/src/video_layout.rs:26-45 | for every area and video size: inside the area, centred to within a pixel, filling the tighter axis, the other side within half a pixel of the exact ratio unless raised to 1, every product within 64 bits |
| `VideoLayout.LetterboxInside` | remote/src/video_layout.rs:26-45 | in an area of at least one pixel the edges lie within the area's and fit 32 bits |
| `VideoLayout.ExactFit` | remote/src/video_layout.rs:26-45 | a video of the area's own shape fills it |
| `VideoLayout.Scaled` | remote/src/video_layout.rs:32-36 | rounds to the nearest whole number with no result outside 64 bits |
| `VideoLayout.AxisMonotone` | remote/src/video_layout.rs:58-67 | pointer mapping never turns back |
| `VideoLayout.AxisEnds` | remote/src/video_layout.rs:58-67 | an axis of at least two pixels reaches 0 and 65535 |
| `VideoLayout.AxisInjective` | remote/src/video_layout.rs:58-67 | different pixels go to different positions if and only if the axis has at most 65536 |
| `VideoLayout.ClampedIsNearest` | remote/src/video_layout.rs:49-67 | the clamped form is the plain form at the nearest pixel; the plain form refuses exactly the points outside |
| `VideoLayout.PointerOnLetterbox` | remote/src/video_layout.rs:26-67 | on the rectangle drawn, corners go to corners and pixels stay apart |
| `VideoLayout.FitShrinks` | remote/src/video_layout.rs:71-93 | the size fits the space, is never larger than the video and is the video's own exactly when that fits |

## Left out

- `Sha256.Hasher.Hex`: messages of 2^53 bytes or more, beyond what the source's length can hold.
- `Sha256.OfBlob`: progress reports and cancelling.
- `Matroska.Writer.Frame`: frames of more than 2^48 bytes.
- `Recording.WriteRecording`: file names.
- `Recorder.RunsAreSafe`: the waiting of `finish` for its time limit; what it collects is a step.
- `Recorder.Recorder.ToggleRecording`: the folders and the thread a start creates; whether it works is a parameter.
- `AsyncLog.FlushCovers`: the retries and the time limit of `flush` itself; the request is a step that succeeds or not.
- `AsyncLog.RunsBalance`: wrap-around of the 64-bit counter.
- `WakeUp.NoLostWakeUp`: wrap-around of the 64-bit generation, and a waiter dropped in the middle of a wait.
- `Updater.Machine.InstallUpdate`: downloading, signatures, process handles and the polling inside stopping and starting.
- `Session.RunSession`: what happens inside one attempt (signaling, WebRTC, decoding), the request for a new session, and how long a release may take.
- `Session.ResumeState.Streaming`: the idle timer that uses it.
- `Targets.FromRequest`: error texts, and looking up whether the chosen IDs exist.
- `Audit.List`: the columns neither a filter nor the order looks at, and their mapping to the response.
- `AuditPages.AuditPage`: authorization and the parsing of the query string.
- Notices, log lines and other texts shown to users.
- Windows security descriptors, the registry, services, the tray and named kernel objects: calls into code that is not in the repository.
- HTTP handlers, email, TLS, TURN and encryption on the server: plumbing over libraries.
- Input, shortcuts, annotations, stream resets and session messages: small tables that would only add easy members.
- The React dashboard besides hashing.

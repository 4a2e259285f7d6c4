# A verified model of the vcap reference verifier

The reference verifier under `tools/src` decides whether a received photo or video is
what a device sealed. This project models the parts that decision rests on and proves
what they promise.

- **Clip binding.** Sample tables are read into access units, GOPs, audio assignments
  and timing values (`SampleTables`, `Nal`, `Gops`), converted with exact rational
  arithmetic (`Timing`), bound to a signed hash chain (`Segments`, `Binding`) and judged
  (`Verdict`). `ChunkPlacement` and `GopMeaning` say where every sample lies and what a
  GOP is read as; `VerdictExact` says, for every proof and every reading, which outcome,
  which segments and which labels. `ClipSoundness` shows that *verified clip* means an
  ordered selection of the sealed segments, byte for byte, instant for instant and
  untrimmed; `ClipCut`, `Rescaling` and `ClipCompleteness` show that an honest cut gets
  that verdict, from the sample tables up and in any multiple of the signed timescales;
  `OriginalTiming` says what the original's own timing check means and that the sealed
  file itself is *authentic*; `ByteAccounting` and `ByteFates` say what becomes of every
  byte.
- **Cut files.** `Remux`, `TableBytes` and `RemuxWriter` show that the writer of cut files
  writes what its plan says; `BoxWalk`, `EditLists` and `RemuxWalk` walk the bytes written,
  box by box, down to its tables and its edit list; `RemuxCut`, `WrittenEdits` and
  `RemuxReads` join the two ends: what a re-mux of whole GOPs wrote is read back, and the
  verdict over it is *verified clip*.
- **Merkle log.** The level-by-level builder and the iterative inclusion check against
  the recursive definitions of RFC 6962 (`Merkle`), and their two users (`Registry`).
- **JSON and JCS.** A strict reader and a canonical printer that undo each other
  (`Texts`, `Json`, `ProofReader`), section 3.2 of RFC 8785; `JsonGrammar` gives the
  grammar the reader accepts, exactly.
- **Which proof counts.** Trailers (`Trailer`), the walk up a chain of manifests
  (`Carrier`), precedence among copies of a proof (`Precedence`), and the canonical bytes of
  a JPEG (`Jpeg`, `Canonical`, `JpegReader`, `JpegStrip`, `JpegCanonical`), with what they
  leave out said of the bytes (`JpegBoxes`).
- **What the evidence earns.** `Attestation`, `Level` and `Assessment` compute levels,
  labels and ceilings; `GreenCeiling`, `CeilingMeaning` and `LabelMeaning` say exactly which
  attachments make a proof green or red and what every label is there for.
- **Vault.** Chunk arithmetic and the streaming decryption loop (`Vault`).

`Layouts` says where each field stands in the messages that are signed and hashed.
Loops and objects that the source updates in place are methods and classes, each proved
against a specification function; the promises are lemmas about those functions.
`dafny verify dfyconfig.toml` checks everything.

## Assumptions

SHA-256 is a function `h` from byte strings to 32-byte digests. A theorem that needs it
collision free says so for the messages at hand: `InjectiveOn(h, messages)`. ES256 is a
predicate; soundness theorems assume that, of one capture or one tree, the key signed
only what the signer gave it. AES-GCM opens what was sealed and, in the soundness
theorem, only that. The base64url codec decodes what it encoded; it may accept other
spellings too. `Precedence` takes the judgement of one payload over some bytes as a
function of the value the payload denotes and of those bytes, answering *no proof found* to
a payload that denotes none: that neither labels nor footer flags enter it is put into the
type `Precedence.Judging`, and proved of the segment branch alone
(`Verdict.LabelsDecideNothing`).

## What the proofs turned up

- Two batches with the same anchored root are the same batch (`Merkle.RootUnique`): a leaf
  is never a node, so the root fixes the number of leaves too. The comment at
  tools/src/anchor.ts:72-75 and spec/vcap-proof-1.0.md:1430 say that a batch and a prefix
  of it can share a root; without a hash collision they cannot. Comparing sizes as the code
  does remains right for the size an attachment claims.
- A sidecar can lower the rank of a file, though only of one whose own proof is an ancestor's
  up its `parentOf` chain: tools/src/carrier.ts:241-274 leaves the ancestor out of the
  comparison once a sidecar is there. `Precedence.SidecarLowersExactly`: some sidecar lowers
  the rank if and only if the file's proof is an ancestor's and ranks above nothing, and then
  the empty sidecar does.
- The canonical bytes of a JPEG are a fixed point if and only if the JPEG does not come out
  spoilt (`Canonical.FixedPointExact`): a fill byte is the last piece kept, and behind it the
  three bytes the file ends in read as a segment whose length is wrong. It never does when the
  marker walk reaches SOS; `Canonical.WithoutSosItCanFail` is a JPEG that does.
- The SEI reader leaves its loop on a message header whose size runs past the end, with its
  cursor behind that header (tools/src/container.ts:416). So an accepted SEI can hold bytes
  between its message and its trailing bits: `Nal.CutHeaderAccepted` has two such bytes,
  `Nal.AcceptedExact` says exactly which units are accepted, and `ByteFates.SeiByte` which
  bytes of one are fixed by the capture and the segment and which are not.
- A snapshot that lists a later revocation is not asked whether it covers every certificate
  (tools/src/verify.ts:600). `GreenCeiling.GreenUnanswered` is a green proof with a certificate
  nobody answered for; `GreenCeiling.UnansweredGreenIsRevoked` says that every such proof has
  another certificate revoked later, and `GreenCeiling.SnapshotExchanged` exactly which
  snapshots keep a green proof green.

## Model

| member | source | states |
|---|---|---|
| `Merkle.TreeHashPairUp` | tools/src/generate.ts:1387-1391 | pairing neighbours and promoting an unpaired digest leaves the recursive Merkle Tree Hash of section 2.1 of RFC 6962 as it was, for every list |
| `Merkle.AuditPathPairUp` | tools/src/generate.ts:1384-1393 | one level of the builder contributes exactly the sibling that the recursive audit path of section 2.1.1 of RFC 6962 starts with |
| `Merkle.NextLevel` | tools/src/generate.ts:1387-1391 | the inner loop gives one digest for each pair, and the last one unchanged when it has no partner |
| `Merkle.TreeWith` | tools/src/generate.ts:1380-1395 | the level-by-level builder returns the recursive tree hash and the recursive audit path, for every leaf list and index |
| `Merkle.SplitIsThePowerOfTwo` | tools/src/generate.ts:1380-1395 | the split used is the largest power of two below the number of leaves |
| `Merkle.SplitUnique` | tools/src/generate.ts:1380-1395 | and any power of two below the number of leaves and not below half of it is that split |
| `Merkle.VerifyInclusion` | tools/src/registry.ts:61-84 | the iterative check accepts exactly what climbing from the leaf accepts, for every index, size and path, bad ones included |
| `Merkle.ClimbComplete` | tools/src/registry.ts:61-84 | the audit path of any leaf of any tree climbs to that tree's root |
| `Merkle.ClimbSound` | tools/src/registry.ts:61-84 | without a hash collision nothing else climbs to that root: the hash is the leaf's and the path is the audit path |
| `Merkle.MessagesSeparate` | tools/src/registry.ts:21-32 | no leaf message is a node message, and equal node messages come from equal pairs |
| `Merkle.InclusionExact` | tools/src/registry.ts:21-84 | against the root and size of a list, a leaf is accepted exactly when it stands at that index and the path is the one the builder emits |
| `Merkle.RootUnique` | tools/src/registry.ts:21-32 | two lists with the same root are the same list, whatever their lengths |
| `Timing.TimingRecordInjective` | tools/src/timing.ts:95-105 | two sets of timing values with one record are equal: no value can move between the fields |
| `Timing.ScaleExact` | tools/src/timing.ts:137-144 | a value converts exactly when its instant is a whole number of signed ticks, and then it is that instant |
| `Timing.ConvertAll` | tools/src/timing.ts:145-152 | the inner loop converts a list, or fails at the first value that does not convert |
| `Timing.ConvertTiming` | tools/src/timing.ts:137-165 | the converted values, or none when one field fails |
| `Timing.ConvertExact` | tools/src/timing.ts:137-165 | conversion succeeds exactly when every instant is a whole number of signed ticks, and keeps every instant |
| `Timing.RescaledConvertsBack` | tools/src/timing.ts:137-165 | multiplying all values and timescales by k converts back to the original values |
| `Timing.ConvertComposes` | tools/src/timing.ts:137-165 | converting through a middle timescale gives what converting at once gives |
| `Timing.EqualHashesEqualInstants` | tools/src/timing.ts:168-177 | without a collision, a received hash equal to the signed one means equal rational instants |
| `Timing.EqualInstantsEqualHashes` | tools/src/timing.ts:168-177 | values at the signed instants hash to the signed hash |
| `Timing.VideoExtent` | tools/src/timing.ts:215-226 | the running minimum and maximum of the loop, from no value at all |
| `Timing.ExtentIsTight` | tools/src/timing.ts:215-226 | the span covers every frame, and its ends are reached |
| `Timing.PlainExtent` | tools/src/timing.ts:215-226 | without composition offsets the span is from the first decode time to the end |
| `Timing.EditTrimsExactly` | tools/src/timing.ts:209-212 | an edit trims a segment exactly when it starts later or ends a whole movie tick or more before it |
| `Timing.WrittenEditTrimsNothing` | tools/src/timing.ts:209-212 | an edit over the kept media, rounded down into movie ticks, trims nothing inside that media |
| `Timing.ShorterEditTrims` | tools/src/timing.ts:209-212 | an edit a whole movie tick shorter than that trims the segment that ends the media |
| `Timing.EditTrimsRescaled` | tools/src/timing.ts:209-212 | the answer does not change when timescale, media time and extent are multiplied alike |
| `SampleTables.ExpandRuns` | tools/src/container.ts:263-289 | the nested loop over runs gives each value as often as its run says, in order |
| `SampleTables.SamplesOf` | tools/src/container.ts:228-306 | the chunk, size, delta and offset loops place every sample where the tables say, or fail when too few are placed |
| `SampleTables.SamplesDts` | tools/src/container.ts:287-302 | decode times start at 0 and each is the one before plus its duration |
| `ChunkPlacement.PerChunkExact` | tools/src/container.ts:291-293 | a chunk holds what the last run starting at it or before it says, for any number of runs, and nothing when none does |
| `ChunkPlacement.SamplesExact` | tools/src/container.ts:287-304 | every sample lies in a chunk, behind the bytes of the samples that chunk holds before it, and its size is the table's; there is no reading exactly when all chunks together hold too few samples |
| `ChunkPlacement.OneChunk` | tools/src/container.ts:287-304 | and it lies in one chunk alone, at one place |
| `ChunkPlacement.ExpandAt` | tools/src/container.ts:263-289 | value i of a run-length table is that of the run its count reaches |
| `ChunkPlacement.TimesExact` | tools/src/container.ts:293-298 | a sample's duration and composition offset by the tables, and past them the last duration and no offset |
| `Nal.NalsOf` | tools/src/container.ts:352-366 | the cursor loop splits a sample into its units, or fails on a prefix that does not fit |
| `Nal.NalsExact` | tools/src/container.ts:352-366 | splitting gives a list of units exactly when the sample is those units joined, each behind its length and none empty |
| `Nal.Rbsp` | tools/src/container.ts:374-388 | the loop with its zero counter drops exactly the emulation prevention bytes |
| `Nal.UnescapeEscape` | tools/src/container.ts:374-388 | removing what a writer inserted gives the payload back |
| `GopMeaning.UnescapeExact` | tools/src/container.ts:374-388 | what is dropped from any payload are exactly the 3s behind two zero bytes |
| `Nal.ReadCodedValue` | tools/src/container.ts:397-433 | the 0xff-continued value and the place after it, or the end of the bytes |
| `GopMeaning.CodedExact` | tools/src/container.ts:407-414 | a coded value is 255 for each byte 0xff and the byte after them, or none where the bytes end |
| `GopMeaning.TrailingExact` | tools/src/container.ts:406-431 | trailing bits are 0x80 and zeros to the end |
| `Nal.VcapSei` | tools/src/container.ts:397-433 | every outcome of the SEI reader: no vcap SEI, one, a bad shape, not alone, bytes after |
| `Nal.AcceptedExact` | tools/src/container.ts:397-433 | a unit is read as naming a capture and a segment exactly when it is an SEI, its payload starts with the 38-byte message for them, and trailing bits follow at once or behind one header whose size overruns the payload |
| `Nal.CutHeaderAccepted` | tools/src/container.ts:410-431 | such a header does get through: an accepted unit with two bytes between its message and its trailing bits |
| `Nal.WrittenSei` | tools/src/container.ts:397-433 | the SEI a writer emits for a capture and segment is accepted and names both |
| `GopMeaning.UnitTypes` | tools/src/container.ts:397-439 | which first bytes are IDR pictures and SEIs, in H.264 and in H.265 |
| `GopMeaning.SeiExact` | tools/src/container.ts:397-433 | every outcome of the reader by the messages of the unit: none is a vcap one, several messages, bytes after, a wrong size, or accepted |
| `Gops.FindStarts` | tools/src/container.ts:673-674 | the boundaries found are the units that open a GOP |
| `Gops.StartsPartition` | tools/src/container.ts:673-686 | boundaries start at 0, ascend, and every unit that opens a GOP is one |
| `Gops.ReadUnits` | tools/src/container.ts:668-672 | every video sample is read as its units, or the file is malformed |
| `Gops.TakeNals` | tools/src/container.ts:697-727 | each unit is hashed, taken as a vcap SEI, or reported, in order |
| `Gops.TakeUnits` | tools/src/container.ts:697-727 | a GOP's hashed bytes, SEIs, first problem and timing lists over all its units |
| `Gops.TakeAudio` | tools/src/container.ts:729-751 | the audio frames of the interval with their bytes, delays and durations; none when one lies beyond the file |
| `Gops.ReadGop` | tools/src/container.ts:685-769 | one GOP as the specification reads it |
| `Gops.ReadContainer` | tools/src/container.ts:644-769 | the whole reading: unreadable, malformed, or every GOP in order |
| `GopMeaning.ReadingExact` | tools/src/container.ts:644-769 | which files are unreadable, which malformed and which read, and what a reading takes over from the tracks |
| `GopMeaning.GopNames` | tools/src/container.ts:697-765 | a GOP counts its vcap SEIs, is named by the first of them and reports the first that is refused |
| `GopMeaning.TimingExact` | tools/src/container.ts:688-750 | two GOPs have the same timing values exactly when their units and frames follow each other alike, wherever they start |
| `GopMeaning.ExtentExact` | tools/src/timing.ts:215-226 | a GOP's span is from the earliest instant one of its units is shown to the latest one ends, composition offsets and all |
| `Timeline.BeforeIsEarlier` | tools/src/container.ts:84-86 | the cross-multiplied comparison is the order of the instants as rationals |
| `Timeline.InstantSeconds` | tools/src/container.ts:442-448 | the numerator and denominator denote the delay plus the time since the start of the media |
| `Timeline.ChosenSplit` | tools/src/container.ts:729-751 | the frames from an instant on split at any later instant, each frame on one side |
| `Timeline.AudioSharedOut` | tools/src/container.ts:729-751 | the GOPs together take exactly the frames from the first GOP's instant on, in order; earlier frames are in none |
| `Timeline.TakenOnce` | tools/src/container.ts:729-751 | no frame is taken by two GOPs |
| `ClipCompleteness.UnitsFromTables` | tools/src/container.ts:281-306 | the units of a track placed by its sample tables are in decode order |
| `ClipCompleteness.FileAudioSharedOut` | tools/src/container.ts:729-751 | so of a file read from its tables, the GOPs share out exactly the frames from the first GOP's instant on, with no assumption on their order |
| `Timeline.RescaledInstant` | tools/src/container.ts:442-448 | a track at k times the timescale shows every sample at the same rational instant |
| `Timeline.RescaledAssignment` | tools/src/container.ts:729-751 | multiplying both tracks by a factor of their own leaves a frame on the side of every boundary it was on |
| `Rescaling.FramesRescaled` | tools/src/container.ts:729-751 | so in tracks so multiplied every GOP takes exactly the frames it took |
| `Rescaling.RescaledKeepsGops` | tools/src/container.ts:667-769 | media at multiples of their timescales are read as the same GOPs: hash input, SEIs and every instant |
| `ByteAccounting.SampleIsItsUnits` | tools/src/container.ts:352-366 | a read sample is its length prefixes and its units, and nothing else |
| `ByteAccounting.UnitInOneGop` | tools/src/container.ts:673-686 | every access unit lies in exactly one GOP |
| `ByteAccounting.HashedAllButOne` | tools/src/container.ts:697-727 | a GOP with one SEI and no problem hashes every unit but that SEI, in order |
| `ByteAccounting.BoundGopBytes` | tools/src/verify.ts:1040-1057 | the bytes under a bound GOP's signed hash: all units but the one SEI naming the capture and segment, then the audio |
| `ByteFates.SeiByte` | tools/src/container.ts:374-433 | every byte of an accepted SEI is of its NAL header, a dropped 3, the byte of the message for that capture and segment, of a cut header, or 0x80 and zeros of the trailing bits |
| `ByteFates.EveryByteAccounted` | tools/src/verify.ts:1030-1057 | in a file located without a problem, every byte of every video sample is in one GOP, and there a length prefix, inside a unit its signed hash covers whole, or a byte of the SEI naming the capture and the segment credited, with the part of it the byte is |
| `ClipCut.SegmentKept` | tools/src/container.ts:685-769 | a GOP whose units and frames keep their bytes and relative times is read as the same segment |
| `ClipCut.StartsOfCut` | tools/src/container.ts:673-686 | the boundaries of a cut track are those of the original, moved |
| `ClipCut.FramesKept` | tools/src/container.ts:729-751 | each surviving GOP takes the same audio frames |
| `ClipCut.CutKeepsGops` | tools/src/container.ts:667-769 | dropping leading or trailing GOPs leaves every surviving GOP its hash input, SEIs and timing values |
| `Segments.SegmentMessageInjective` | tools/src/segments.ts:8-17 | two signed messages are equal only when capture, index, content hash and link are |
| `Segments.SignChain` | tools/src/sign.ts:39-48 | the entries carry the content hashes in order, each signed over the link to the message before it |
| `Segments.VerifyChain` | tools/src/segments.ts:48-76 | status and credited indices for any list of entries, in any order and with repeats |
| `Segments.SelectionVerifies` | tools/src/segments.ts:48-76 | any selection of a signed chain verifies: credited are its indices in order, complete exactly when none is missing, never tampered |
| `Segments.MessageCommits` | tools/src/segments.ts:8-17 | without a collision, equal messages at index n fix the capture and every content hash up to n, absent entries included |
| `VerdictExact.IntactExact` | tools/src/segments.ts:48-76 | an entry holds exactly when its signature is over the 96 bytes of its own fields and its link is zero at the start and the digest of its predecessor's bytes where there is one |
| `VerdictExact.LastEntryWins` | tools/src/segments.ts:49 | of two entries with one index the later stands |
| `Binding.BindSegments` | tools/src/verify.ts:1030-1057 | the pass over the GOPs with its maps and sets reports and credits what the specification does |
| `Binding.CleanExact` | tools/src/verify.ts:1040-1054 | the pass reports nothing exactly when every GOP so far is bound, at strictly increasing indices |
| `Binding.BindingExact` | tools/src/verify.ts:1030-1057 | a located file has no problem exactly when every GOP names a signed segment, alone, with its signed content, in increasing order; credited are those indices |
| `VerdictExact.LocatedExact` | tools/src/verify.ts:1030-1057 | credited by binding, problems or not, are in order the segments that one GOP alone names and reproduces |
| `Verdict.ClipTimingProblem` | tools/src/verify.ts:967-983 | the first reason a credited GOP is not shown at its signed instants, or none |
| `ClipSoundness.NoTimingProblem` | tools/src/verify.ts:967-983 | a GOP has none exactly when its converted timing hashes to its entry's and neither track's edit trims it |
| `ClipSoundness.PresentationExact` | tools/src/verify.ts:939-943 | the presentation differs exactly unless configuration, matrix and display are the signed ones |
| `Verdict.OriginalTimingDiffers` | tools/src/verify.ts:991-1008 | whether the original's own segments fail to reproduce the signed timing root, as the two loops find it |
| `OriginalTiming.HashExact` | tools/src/verify.ts:991-1008 | an index has an entry exactly when some GOP of this capture names it, and a hash only when one alone does, which is then that GOP's converted timing hash |
| `OriginalTiming.AgreementExact` | tools/src/verify.ts:991-1008 | against a genuine core nothing differs exactly when every sealed segment is named by one GOP alone, at its sealed instants |
| `OriginalTiming.SealedFileIsAuthentic` | tools/src/verify.ts:392-484 | the sealed file itself, its `media.hash` matching, is *authentic* with every index credited and no label added for timing or presentation |
| `Verdict.JudgeSegments` | tools/src/verify.ts:392-484 | outcome, credited segments and labels of the segment branch on every path |
| `VerdictExact.TamperedExact` | tools/src/verify.ts:405-428 | *tampered* exactly for a malformed container, an entry that is not intact, a complete set of entries without the signed root, or a located file with a GOP no entry speaks for, whatever `media.hash` says |
| `VerdictExact.OriginalExact` | tools/src/verify.ts:470-484 | over the sealed bytes, otherwise, *authentic* exactly when every index has an entry, else *verified clip* |
| `VerdictExact.ClipExact` | tools/src/verify.ts:434-468 | over other bytes, otherwise, *verified clip* exactly when segments were compared and the tracks, presentation, timing and edits show them whole, else *frames not compared* |
| `VerdictExact.CreditExact` | tools/src/verify.ts:392-484 | credited exactly are the segments located once whose entry and every entry below it is intact, and none where frames were not compared |
| `VerdictExact.LabelsExact` | tools/src/verify.ts:392-484 | each label of the branch is there exactly for what it says |
| `VerdictExact.RootExact` | tools/src/verify.ts:950-957 | the root is recomputed, over the timing hashes listed for 0, 1, 2 and so on, exactly when every index has one entry |
| `Verdict.LabelsDecideNothing` | tools/src/verify.ts:392-484 | earlier labels change neither the outcome nor the segments credited |
| `ClipSoundness.ChainExact` | tools/src/segments.ts:48-76 | a chain is not tampered exactly when every entry is in range, links and verifies |
| `ClipSoundness.ClipVerdictExact` | tools/src/verify.ts:392-468 | a re-muxed file is *verified clip* exactly when its GOPs are bound, every entry holds, the timing root is authenticated, the tracks are presented as signed and every GOP is shown as signed |
| `ClipSoundness.TimingsAreSealed` | tools/src/verify.ts:950-957 | an authenticated proof carries the sealed timing hash of every segment |
| `ClipSoundness.EntryIsSealed` | tools/src/segments.ts:48-76 | an entry that holds carries the content hash sealed at its index |
| `ClipSoundness.VerifiedClipIsGenuine` | tools/src/verify.ts:392-468 | *verified clip* means an ordered selection of the sealed segments: the very bytes, at the very instants, trimmed by no edit list |
| `ClipCompleteness.ReadingIsWellFormed` | tools/src/container.ts:644-769 | what a reading gives has one offset a sample, one duration a frame, and hashes its own bytes |
| `ClipCompleteness.SealedChainHolds` | tools/src/sign.ts:39-48 | every entry of a sealed proof links and verifies |
| `ClipCompleteness.SealedTimingAuthenticated` | tools/src/verify.ts:950-957 | a sealed proof recomputes its own timing root |
| `ClipCompleteness.KeptSegmentsVerify` | tools/src/verify.ts:392-468 | a file that shows sealed GOPs in a row at their instants, in any timescales, presented as signed and untrimmed, is *verified clip* over exactly those |
| `ClipCompleteness.CutVerifies` | tools/src/verify.ts:392-468 | media with whole GOPs cut off either end, in the signed timescales or multiples of them, are *verified clip* over exactly the surviving indices |
| `ClipCompleteness.CutFileVerifies` | tools/src/verify.ts:392-468 | the same from the sample tables up: a file sealed over its own reading, and a clip whose tracks read as a cut of it |
| `EditSlack.UnitsAreContiguous` | tools/src/container.ts:287-302 | each access unit starts where the one before it ends |
| `EditSlack.ExtentsTile` | tools/src/container.ts:697-709 | without composition offsets the GOP extents tile the track from 0 to its end |
| `EditSlack.RemuxEditTrimsNoGop` | tools/src/remux.ts:215-224 | the edit the writer makes over the kept media trims no GOP |
| `EditSlack.ShorterEditTrimsLastGop` | tools/src/timing.ts:209-212 | an edit a whole movie tick shorter always trims the last GOP |
| `Texts.Utf8RoundTrip` | tools/src/jcs.ts:32 | encoding a well-formed text as UTF-8 and decoding it gives the text back |
| `Texts.Utf8Exact` | tools/src/json.ts:26-31 | bytes are read as a text exactly when it has no lone surrogate and they are its UTF-8 form |
| `Json.NumberRoundTrip` | tools/src/json.ts:50-63 | a printed integer within the safe range reads back, whatever follows it |
| `Json.StringRoundTrip` | tools/src/json.ts:34-49 | a quoted string reads back, escapes and surrogates included |
| `Json.InOrderOrdered` | tools/src/jcs.ts:18-30 | members are printed each once, ascending by the code units of their names |
| `Json.JcsWellFormed` | tools/src/jcs.ts:18-32 | what is printed is well-formed UTF-16, so it has a UTF-8 form |
| `Json.ValueRoundTrip` | tools/src/json.ts:64-109 | any printable value reads back at its depth, whatever follows it |
| `Json.ReadIsPrintable` | tools/src/json.ts:22-116 | what the reader accepts is within the safe range and nested no deeper than the limit |
| `Json.PrintedReadsBack` | tools/src/json.ts:22-116 | reading the printed bytes of a value with safe integers and at most 64 levels gives that value |
| `Json.SameProofExact` | tools/src/carrier.ts:186-193 | two payloads are the same proof exactly when both read and denote one value, so the relation is an equivalence on well-formed proofs |
| `JsonGrammar.ParseExact` | tools/src/json.ts:33-116 | a text is read as a value exactly when some concrete syntax tree that denotes it writes the text: any spacing, any spelling of strings and any order of distinct names |
| `JsonGrammar.ProofExact` | tools/src/json.ts:22-116 | the same of bytes: the UTF-8 form of such a text, without a byte-order mark |
| `ProofReader.Reader.String` | tools/src/json.ts:34-49 | the cursor stops behind the string, or the text is refused |
| `ProofReader.Reader.Number` | tools/src/json.ts:50-63 | the cursor stops behind the number, or the text is refused |
| `ProofReader.Reader.Value` | tools/src/json.ts:64-109 | one value from the cursor on, as the grammar reads it, cursor moved exactly past it |
| `ProofReader.Reader.Members` | tools/src/json.ts:70-88 | the object loop with its set of seen names; a repeated name is refused |
| `ProofReader.Reader.Items` | tools/src/json.ts:89-98 | the array loop |
| `ProofReader.ParseProofJson` | tools/src/json.ts:22-116 | the whole reader: UTF-8, no byte order mark, one value and nothing after it |
| `Carrier.Walk` | tools/src/carrier.ts:128-155 | ends on every manifest graph and returns the proof at the least depth from 1 to 16 whose ancestor is another manifest and carries one, or none |
| `Carrier.ClosedChain` | tools/src/carrier.ts:128-155 | once the chain meets a manifest it has been at, it meets no new one |
| `Carrier.OffChainChangesNothing` | tools/src/carrier.ts:128-155 | manifests off the chain cannot change the answer |
| `Trailer.BuiltIsRead` | tools/src/trailer.ts:22-88 | a trailer that was built reads back, whatever it was appended to |
| `Trailer.ReadWasBuilt` | tools/src/trailer.ts:49-88 | a trailer that reads was built from exactly those fields, up to the high bits of its box type |
| `Trailer.OutcomeExact` | tools/src/trailer.ts:49-88 | exactly when the last bytes are no trailer, one of another major, or one whose checksum is wrong |
| `Trailer.UnreadableExact` | tools/src/trailer.ts:89-100 | an unreadable trailer starts at the box of its declared size, whatever its major and checksum, or else at its footer |
| `Precedence.SidecarNeverLowers` | tools/src/verify.ts:215-276 | beside a readable trailer, a manifest's own proof or no proof, a sidecar never lowers the rank |
| `Precedence.SidecarLowersExactly` | tools/src/carrier.ts:241-274 | some sidecar lowers the rank exactly when the file's own proof is an ancestor's and ranks above nothing |
| `Precedence.AncestorVerdict` | tools/src/verify.ts:250-266 | a proof up the `parentOf` chain gives what the judge grants over the file, and no proof found where it reads tampered or frames not compared |
| `Precedence.RankIsBeats` | tools/src/verify.ts:268-276 | *authentic* over *verified clip* over *frames not compared* over everything else, which rank alike |
| `Precedence.TrailerVerdict` | tools/src/verify.ts:230-251 | with a usable trailer: its proof over the bytes before it, or a sidecar of other bytes that beats it there |
| `Precedence.RefusedVerdict` | tools/src/verify.ts:215-240 | a corrupted, unsupported or nested trailer is called so, unless a sidecar says more of the bytes in front of it |
| `Precedence.CarriedVerdict` | tools/src/verify.ts:230-251 | without a trailer: the active manifest's proof, or a sidecar of another value that beats it; then the sidecar; then nothing |
| `Precedence.SameProofJudgedAlike` | tools/src/carrier.ts:186-193 | two payloads that are the same proof are judged alike over the same bytes |
| `Precedence.SidecarIsHeard` | tools/src/verify.ts:230-276 | over bytes without a trailer the verdict ranks at least as high as the sidecar's |
| `Precedence.DeletingTheTrailerGivesAsMuch` | tools/src/verify.ts:230-251 | whenever a sidecar wins over a readable trailer, the file without it reaches at least the same rank |
| `Precedence.DeletingTheFooterGivesAsMuch` | tools/src/verify.ts:215-228 | the same of an unreadable footer, when the bytes left do not end in another trailer |
| `Registry.MessagesApart` | tools/src/registry.ts:257-306 | no message of one kind that a log key signs is a message of another kind |
| `Registry.TreeHeadInjective` | tools/src/registry.ts:48-49 | a tree head message fixes size, time and root |
| `Registry.RegisteredIsLogged` | tools/src/registry.ts:137-185 | with a log that signs only heads of its own list, a registered key's leaf stands at that index of the list signed |
| `Registry.AnchorExact` | tools/src/anchor.ts:48-80 | against the root and size a contract recorded, an anchor holds exactly when the core hash stands at that index with the builder's path |
| `Attestation.ProvenExact` | tools/src/attestation.ts:231-274 | a chain proves a level exactly when no check failed, the device was locked and verified, the key was generated in hardware and neither level is software; then the weaker of the two |
| `Attestation.FrozenRevocation` | tools/src/verify.ts:904-936 | the loops over entries and serials: unchecked, or the revocations listed and whether a certificate is unanswered, last entry winning |
| `Attestation.RevokedExact` | tools/src/verify.ts:922-934 | a revocation is reported exactly when some certificate of the chain is listed with it |
| `Assessment.Labels.Anchor` | tools/src/verify.ts:776-792 | the anchor outcome and exactly the labels it appends |
| `Assessment.Labels.Timestamp` | tools/src/verify.ts:739-764 | the token outcome, dropped when it does not agree with the block, and its labels |
| `Assessment.Labels.Registered` | tools/src/verify.ts:849-885 | whether the key is in a trusted log and was before the capture, and its labels |
| `Assessment.Labels.Integrity` | tools/src/verify.ts:699-718 | whether the device's integrity is proven, and its labels |
| `Assessment.Labels.Splice` | tools/src/verify.ts:569-575 | takes out the first such label and leaves the others in order |
| `Assessment.Labels.Level` | tools/src/verify.ts:501-662 | instant, source, claimed and proven level, ceiling, and the whole list of labels |
| `Assessment.Labels.Assess` | tools/src/verify.ts:338-376 | the layer run in order ends green exactly when the evidence earns green, and red exactly when a key or a chain is revoked |
| `Level.CeilingExact` | tools/src/verify.ts:640-662 | the ceiling read off the labels is green exactly under the label-free conditions, and red exactly when a key or chain is revoked |
| `Level.ProvenIs` | tools/src/verify.ts:542-606 | a level is proven by an Android chain that holds and is not revoked, or on iOS by the registry |
| `GreenCeiling.TrustedIsBacked` | tools/src/verify.ts:505-520 | a trusted instant is a token's genTime that agrees with any block, or an on-chain block's time |
| `GreenCeiling.VouchedWhenOne` | tools/src/registry.ts:235-255 | status 1 means a log the proof names signed that status for this key and this very instant |
| `GreenCeiling.ClearedIsLater` | tools/src/verify.ts:590-606 | a chain the snapshot clears has no certificate listed as revoked by the instant, or for a reason that reaches back |
| `GreenCeiling.GreenRests` | tools/src/verify.ts:501-662 | green implies Android, proven hardware at the validated instant, an instant from a token or an on-chain anchor, a head no later than clock and token, a log's signature that the key was valid then, a signed snapshot with only later revocations, and a signed hardware verdict |
| `GreenCeiling.GreenKeyIsLogged` | tools/src/registry.ts:137-185 | the green key's leaf stands in the log's list, under this key, at a head no later than the device clock |
| `GreenCeiling.SnapshotExchanged` | tools/src/verify.ts:590-606 | with another snapshot a green proof stays green exactly when that one is signed and either lists no revocation of the chain and answers for every certificate, or lists some, all later than the instant |
| `GreenCeiling.UnansweredGreenIsRevoked` | tools/src/verify.ts:593-600 | a green proof with an unanswered certificate has another one listed as revoked later |
| `GreenCeiling.GreenUnanswered` | tools/src/verify.ts:593-600 | and there is one, under every hash and signature scheme: two certificates, one revoked later, one not listed |
| `GreenCeiling.StrippedIsNotGreen` | tools/src/verify.ts:678-692 | taking away the registry, integrity, attestation, snapshot, key status or the source of the instant never makes a proof green |
| `GreenCeiling.StrippedIntegrityIsAsRed` | tools/src/verify.ts:678-692 | taking away the integrity verdict leaves red exactly as red |
| `CeilingMeaning.SpeaksExact` | tools/src/verify.ts:727-731 | the logs whose word counts are those the registry attachment names, or every trusted log when it names none |
| `CeilingMeaning.InstantExact` | tools/src/verify.ts:505-520 | the instant nobody can move is the token's, where it agrees with any block, or else the block's |
| `CeilingMeaning.InLogExact` | tools/src/registry.ts:137-185 | registered exactly when a trusted log's signed head covers a leaf that records this key |
| `CeilingMeaning.StatusExact` | tools/src/registry.ts:235-255 | a status is known exactly when a log that speaks for the proof signed it for this key and the instant asked about |
| `CeilingMeaning.AskedOnce` | tools/src/verify.ts:525-537 | the status is asked about one instant: the proven one, or else now |
| `CeilingMeaning.StatusOfExact` | tools/src/verify.ts:918-934 | a certificate's status is that of the list's last entry for its serial |
| `CeilingMeaning.ClearsExact` | tools/src/verify.ts:590-606 | a snapshot clears a chain exactly when it is signed and calls every certificate valid, or lists revocations all later than the instant |
| `CeilingMeaning.GreenExact` | tools/src/verify.ts:501-662 | green exactly for the attachments listed in `GreenAt`, the app declared by the named log and claims no higher than proven among them, all at one proven instant |
| `CeilingMeaning.RedExact` | tools/src/verify.ts:501-662 | red exactly when a log signed status 2 for the registered key, or the snapshot lists a revocation of the chain that nothing proves later |
| `LabelMeaning.LevelExact` | tools/src/verify.ts:542-606 | the level shown: the chain's unless revoked by then, or the enclave a log recorded, or none |
| `LabelMeaning.LabelsExact` | tools/src/verify.ts:501-885 | beside earlier ones, each of the layer's labels is there exactly for the attachments it speaks of |
| `Remux.RunsExpand` | tools/src/remux.ts:99-105 | run-length coding expands back to the durations |
| `Remux.RunsCompact` | tools/src/remux.ts:99-105 | no run is empty and no two neighbours have one value |
| `Remux.CollectRuns` | tools/src/remux.ts:99-105 | the loop that extends the last run in place |
| `TableBytes.FieldsReadBack` | tools/src/remux.ts:106-122 | fixed-width fields that fit read back |
| `TableBytes.WrittenReadsBack` | tools/src/container.ts:228-279 | the payloads written for the five tables read back as those tables |
| `Remux.MoovSizeFixed` | tools/src/remux.ts:236-239 | the size of `moov` does not depend on the offsets in it, so both passes agree |
| `Remux.TablesReadBack` | tools/src/remux.ts:92-122 | the tables of a rewritten track read back as the plan's sizes, durations, composition offsets and chunk offsets |
| `Remux.SamplesArePlanned` | tools/src/container.ts:281-306 | the reader finds the planned samples, decoded at the sum of the durations before |
| `Remux.PlannedExact` | tools/src/remux.ts:92-108 | a planned sample by the source's own: the new duration of its old one, decoded after those before it, with the plan's offset and as long as its bytes |
| `Remux.ReplacementAt` | tools/src/remux.ts:154-165 | every replacement stands in the appended bytes where its offset counts to, across tracks and repeats |
| `Remux.RemuxPlaysThePlan` | tools/src/remux.ts:151-242 | re-muxing and reading back gives, at every plan position, the planned size, duration and composition offset, and the planned bytes at its offset |
| `RemuxCut.RemuxIsCut` | tools/src/remux.ts:151-242 | what a reader finds after a re-mux that keeps whole GOPs and their audio, each track delayed to where it was shown, is a cut of the sealed media in its timescales |
| `RemuxCut.RemuxedCutVerifies` | tools/src/remux.ts:151-242 | so such a re-mux, presented as signed and untrimmed, is *verified clip* over exactly the GOPs its plan keeps |
| `BoxWalk.Boxes` | tools/src/container.ts:125-144 | the box loop: short and 64-bit sizes, a size to the end, the break at a box that does not fit, and where it throws |
| `BoxWalk.LaidFound` | tools/src/container.ts:125-144 | bytes that are complete boxes are walked as exactly those, in order |
| `EditLists.ReadEdits` | tools/src/container.ts:159-189 | the loop over the edit list, both versions |
| `EditLists.EditsExact` | tools/src/container.ts:159-189 | leading empty edits add up to the delay, the next says where the media starts and how long it is shown, and another rate or a further edit is reported |
| `RemuxWalk.TablesFound` | tools/src/remux.ts:92-122 | in the bytes of the written `stbl`, the tables are found by name and hold the plan's payloads, composition offsets included |
| `RemuxWalk.SyncFound` | tools/src/remux.ts:117-119 | the sync table found lists exactly the positions whose samples are sync samples |
| `RemuxWalk.RemuxedReadsBack` | tools/src/remux.ts:151-242 | the re-muxed file, walked from its first box, leads to every rewritten track's tables and edit list |
| `RemuxReads.TrackIsPlanned` | tools/src/container.ts:308-333 | the track read from those bytes has the plan's samples, delay and edit |
| `RemuxReads.RemuxedFileVerifies` | tools/src/remux.ts:151-242 | from bytes to verdict: a re-mux of whole GOPs with their audio, read back from the bytes written, is *verified clip* over exactly the GOPs kept |
| `WrittenEdits.EditDurationIsMedia` | tools/src/remux.ts:215-224 | the duration written into an edit list is the new media as a reader finds it, rounded down into movie ticks |
| `WrittenEdits.WrittenEditsTrimNothing` | tools/src/remux.ts:215-224 | without composition offsets, edits so written trim no segment of any GOP, video or audio |
| `RemuxWriter.Writer.Layout` | tools/src/remux.ts:154-165 | offsets of one track, its replacements appended to the shared list |
| `RemuxWriter.Writer.TablesFor` | tools/src/remux.ts:92-122 | the bytes of a rewritten `stbl` |
| `RemuxWriter.Writer.Build` | tools/src/remux.ts:167-234 | one pass empties the list, fills it again and gives the `moov` for that size |
| `RemuxWriter.Writer.Remux` | tools/src/remux.ts:151-242 | two passes give head, `moov` and appended samples; nothing where a field does not fit |
| `Jpeg.WalkParts` | tools/src/jumbf.ts:108-122 | the pieces and the tail are the bytes, in order |
| `Jpeg.WalkBack` | tools/src/jumbf.ts:108-122 | any well-formed pieces before SOS walk back to themselves |
| `Jpeg.StripTwice` | tools/src/canonical.ts:34-50 | stripping what was stripped drops nothing more |
| `Jpeg.StripWithout` | tools/src/canonical.ts:34-50 | taking out all segments of a box that is dropped anyway leaves the same pieces |
| `Canonical.FixedPointExact` | tools/src/canonical.ts:34-50 | canonical bytes are their own canonical bytes exactly when they do not come out spoilt, which they never do when the walk reaches SOS |
| `Canonical.RemainingInOrder` | tools/src/canonical.ts:34-50 | what is left walks as the pieces not dropped, in order, before the same tail |
| `Canonical.StoreMakesNoDifference` | tools/src/canonical.ts:34-50 | adding or removing a store's segments at any boundaries, under a number no other segment has, leaves the canonical bytes |
| `Canonical.InsertedStore` | tools/src/canonical.ts:34-50 | the same for a store inserted at one marker boundary |
| `JpegBoxes.StoreInserted` | tools/src/canonical.ts:34-50 | inserting the segments of a C2PA manifest store, byte for byte, leaves the canonical bytes |
| `JpegBoxes.UnreadableInserted` | tools/src/canonical.ts:34-50 | and so does a box whose type cannot be read |
| `JpegBoxes.OtherInserted` | tools/src/canonical.ts:34-50 | the segments of a box of any other type stand in the canonical bytes, all and in order, where they were inserted |
| `JpegBoxes.CanonicalExact` | tools/src/jumbf.ts:108-160 | the canonical bytes are the first two, every piece that is no JUMBF segment or of a box of a readable type other than a store's, and what lies behind the walk |
| `JpegBoxes.PieceExact` | tools/src/jumbf.ts:108-122 | the pieces in front of SOS, byte by byte |
| `Canonical.WithoutSosItCanFail` | tools/src/jumbf.ts:108-122 | without SOS the canonical bytes can be malformed: a concrete JPEG |
| `Canonical.CanonicalBytesTwice` | tools/src/canonical.ts:18-57 | for every container, canonical bytes keep it, and are a fixed point exactly unless a JPEG comes out spoilt |
| `Canonical.ContainersExact` | tools/src/canonical.ts:16-57 | which bytes are a JPEG, which ISO-BMFF, and that only a JPEG has anything left out |
| `JpegReader.JpegSegments` | tools/src/jumbf.ts:108-122 | the cursor loop finds the marker segments up to SOS, or refuses the JPEG |
| `JpegStrip.JumbfGroups` | tools/src/jumbf.ts:133-152 | one group for each box number with all its packets in file order, one for each segment without a number, and the type from the first packet numbered 1 |
| `JpegCanonical.StripC2paFromJpeg` | tools/src/canonical.ts:34-50 | groups, drop list and copy loop together give the canonical bytes, or fail on a malformed JPEG |
| `Vault.ChunkSizes` | tools/src/vault/format.ts:59-61 | every chunk is whole but the last, and a chunk is empty only for an empty file |
| `Vault.ChunksTile` | tools/src/vault/format.ts:59-61 | chunks of plaintext and of ciphertext follow each other without gap or overlap |
| `Vault.ChunksCover` | tools/src/vault/format.ts:59-61 | chunk sizes sum to the plaintext, chunk ciphertexts to the whole ciphertext, for every length from 0 |
| `Vault.HeaderInjective` | tools/src/vault/format.ts:52-58 | manifests that differ in anything but the ciphertext digest have different headers |
| `Vault.NoncesDistinct` | tools/src/vault/format.ts:62 | no two chunks of a file share a nonce |
| `Vault.OneFinalChunk` | tools/src/vault/format.ts:64-66 | exactly one chunk's associated data is final, and it is the last |
| `Vault.DecryptedSealed` | tools/src/vault/fixture.ts:62-67 | decryption inverts the encoder |
| `Vault.AcceptedIsSealed` | tools/src/vault/decrypt.ts:36-52 | under an ideal cipher an accepted ciphertext is one the sealer made, whole, in order and marked final, and what comes out is its plaintext |
| `Vault.DecryptedExact` | tools/src/vault/decrypt.ts:23-52 | accepted exactly when the length fits, every chunk opens under its own nonce and data and the digest is the manifest's; each fault says which failed first |
| `Layouts.VaultLayout` | tools/src/vault/format.ts:52-66 | every field of header, nonce and associated data at its place |
| `Layouts.TreeLayout` | tools/src/registry.ts:21-32 | a leaf message is a zero and the data, a node message a one and the two digests |
| `Layouts.SegmentLayout` | tools/src/segments.ts:8-16 | the 96 bytes of a segment message, field by field |
| `Layouts.TreeHeadLayout` | tools/src/registry.ts:48-49 | size, time and root at their places |
| `Layouts.KeyStatusLayout` | tools/src/registry.ts:219-223 | key, instant, size and status at their places |
| `Layouts.FitsExact` | tools/src/registry.ts:34-49 | a message a log signs exists exactly when its numbers fit their eight bytes |
| `Layouts.SnapshotLayout` | tools/src/registry.ts:265-268 | core hash, list and time at their places |
| `Layouts.IntegrityLayout` | tools/src/registry.ts:303-306 | core hash and printed verdict at their places |
| `Layouts.TimingLayout` | tools/src/timing.ts:95-108 | every value of the timing record at its place |
| `Layouts.RecordExists` | tools/src/timing.ts:70-108 | a record exists exactly when its values fit their fields |
| `Vault.ReadChunk` | tools/src/vault/decrypt.ts:37-43 | a whole chunk is filled however the reads are cut, or the file is too short |
| `Vault.DecryptFile` | tools/src/vault/decrypt.ts:23-52 | what is published is the decryption of the bytes read, even from a file that changes; of a file left alone the result is exactly its decryption or its fault |

## Left out

- Codec detection, parameter sets, track and movie headers and the presentation message: a reading starts from parsed sample tables, timescales, one media edit and an opaque presentation. The box walk, the tables with 64-bit chunk offsets and the edit list are read from bytes for re-muxed files; for others they are inputs.
- Fields of a reading kept for display (`range`, `opensWithIdr`, byte and frame counts) and reason texts: nothing is decided by them.
- DER, X.509, CMS and the path walk of an attestation chain: their findings are inputs to `Attestation.ValidateChain`, and a token's validation is an input to `Level.Token`.
- SHA-256, ES256, AES-GCM, HPKE, key unwrapping and CRC-32: parameters, as said above.
- The stages of `judge` before the segment branch, shape checks and label sorting: a core signature or key mismatch ends in *tampered* before anything modelled here.
- The base64url and base64 decoders of attachments: the registry and anchor models take decoded bytes, and compare a device key id and a leaf's key id through a hexadecimal encoding function.
- A registry or status message with an integer outside eight bytes makes the source throw; `Registry` answers it as a signature that does not verify.
- JSON objects are maps: the order of members is not represented, which is what the comparison of proofs is about. A property name that JavaScript objects inherit is treated as any other name in `Attestation.Rank`.
- Duplicate keys of a segment entry other than its index, non-integer `gop` values and non-string entry fields: the shape check refuses them before the chain is read.
- The position level of `location.ts`, watermark and flag labels: short enumerations that never touch the ceiling.
- Certificate serials are compared through a normalising function given as a parameter.
- RemuxWriter.Writer.Remux: asks up front whether every field fits, where the source throws at the first write that does not; edit lists given whole in a plan and boxes whose headers are rewritten with a new timescale are bytes of the part they stand in.
- Remux.RemuxPlaysThePlan: speaks of planned samples that lie before `moov` and of an `stts` that covers every planned sample, as the writer expects of its source.
- Vault.DecryptFile: the temporary file, its atomic link, zeroing of buffers and the two small files read beside the ciphertext are not modelled.
- Carrier.Walk: manifests are numbers with a proof and a parent; CBOR, claims, redactions and label resolution are behind those two functions.
- Precedence.DeletingTheFooterGivesAsMuch: is not claimed for bytes that still end in another trailer, where the source itself reads that trailer.
- Storing, fetching and command-line entry points, the vector generator apart from its tree builders, and the conformance reporters.
- RemuxReads.RemuxedFileVerifies: takes the timescale and the codec of a track from the boxes copied unread, asks that the copied bytes are complete boxes, and is about delays that a movie tick expresses.

/**
 An honest cut verifies: a file that keeps whole GOPs of the sealed recording, at
 their instants and under their presentation, reads *verified clip* with exactly
 the surviving segments.
 */
module ClipCompleteness {
  import opened ByteStrings
  import opened Primitives
  import opened Sorting
  import opened SampleTables
  import opened Timing
  import opened Nal
  import opened Gops
  import opened Timeline
  import opened ClipCut
  import opened Rescaling
  import opened Segments
  import opened Binding
  import opened Verdict
  import opened ClipSoundness

  /** What a container reading gives holds of every reading. */
  lemma ReadingIsWellFormed(h: Hash, file: Buffer, video: Option<Track>, audio: Option<Track>, presentation: Option<Presentation>, layout: Option<string>)
    requires video.Some? ==> video.value.lengthSize > 0
    ensures var reading := ReadingOf(h, file, video, audio, presentation, layout);
            reading.Read? ==> WellTimed(reading.gops) && WellHashed(h, reading.gops)
  {
    hide TimingOf, AllNals, HashedNals, SeisIn, ProblemIn, FrameBytes, VideoExtentOf, FramesIn, UnitsIn, AllStored, UnitOf, StartsUpTo;
  }

  /** Each GOP carries, once and in an allowed shape, the SEI of its own index. */
  ghost predicate NamedInOrder(gops: seq<Segment>, captureId: Buffer) {
    forall n | 0 <= n < |gops| ::
      gops[n].problem.None? && gops[n].seiCount == 1 && gops[n].index == Some(n) && gops[n].captureId == Some(captureId)
  }

  function ContentsOf(gops: seq<Segment>): (contents: seq<Digest>)
    ensures |contents| == |gops|
  {
    seq(|gops|, n requires 0 <= n < |gops| => gops[n].contentHash)
  }

  ghost predicate TimingsEncoded(gops: seq<Segment>) {
    forall n | 0 <= n < |gops| :: gops[n].timing.Paired() && TimingRecord(gops[n].timing).Some?
  }

  function TimingsOf(gops: seq<Segment>): (timings: seq<TimingValues>)
    ensures |timings| == |gops|
  {
    seq(|gops|, n requires 0 <= n < |gops| => gops[n].timing)
  }

  /** The proof the sealer writes over its own reading of the finished file. */
  ghost predicate SealedProof(h: Hash, b64: Base64, sign: Buffer -> Buffer, captureId: Buffer, gops: seq<Segment>, scales: Timescales,
                              entries: seq<SegmentEntry>, media: SignedMedia)
  {
    && Sealable(captureId, ContentsOf(gops)) && TimingsEncoded(gops)
    && |entries| == |gops|
    && (forall n | 0 <= n < |entries| ::
          entries[n] == ChainEntry(h, b64, sign, captureId, ContentsOf(gops), n).(timing := b64.encode(RecordHash(h, gops[n].timing))))
    && media.segmentCount == |gops|
    && SignedScales(media.timing) == scales
    && media.timing.root == b64.encode(h(Concat(SealedTimings(h, TimingsOf(gops)))))
  }

  lemma {:induction false} ByIndexInOrder(entries: seq<SegmentEntry>, n: nat)
    requires n <= |entries| && forall i | 0 <= i < |entries| :: entries[i].gop == i
    ensures forall i :: i in ByIndex(entries[..n]) <==> 0 <= i < n
    ensures forall i | 0 <= i < n :: ByIndex(entries[..n])[i] == entries[i]
  {
    if n > 0 {
      ByIndexInOrder(entries, n - 1);
      assert entries[..n][..n - 1] == entries[..n - 1];
    }
  }

  /** The entries of a sealed proof, by index. */
  lemma SealedEntries(h: Hash, b64: Base64, sign: Buffer -> Buffer, captureId: Buffer, gops: seq<Segment>, scales: Timescales,
                      entries: seq<SegmentEntry>, media: SignedMedia)
    requires SealedProof(h, b64, sign, captureId, gops, scales, entries, media)
    ensures forall n :: n in ByIndex(entries) <==> 0 <= n < |gops|
    ensures forall n | 0 <= n < |gops| :: ByIndex(entries)[n] == entries[n]
    ensures Sorted(ByIndex(entries).Keys) == Range(|gops|)
  {
    hide ByIndex, ChainEntry, RecordHash, SealedTimings, Sorted, LinkBefore;
    forall i | 0 <= i < |entries|
      ensures entries[i].gop == i
    {
      EntryGop(h, b64, sign, captureId, ContentsOf(gops), i);
    }
    ByIndexInOrder(entries, |entries|);
    assert entries[..|entries|] == entries;
    var keys := ByIndex(entries).Keys;
    forall n
      ensures n in keys <==> n in Elements(Range(|gops|))
    {
      if 0 <= n < |gops| {
        assert Range(|gops|)[n] == n;
      }
    }
    SortedRange(keys, |gops|);
    assert Sorted(keys) == Range(|gops|);
  }

  lemma EntryGop(h: Hash, b64: Base64, sign: Buffer -> Buffer, captureId: Buffer, contents: seq<Digest>, n: nat)
    requires |captureId| == 16 && n < |contents| <= Pow256(4)
    ensures ChainEntry(h, b64, sign, captureId, contents, n).gop == n
    ensures ChainEntry(h, b64, sign, captureId, contents, n).hash == b64.encode(contents[n])
    ensures ChainEntry(h, b64, sign, captureId, contents, n).timing == ""
  {
  }

  lemma SealedChainHolds(h: Hash, b64: Base64, verifies: Verifier, sign: Buffer -> Buffer, captureId: Buffer, gops: seq<Segment>, scales: Timescales,
                         entries: seq<SegmentEntry>, media: SignedMedia)
    requires SealedProof(h, b64, sign, captureId, gops, scales, entries, media)
    requires b64.Faithful() && forall m :: verifies(m, sign(m))
    ensures ChainHolds(h, b64, verifies, captureId, entries)
  {
    hide ByIndex, RecordHash, SealedTimings, Sorted, LinkBefore, EntryHolds;
    SealedEntries(h, b64, sign, captureId, gops, scales, entries, media);
    var signed := ByIndex(entries);
    var contents := ContentsOf(gops);
    forall k | k in signed
      ensures signed[k].gop == k && IsSigned(h, b64, sign, captureId, contents, signed[k])
    {
      EntryGop(h, b64, sign, captureId, contents, k);
      assert signed[k] == entries[k];
      assert entries[k].(timing := "") == ChainEntry(h, b64, sign, captureId, contents, k);
    }
    forall n | n in signed
      ensures EntryHolds(h, b64, verifies, captureId, signed, n)
    {
      SignedEntryHolds(h, b64, verifies, sign, captureId, contents, signed, n);
    }
  }

  lemma SealedTimingAuthenticated(h: Hash, b64: Base64, sign: Buffer -> Buffer, captureId: Buffer, gops: seq<Segment>, scales: Timescales,
                                  entries: seq<SegmentEntry>, media: SignedMedia)
    requires SealedProof(h, b64, sign, captureId, gops, scales, entries, media) && b64.Faithful()
    ensures TimingAuthenticated(h, b64, entries, media)
  {
    hide ByIndex, ChainEntry, RecordHash, Sorted, LinkBefore, TimingRecord, Concat;
    SealedEntries(h, b64, sign, captureId, gops, scales, entries, media);
    ByIndexKeys(entries);
    RangeSize(|gops|);
    RangeBounds(|gops|);
    assert GopIndices(entries) == Elements(Sorted(ByIndex(entries).Keys));
    SealedTimingsCarried(h, b64, sign, captureId, gops, scales, entries, media);
  }

  lemma RangeBounds(n: nat)
    ensures forall i | i in Elements(Range(n)) :: 0 <= i < n
  {
  }

  lemma SealedTimingsCarried(h: Hash, b64: Base64, sign: Buffer -> Buffer, captureId: Buffer, gops: seq<Segment>, scales: Timescales,
                             entries: seq<SegmentEntry>, media: SignedMedia)
    requires SealedProof(h, b64, sign, captureId, gops, scales, entries, media) && b64.Faithful()
    ensures EntryTimings(b64, entries) == SealedTimings(h, TimingsOf(gops))
  {
    hide ByIndex, ChainEntry, RecordHash, Sorted, LinkBefore, TimingRecord, Concat;
    SealedEntries(h, b64, sign, captureId, gops, scales, entries, media);
    var mine, theirs := EntryTimings(b64, entries), SealedTimings(h, TimingsOf(gops));
    forall n | 0 <= n < |gops|
      ensures mine[n] == theirs[n]
    {
      assert Range(|gops|)[n] == n;
      var hash := RecordHash(h, gops[n].timing);
      assert b64.decode(b64.encode(hash)) == hash;
      assert entries[n].timing == b64.encode(hash);
    }
    assert mine == theirs;
  }

  // ---- the cut file ----

  /** The GOPs of the reading are sealed segments `first`, `first + 1`, ..., at the sealed instants in whatever timescales. */
  ghost predicate ShowsSegments(gops: seq<Segment>, scales: Timescales, first: nat, reading: Reading)
    requires reading.Read?
  {
    && first + |reading.gops| <= |gops|
    && forall k | 0 <= k < |reading.gops| ::
         && SameNaming(gops[first + k], reading.gops[k])
         && SameInstants(reading.gops[k].timing, reading.timescales, gops[first + k].timing, scales)
  }

  lemma KeptIsBound(h: Hash, b64: Base64, sign: Buffer -> Buffer, captureId: Buffer, gops: seq<Segment>, scales: Timescales,
                    entries: seq<SegmentEntry>, media: SignedMedia, first: nat, reading: Reading)
    requires SealedProof(h, b64, sign, captureId, gops, scales, entries, media) && NamedInOrder(gops, captureId)
    requires reading.Read? && ShowsSegments(gops, scales, first, reading)
    ensures AllBound(b64, ByIndex(entries), captureId, reading.gops)
    ensures forall k | 0 <= k < |reading.gops| :: reading.gops[k].index == Some(first + k)
  {
    hide ByIndex, ChainEntry, RecordHash, SealedTimings, Sorted, TimingRecord, SameInstants;
    SealedEntries(h, b64, sign, captureId, gops, scales, entries, media);
    var kept := reading.gops;
    forall k | 0 <= k < |kept|
      ensures Bound(b64, ByIndex(entries), captureId, kept[k]) && kept[k].index == Some(first + k)
    {
      assert SameNaming(gops[first + k], kept[k]);
      EntryGop(h, b64, sign, captureId, ContentsOf(gops), first + k);
    }
  }

  lemma KeptIsShown(h: Hash, b64: Base64, sign: Buffer -> Buffer, captureId: Buffer, gops: seq<Segment>, scales: Timescales,
                    entries: seq<SegmentEntry>, media: SignedMedia, first: nat, reading: Reading)
    requires SealedProof(h, b64, sign, captureId, gops, scales, entries, media) && NamedInOrder(gops, captureId)
    requires reading.Read? && WellTimed(reading.gops) && ShowsSegments(gops, scales, first, reading) && NoEditTrims(reading)
    ensures ShownAsSigned(h, b64, entries, media, reading)
  {
    hide ByIndex, ChainEntry, SealedTimings, Sorted, TimingRecord, EditTrims, ReceivedTimingHash, SameInstants;
    SealedEntries(h, b64, sign, captureId, gops, scales, entries, media);
    forall k | 0 <= k < |reading.gops|
      ensures TimedAsListed(h, b64, entries, media, reading, reading.gops[k])
    {
      var gop, sealed := reading.gops[k], gops[first + k];
      assert SameNaming(sealed, gop) && SameInstants(gop.timing, reading.timescales, sealed.timing, scales);
      EqualInstantsEqualHashes(h, gop.timing, reading.timescales, sealed.timing, scales);
      assert entries[first + k].timing == b64.encode(RecordHash(h, sealed.timing));
    }
  }

  /**
   Every file that shows some of the sealed GOPs in a row at their instants, presents
   them as signed and does not trim them, reads *verified clip* with exactly those
   segments, whatever its timescales.
   */
  lemma KeptSegmentsVerify(h: Hash, b64: Base64, verifies: Verifier, sign: Buffer -> Buffer, captureId: Buffer, gops: seq<Segment>, scales: Timescales,
                           entries: seq<SegmentEntry>, media: SignedMedia, first: nat, reading: Reading, labels: seq<string>)
    requires b64.Faithful() && forall m :: verifies(m, sign(m))
    requires SealedProof(h, b64, sign, captureId, gops, scales, entries, media) && NamedInOrder(gops, captureId)
    requires reading.Read? && |reading.gops| > 0 && WellTimed(reading.gops) && ShowsSegments(gops, scales, first, reading)
    requires NoEditTrims(reading) && PresentedAsSigned(b64, media, reading)
    ensures var verdict := VerdictOf(h, b64, verifies, captureId, entries, media, true, reading, false, labels);
            verdict.outcome == VerifiedClip && verdict.verified == seq(|reading.gops|, k => first + k)
  {
    hide ByIndex, SealedProof, EditTrims, GopTimingProblem, VerdictOf, ChainHolds, TimingAuthenticated, PresentedAsSigned, ShownAsSigned, AllBound, SameInstants;
    SealedChainHolds(h, b64, verifies, sign, captureId, gops, scales, entries, media);
    SealedTimingAuthenticated(h, b64, sign, captureId, gops, scales, entries, media);
    KeptIsBound(h, b64, sign, captureId, gops, scales, entries, media, first, reading);
    KeptIsShown(h, b64, sign, captureId, gops, scales, entries, media, first, reading);
    ClipVerdictExact(h, b64, verifies, captureId, entries, media, reading, labels);
    assert SameNaming(gops[first], reading.gops[0]);
    assert Ours(reading.gops[0], captureId);
    assert Indices(reading.gops) == seq(|reading.gops|, k => first + k);
  }

  lemma GopsAreTimed(h: Hash, video: Track, audio: Option<Track>, units: seq<AccessUnit>, frames: seq<Frame>)
    requires GopsOf(h, video, audio, units, frames).Some?
    ensures WellTimed(GopsOf(h, video, audio, units, frames).value)
    ensures audio.None? ==> forall k | 0 <= k < |GopsOf(h, video, audio, units, frames).value| ::
              GopsOf(h, video, audio, units, frames).value[k].timing.audioDts == []
  {
    hide AllNals, HashedNals, SeisIn, ProblemIn, FrameBytes, VideoExtentOf, UnitsIn, StartsUpTo, TimingOf;
  }

  lemma GopEach(h: Hash, m: Media)
    requires GopsOf(h, m.video, m.audio, m.units, m.frames).Some?
    ensures |GopsOf(h, m.video, m.audio, m.units, m.frames).value| == |Starts(m.units)|
  {
    hide SegmentOf, FramesIn, UnitsIn, AllStored, StartsUpTo;
  }

  /** The cut in the sealed timescales, then any multiple of them: the surviving segments at their instants. */
  lemma CutShowsSegments(h: Hash, m: Media, cut: Media, g1: nat, g2: nat, c: nat, d: nat, audioShift: int, k: nat, l: nat, reading: Reading)
    requires IsCut(m, cut, g1, g2, c, d, audioShift) && UnitsInOrder(m.units) && ScalesOf(cut) == ScalesOf(m)
    requires Aligned(cut.video) && (cut.audio.Some? ==> Aligned(cut.audio.value)) && k > 0 && l > 0
    requires GopsOf(h, m.video, m.audio, m.units, m.frames).Some?
    requires var r := RescaledMedia(cut, k, l); reading.Read? && Some(reading.gops) == GopsOf(h, r.video, r.audio, r.units, r.frames) && reading.timescales == ScalesOf(r)
    ensures |reading.gops| == g2 - g1 && ShowsSegments(GopsOf(h, m.video, m.audio, m.units, m.frames).value, ScalesOf(m), g1, reading)
  {
    GopEach(h, m);
    assert g2 <= |Starts(m.units)|;
    hide IsCut, StartsUpTo, SegmentOf, GopsOf, SameInstants, ScalesOf, RescaledMedia;
    CutKeepsGops(h, m, cut, g1, g2, c, d, audioShift);
    RescaledKeepsGops(h, cut, k, l);
    var gops, kept := GopsOf(h, m.video, m.audio, m.units, m.frames).value, GopsOf(h, cut.video, cut.audio, cut.units, cut.frames).value;
    forall n | 0 <= n < g2 - g1
      ensures SameNaming(gops[g1 + n], reading.gops[n]) && SameInstants(reading.gops[n].timing, reading.timescales, gops[g1 + n].timing, ScalesOf(m))
    {
      assert SameSegment(gops[g1 + n], kept[n]);
    }
  }

  /**
   Cut any number of whole GOPs off the front and the back of the sealed media, with the
   audio that goes with them, keep what is left at its instants, in the sealed
   timescales or multiples of them, and the verdict is *verified clip* over exactly the
   surviving indices.
   */
  lemma CutVerifies(h: Hash, b64: Base64, verifies: Verifier, sign: Buffer -> Buffer, captureId: Buffer, m: Media, cut: Media,
                    g1: nat, g2: nat, c: nat, d: nat, audioShift: int, k: nat, l: nat,
                    entries: seq<SegmentEntry>, media: SignedMedia, reading: Reading, labels: seq<string>)
    requires b64.Faithful() && forall m :: verifies(m, sign(m))
    requires IsCut(m, cut, g1, g2, c, d, audioShift) && UnitsInOrder(m.units) && ScalesOf(cut) == ScalesOf(m)
    requires Aligned(cut.video) && (cut.audio.Some? ==> Aligned(cut.audio.value)) && k > 0 && l > 0
    requires GopsOf(h, m.video, m.audio, m.units, m.frames).Some?
    requires var gops := GopsOf(h, m.video, m.audio, m.units, m.frames).value;
             SealedProof(h, b64, sign, captureId, gops, ScalesOf(m), entries, media) && NamedInOrder(gops, captureId)
    requires var r := RescaledMedia(cut, k, l); reading.Read? && Some(reading.gops) == GopsOf(h, r.video, r.audio, r.units, r.frames) && reading.timescales == ScalesOf(r)
    requires NoEditTrims(reading) && PresentedAsSigned(b64, media, reading)
    ensures WellTimed(reading.gops)
    ensures var verdict := VerdictOf(h, b64, verifies, captureId, entries, media, true, reading, false, labels);
            verdict.outcome == VerifiedClip && verdict.verified == seq(g2 - g1, n => g1 + n)
  {
    hide SealedProof, EditTrims, VerdictOf, PresentedAsSigned, StartsUpTo, SegmentOf, GopsOf, ScalesOf, RescaledMedia, SameInstants, ShowsSegments, NoEditTrims;
    var r := RescaledMedia(cut, k, l);
    CutShowsSegments(h, m, cut, g1, g2, c, d, audioShift, k, l, reading);
    GopsAreTimed(h, r.video, r.audio, r.units, r.frames);
    KeptSegmentsVerify(h, b64, verifies, sign, captureId, GopsOf(h, m.video, m.audio, m.units, m.frames).value, ScalesOf(m), entries, media, g1, reading, labels);
  }

  // ---- from the sample tables up ----

  /** The track's samples are those its tables place. */
  predicate FromTables(track: Track, t: Tables) {
    Samples(t) == Some(track.samples)
  }

  /** Units and frames of a file's tracks. */
  function MediaOf(file: Buffer, video: Track, audio: Option<Track>): Media
    requires video.lengthSize > 0 && UnitsReadable(file, video)
  {
    Media(video, audio, UnitsOf(file, video), if audio.Some? then FramesOf(file, audio.value.samples) else [])
  }

  /** Decode times read from sample tables never go back, so the units are in order. */
  lemma UnitsFromTables(file: Buffer, video: Track, t: Tables)
    requires video.lengthSize > 0 && UnitsReadable(file, video) && FromTables(video, t)
    ensures UnitsInOrder(UnitsOf(file, video))
  {
    SamplesDts(t);
    hide Samples, DtsArePrefixSums, Nals, HasIdr;
    var units := UnitsOf(file, video);
    forall i, j | 0 <= i <= j < |units|
      ensures units[i].dts <= units[j].dts
    {
      SamplesInOrder(video.samples, i, j);
      assert UnitOf(file, video, video.samples[i]).Some? && UnitOf(file, video, video.samples[j]).Some?;
    }
  }

  lemma FramesFromTables(file: Buffer, audio: Track, t: Tables)
    requires FromTables(audio, t)
    ensures FramesInOrder(FramesOf(file, audio.samples))
  {
    SamplesDts(t);
    hide Samples, DtsArePrefixSums;
    var frames := FramesOf(file, audio.samples);
    forall i, j | 0 <= i <= j < |frames|
      ensures frames[i].dts <= frames[j].dts
    {
      SamplesInOrder(audio.samples, i, j);
    }
  }

  /** What a reading is, said of the media. */
  lemma ReadingOfMedia(h: Hash, file: Buffer, video: Track, audio: Option<Track>, presentation: Option<Presentation>, layout: Option<string>)
    requires video.lengthSize > 0 && ReadingOf(h, file, Some(video), audio, presentation, layout).Read?
    ensures UnitsReadable(file, video)
    ensures var reading, m := ReadingOf(h, file, Some(video), audio, presentation, layout), MediaOf(file, video, audio);
            GopsOf(h, m.video, m.audio, m.units, m.frames) == Some(reading.gops) && reading.timescales == ScalesOf(m)
  {
    hide GopsOf, UnitsOf, UnitsReadable;
  }

  /** The audio of a file read from its tables: the GOPs share out exactly the frames from the first GOP's instant on. */
  lemma FileAudioSharedOut(file: Buffer, video: Track, videoTables: Tables, audio: Track, audioTables: Tables)
    requires video.lengthSize > 0 && UnitsReadable(file, video) && |video.samples| > 0
    requires Aligned(video) && Aligned(audio) && FromTables(video, videoTables) && FromTables(audio, audioTables)
    ensures var units, frames := UnitsOf(file, video), FramesOf(file, audio.samples);
            && |units| > 0 && |Starts(units)| > 0
            && FramesUpTo(video, audio, units, frames, |Starts(units)|) == Chosen(audio, frames, InstantOf(video, units[0].dts), None)
  {
    hide FromTables, UnitOf, UnitsReadable, Aligned, Chosen, InstantOf, Starts, FramesUpTo;
    UnitsFromTables(file, video, videoTables);
    FramesFromTables(file, audio, audioTables);
    AudioSharedOut(video, audio, UnitsOf(file, video), FramesOf(file, audio.samples));
  }

  /**
   Clip completeness from the sample tables up: `file` was sealed over its own reading;
   `clip` is read as a cut of its media, in the sealed timescales or multiples of them.
   */
  lemma CutFileVerifies(h: Hash, b64: Base64, verifies: Verifier, sign: Buffer -> Buffer, captureId: Buffer,
                        file: Buffer, video: Track, videoTables: Tables, audio: Option<Track>, presentation: Option<Presentation>, layout: Option<string>,
                        clip: Buffer, clipVideo: Track, clipAudio: Option<Track>, clipPresentation: Option<Presentation>, clipLayout: Option<string>,
                        cut: Media, g1: nat, g2: nat, c: nat, d: nat, audioShift: int, k: nat, l: nat,
                        entries: seq<SegmentEntry>, media: SignedMedia, labels: seq<string>)
    requires b64.Faithful() && forall m :: verifies(m, sign(m))
    requires video.lengthSize > 0 && FromTables(video, videoTables) && UnitsReadable(file, video)
    requires var sealed := ReadingOf(h, file, Some(video), audio, presentation, layout);
             sealed.Read? && SealedProof(h, b64, sign, captureId, sealed.gops, sealed.timescales, entries, media) && NamedInOrder(sealed.gops, captureId)
    requires var m := MediaOf(file, video, audio); IsCut(m, cut, g1, g2, c, d, audioShift) && ScalesOf(cut) == ScalesOf(m)
    requires Aligned(cut.video) && (cut.audio.Some? ==> Aligned(cut.audio.value)) && k > 0 && l > 0
    requires clipVideo.lengthSize > 0 && UnitsReadable(clip, clipVideo) && MediaOf(clip, clipVideo, clipAudio) == RescaledMedia(cut, k, l)
    requires var reading := ReadingOf(h, clip, Some(clipVideo), clipAudio, clipPresentation, clipLayout);
             reading.Read? && NoEditTrims(reading) && PresentedAsSigned(b64, media, reading)
    ensures var reading := ReadingOf(h, clip, Some(clipVideo), clipAudio, clipPresentation, clipLayout);
            && WellTimed(reading.gops)
            && var verdict := VerdictOf(h, b64, verifies, captureId, entries, media, true, reading, false, labels);
            && verdict.outcome == VerifiedClip && verdict.verified == seq(g2 - g1, n => g1 + n)
  {
    hide SealedProof, VerdictOf, PresentedAsSigned, NoEditTrims, IsCut, GopsOf, ScalesOf, RescaledMedia, ReadingOf, UnitsReadable, FromTables, NamedInOrder, UnitsOf, FramesOf;
    ReadingOfMedia(h, file, video, audio, presentation, layout);
    ReadingOfMedia(h, clip, clipVideo, clipAudio, clipPresentation, clipLayout);
    UnitsFromTables(file, video, videoTables);
    CutVerifies(h, b64, verifies, sign, captureId, MediaOf(file, video, audio), cut, g1, g2, c, d, audioShift, k, l, entries, media,
                ReadingOf(h, clip, Some(clipVideo), clipAudio, clipPresentation, clipLayout), labels);
  }
}

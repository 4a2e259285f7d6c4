/**
 The writer and the reader meet: a re-mux that keeps a run of whole GOPs, and the audio
 that goes with them, is read back as a cut of the sealed media, so the verifier answers
 *verified clip* over it (tools/src/remux.ts, tools/src/container.ts, tools/src/verify.ts).
 */
module RemuxCut {
  import opened ByteStrings
  import opened Primitives
  import opened SampleTables
  import opened TableBytes
  import opened Timing
  import opened Nal
  import opened Gops
  import opened Timeline
  import opened ClipCut
  import opened Rescaling
  import opened Segments
  import opened Binding
  import opened Verdict
  import opened ClipSoundness
  import opened ClipCompleteness
  import opened Remux

  /** The plan keeps samples `a` up to `b` as they are: their bytes, durations and composition offsets. */
  predicate KeepsRange(source: Source, plan: Plan, a: nat, b: nat)
    requires Plannable(source, plan)
  {
    && a <= b && |plan.samples| == b - a && plan.timescale.None?
    && forall n | 0 <= n < b - a ::
         && plan.samples[n] == a + n && a + n !in plan.replace
         && NewDuration(source, plan, n) == Deltas(source.tables)[a + n]
         && (if plan.cts.None? then 0 else plan.cts.value[n]) == OffsetOf(CompositionOffsets(source.tables), a + n)
  }

  /** The track a reader finds: the plan's delay, the media from its start, the samples of the new tables. */
  function ClipTrack(track: Track, delay: nat, movieScale: nat, edit: Option<MediaEdit>, samples: seq<Sample>): Track {
    track.(delayNum := delay, delayDen := if delay > 0 then movieScale else 1, mediaStart := 0, mediaEdit := edit, unsupportedEdit := None, samples := samples)
  }

  /** The delay shows the media from `shift` on where the original shows it. */
  predicate DelayKeeps(track: Track, delay: nat, movieScale: nat, shift: int) {
    Aligned(track) && movieScale > 0 && InstantOf(track, shift).den > 0
    && delay as real / movieScale as real == Seconds(InstantOf(track, shift))
  }

  lemma DelayKeepsInstants(track: Track, delay: nat, movieScale: nat, edit: Option<MediaEdit>, samples: seq<Sample>, shift: int)
    requires DelayKeeps(track, delay, movieScale, shift)
    ensures KeepsInstants(track, ClipTrack(track, delay, movieScale, edit, samples), shift)
  {
    InstantSeconds(ClipTrack(track, delay, movieScale, edit, samples), 0);
  }

  // ---- one track ----

  lemma {:induction false} DtsFrom(deltas: seq<nat>, durations: seq<nat>, a: nat, n: nat)
    requires n <= |durations| && a + n <= |deltas| && forall i | 0 <= i < |durations| && a + i < |deltas| :: durations[i] == deltas[a + i]
    ensures DtsOf(deltas, a + n) == DtsOf(deltas, a) + Sum(durations[..n])
  {
    if n > 0 {
      DtsFrom(deltas, durations, a, n - 1);
      assert durations[..n][..n - 1] == durations[..n - 1];
    }
  }

  /** Sample `n` of the clip is sample `a + n` of the source, decoded from 0 on. */
  predicate SameSample(file: Buffer, original: Sample, clip: Buffer, kept: Sample, shift: int) {
    && Gops.Stored(clip, kept) == Gops.Stored(file, original)
    && kept.duration == original.duration && kept.cts == original.cts && kept.dts + shift == original.dts
  }

  /** The samples read back from the part's new tables. */
  ghost predicate ReadsBack(head: Buffer, parts: seq<Part>, movieScale: nat, k: nat, samples: seq<Sample>)
    requires PartsFit(parts, movieScale) && k < |parts| && parts[k].Planned?
  {
    var source, plan := parts[k].source, parts[k].plan;
    assert PartFits(source, plan, movieScale);
    var tables := ReadTables(TablePayloads(source, plan, NewOffsets(source, plan, Start(parts, |head|, MoovSize(parts, movieScale, |head|), k))));
    tables.Some? && FromSamples(samples, tables.value)
  }

  predicate FromSamples(samples: seq<Sample>, t: Tables) {
    Samples(t) == Some(samples)
  }

  /** A part whose plan keeps a range of samples that lie in the head. */
  ghost predicate CutPart(head: Buffer, parts: seq<Part>, movieScale: nat, k: nat, a: nat, b: nat) {
    && Fits(parts, movieScale, |head|) && k < |parts| && parts[k].Planned?
    && PartFits(parts[k].source, parts[k].plan, movieScale) && BeforeMoov(parts[k].source, parts[k].plan, |head|)
    && KeepsRange(parts[k].source, parts[k].plan, a, b)
  }

  lemma KeptSample(file: Buffer, head: Buffer, parts: seq<Part>, movieScale: nat, k: nat, a: nat, b: nat, samples: seq<Sample>, n: nat)
    requires head <= file && CutPart(head, parts, movieScale, k, a, b) && ReadsBack(head, parts, movieScale, k, samples) && n < b - a
    ensures var original := Samples(parts[k].source.tables).value;
            && |samples| == b - a && a + n < |original|
            && SameSample(file, original[a + n], Remuxed(head, parts, movieScale), samples[n], DtsOf(Deltas(parts[k].source.tables), a))
  {
    var source, plan := parts[k].source, parts[k].plan;
    ReadPlays(head, parts, movieScale, k, samples);
    hide Fits, PartFits, PartsFit, ReadsBack, Remuxed, MoovSize, Start, NewOffset, KeepsRange, Plays, SameSample, BeforeMoov, Plannable;
    var offsets := NewOffsets(source, plan, Start(parts, |head|, MoovSize(parts, movieScale, |head|), k));
    PlaysKept(file, head, source, plan, offsets, Remuxed(head, parts, movieScale), a, b, samples, n);
  }

  lemma ReadPlays(head: Buffer, parts: seq<Part>, movieScale: nat, k: nat, samples: seq<Sample>)
    requires Fits(parts, movieScale, |head|) && k < |parts| && parts[k].Planned?
    requires PartFits(parts[k].source, parts[k].plan, movieScale) && BeforeMoov(parts[k].source, parts[k].plan, |head|)
    requires ReadsBack(head, parts, movieScale, k, samples)
    ensures var source, plan := parts[k].source, parts[k].plan;
            var offsets := NewOffsets(source, plan, Start(parts, |head|, MoovSize(parts, movieScale, |head|), k));
            |samples| == |plan.samples| && forall n | 0 <= n < |samples| :: Plays(head, source, plan, offsets, Remuxed(head, parts, movieScale), samples, n)
  {
    hide Fits, PartFits, PartsFit, Remuxed, MoovSize, Start, TablePayloads, ReadTables, NewOffset, Plays, BeforeMoov, Samples, Plannable;
    RemuxPlaysThePlan(head, parts, movieScale, k);
  }

  lemma PlaysKept(file: Buffer, head: Buffer, source: Source, plan: Plan, offsets: seq<nat>, out: Buffer, a: nat, b: nat, samples: seq<Sample>, n: nat)
    requires head <= file && Plannable(source, plan) && BeforeMoov(source, plan, |head|) && KeepsRange(source, plan, a, b)
    requires n < |plan.samples| == |offsets| == |samples| && Plays(head, source, plan, offsets, out, samples, n)
    ensures a + n < |Samples(source.tables).value|
    ensures SameSample(file, Samples(source.tables).value[a + n], out, samples[n], DtsOf(Deltas(source.tables), a))
  {
    KeptTimes(source, plan, a, b, n);
    assert plan.samples[n] == a + n;
    hide Samples, Deltas, CompositionOffsets, NewDuration, DurationOf, Sum, OffsetOf, DtsOf;
    SampleIs(source.tables, a + n);
    var original := Samples(source.tables).value[a + n];
    assert original.offset + original.size <= |head|;
    assert file[original.offset..original.offset + original.size] == head[original.offset..original.offset + original.size];
  }

  lemma SampleIs(t: Tables, i: nat)
    requires Samples(t).Some? && i < |Samples(t).value|
    ensures var s := Samples(t).value[i];
            s.dts == DtsOf(Deltas(t), i) && s.duration == DurationOf(Deltas(t), i) && s.cts == OffsetOf(CompositionOffsets(t), i)
  {
    hide Places, Deltas, CompositionOffsets;
  }

  lemma KeptTimes(source: Source, plan: Plan, a: nat, b: nat, n: nat)
    requires Plannable(source, plan) && KeepsRange(source, plan, a, b) && n < b - a
    ensures Sum(NewDurations(source, plan)[..n]) + DtsOf(Deltas(source.tables), a) == DtsOf(Deltas(source.tables), a + n)
    ensures a + n < |Deltas(source.tables)| && NewDuration(source, plan, n) == DurationOf(Deltas(source.tables), a + n)
  {
    hide Samples, Deltas, CompositionOffsets, NewDuration;
    assert plan.samples[n] == a + n;
    DtsFrom(Deltas(source.tables), NewDurations(source, plan), a, n);
  }

  ghost predicate SameSamples(file: Buffer, original: seq<Sample>, a: nat, b: nat, clip: Buffer, kept: seq<Sample>, shift: int) {
    && a <= b <= |original| && |kept| == b - a
    && forall n | 0 <= n < b - a :: SameSample(file, original[a + n], clip, kept[n], shift)
  }

  /** All of a part's samples, read back. */
  lemma PartKept(file: Buffer, head: Buffer, parts: seq<Part>, movieScale: nat, k: nat, a: nat, b: nat, samples: seq<Sample>)
    requires head <= file && CutPart(head, parts, movieScale, k, a, b) && ReadsBack(head, parts, movieScale, k, samples)
    requires b <= |Samples(parts[k].source.tables).value|
    ensures SameSamples(file, Samples(parts[k].source.tables).value, a, b, Remuxed(head, parts, movieScale), samples, ShiftOf(parts[k].source, a))
  {
    ReadPlays(head, parts, movieScale, k, samples);
    assert |samples| == b - a;
    hide CutPart, ReadsBack, SameSample;
    forall n | 0 <= n < b - a
      ensures SameSample(file, Samples(parts[k].source.tables).value[a + n], Remuxed(head, parts, movieScale), samples[n], ShiftOf(parts[k].source, a))
    {
      KeptSample(file, head, parts, movieScale, k, a, b, samples, n);
    }
  }

  lemma UnitKept(file: Buffer, video: Track, original: Sample, clip: Buffer, clipVideo: Track, kept: Sample, shift: int)
    requires video.lengthSize > 0 && clipVideo.lengthSize == video.lengthSize && clipVideo.hevc == video.hevc
    requires UnitOf(file, video, original).Some? && SameSample(file, original, clip, kept, shift)
    ensures UnitOf(clip, clipVideo, kept).Some? && SameUnit(UnitOf(file, video, original).value, UnitOf(clip, clipVideo, kept).value, shift)
  {
    hide Nals, HasIdr;
  }

  lemma UnitsOfKept(file: Buffer, video: Track, a: nat, b: nat, clip: Buffer, clipVideo: Track, shift: int)
    requires video.lengthSize > 0 && clipVideo.lengthSize == video.lengthSize && clipVideo.hevc == video.hevc && UnitsReadable(file, video)
    requires SameSamples(file, video.samples, a, b, clip, clipVideo.samples, shift)
    ensures UnitsReadable(clip, clipVideo) && SameUnits(UnitsOf(file, video)[a..b], UnitsOf(clip, clipVideo), shift)
  {
    hide UnitOf, SameUnit, SameSample;
    forall n | 0 <= n < b - a
      ensures UnitOf(clip, clipVideo, clipVideo.samples[n]).Some?
      ensures SameUnit(UnitOf(file, video, video.samples[a + n]).value, UnitOf(clip, clipVideo, clipVideo.samples[n]).value, shift)
    {
      assert UnitOf(file, video, video.samples[a + n]).Some?;
      UnitKept(file, video, video.samples[a + n], clip, clipVideo, clipVideo.samples[n], shift);
    }
  }

  lemma FramesOfKept(file: Buffer, original: seq<Sample>, c: nat, d: nat, clip: Buffer, kept: seq<Sample>, shift: int)
    requires SameSamples(file, original, c, d, clip, kept, shift)
    ensures SameFrames(FramesOf(file, original)[c..d], FramesOf(clip, kept), shift)
  {
    hide SameSample;
    forall n | 0 <= n < d - c
      ensures SameFrame(FrameOf(file, original[c + n]), FrameOf(clip, kept[n]), shift)
    {
      assert SameSample(file, original[c + n], clip, kept[n], shift);
      SameSampleFrame(file, original[c + n], clip, kept[n], shift);
    }
  }

  lemma SameSampleFrame(file: Buffer, original: Sample, clip: Buffer, kept: Sample, shift: int)
    requires SameSample(file, original, clip, kept, shift)
    ensures SameFrame(FrameOf(file, original), FrameOf(clip, kept), shift)
  {
  }

  // ---- both tracks ----

  /** A track of the sealed file is the part's source. */
  predicate IsSource(track: Track, source: Source) {
    FromTables(track, source.tables) && track.timescale == source.timescale
  }

  /** The media time at sample `a`, where the plan's delay has to put the clip's media start. */
  function ShiftOf(source: Source, a: nat): nat {
    DtsOf(Deltas(source.tables), a)
  }

  /**
   The plan of an honest cut: GOPs `g1` up to `g2` of the video part, frames `c` up to `d` of
   the audio part, each kept as it is and delayed so that it is shown when it was.
   */
  ghost predicate CutPlan(head: Buffer, parts: seq<Part>, movieScale: nat, kv: nat, ka: nat, m: Media, g1: nat, g2: nat, c: nat, d: nat) {
    && g1 < g2 <= |Starts(m.units)|
    && CutPart(head, parts, movieScale, kv, Boundary(m.units, g1), Boundary(m.units, g2)) && IsSource(m.video, parts[kv].source)
    && (m.audio.Some? ==>
          && CutPart(head, parts, movieScale, ka, c, d) && IsSource(m.audio.value, parts[ka].source)
          && c <= d <= |m.frames| && Boundary(m.units, g1) < Boundary(m.units, g2) && AudioCutAt(m, Boundary(m.units, g1), Boundary(m.units, g2), c, d)
          && DelayKeeps(m.audio.value, parts[ka].plan.delay, movieScale, ShiftOf(parts[ka].source, c)))
    && DelayKeeps(m.video, parts[kv].plan.delay, movieScale, ShiftOf(parts[kv].source, Boundary(m.units, g1)))
  }

  /** The clip's tracks, as a reader finds them in the re-muxed file. */
  ghost predicate ClipTracks(head: Buffer, parts: seq<Part>, movieScale: nat, kv: nat, ka: nat, m: Media, clipVideo: Track, clipAudio: Option<Track>)
    requires PartsFit(parts, movieScale) && kv < |parts| && parts[kv].Planned? && (m.audio.Some? ==> ka < |parts| && parts[ka].Planned?)
  {
    && clipVideo == ClipTrack(m.video, parts[kv].plan.delay, movieScale, clipVideo.mediaEdit, clipVideo.samples)
    && ReadsBack(head, parts, movieScale, kv, clipVideo.samples)
    && (clipAudio.Some? <==> m.audio.Some?)
    && (m.audio.Some? ==>
          && clipAudio.value == ClipTrack(m.audio.value, parts[ka].plan.delay, movieScale, clipAudio.value.mediaEdit, clipAudio.value.samples)
          && ReadsBack(head, parts, movieScale, ka, clipAudio.value.samples))
  }

  lemma VideoIsCut(file: Buffer, head: Buffer, parts: seq<Part>, movieScale: nat, kv: nat, video: Track, g1: nat, g2: nat, clipVideo: Track)
    requires head <= file && video.lengthSize > 0 && UnitsReadable(file, video)
    requires g1 < g2 <= |Starts(UnitsOf(file, video))|
    requires CutPart(head, parts, movieScale, kv, Boundary(UnitsOf(file, video), g1), Boundary(UnitsOf(file, video), g2)) && IsSource(video, parts[kv].source)
    requires ReadsBack(head, parts, movieScale, kv, clipVideo.samples) && clipVideo.lengthSize == video.lengthSize && clipVideo.hevc == video.hevc
    ensures var units, clip := UnitsOf(file, video), Remuxed(head, parts, movieScale);
            var a, b := Boundary(units, g1), Boundary(units, g2);
            && a < b && units[a].dts == ShiftOf(parts[kv].source, a)
            && UnitsReadable(clip, clipVideo) && SameUnits(units[a..b], UnitsOf(clip, clipVideo), units[a].dts)
  {
    var units := UnitsOf(file, video);
    var a, b := Boundary(units, g1), Boundary(units, g2);
    StartsPartition(units, |units|);
    assert a < b;
    assert UnitOf(file, video, video.samples[a]).Some? && units[a].dts == video.samples[a].dts;
    SampleIs(parts[kv].source.tables, a);
    hide CutPart, ReadsBack, UnitsOf, UnitsReadable, SameUnits, Remuxed, StartsUpTo;
    PartKept(file, head, parts, movieScale, kv, a, b, clipVideo.samples);
    UnitsOfKept(file, video, a, b, Remuxed(head, parts, movieScale), clipVideo, ShiftOf(parts[kv].source, a));
  }

  lemma AudioIsCut(file: Buffer, head: Buffer, parts: seq<Part>, movieScale: nat, ka: nat, audio: Track, c: nat, d: nat, clipAudio: Track)
    requires head <= file && CutPart(head, parts, movieScale, ka, c, d) && IsSource(audio, parts[ka].source)
    requires c <= d <= |audio.samples| && ReadsBack(head, parts, movieScale, ka, clipAudio.samples)
    ensures SameFrames(FramesOf(file, audio.samples)[c..d], FramesOf(Remuxed(head, parts, movieScale), clipAudio.samples), ShiftOf(parts[ka].source, c))
  {
    assert audio.samples == Samples(parts[ka].source.tables).value;
    hide CutPart, ReadsBack, Remuxed, SameFrames, SameSamples, FramesOf;
    PartKept(file, head, parts, movieScale, ka, c, d, clipAudio.samples);
    FramesOfKept(file, audio.samples, c, d, Remuxed(head, parts, movieScale), clipAudio.samples, ShiftOf(parts[ka].source, c));
  }

  /** What a reader finds in the re-muxed file is the cut the plan describes. */
  lemma RemuxIsCut(file: Buffer, head: Buffer, parts: seq<Part>, movieScale: nat, kv: nat, ka: nat, video: Track, audio: Option<Track>,
                   g1: nat, g2: nat, c: nat, d: nat, clipVideo: Track, clipAudio: Option<Track>)
    requires head <= file && video.lengthSize > 0 && UnitsReadable(file, video)
    requires CutPlan(head, parts, movieScale, kv, ka, MediaOf(file, video, audio), g1, g2, c, d)
    requires PartsFit(parts, movieScale) && ClipTracks(head, parts, movieScale, kv, ka, MediaOf(file, video, audio), clipVideo, clipAudio)
    ensures var clip := Remuxed(head, parts, movieScale);
            && clipVideo.lengthSize > 0 && UnitsReadable(clip, clipVideo)
            && IsCut(MediaOf(file, video, audio), MediaOf(clip, clipVideo, clipAudio), g1, g2, c, d, if audio.Some? then ShiftOf(parts[ka].source, c) else 0)
            && ScalesOf(MediaOf(clip, clipVideo, clipAudio)) == ScalesOf(MediaOf(file, video, audio))
            && Aligned(clipVideo) && (clipAudio.Some? ==> Aligned(clipAudio.value))
  {
    var m := MediaOf(file, video, audio);
    var a := Boundary(m.units, g1);
    hide CutPart, ReadsBack, UnitsReadable, UnitsOf, FramesOf, SameUnits, SameFrames, Remuxed, Boundary, Starts, AudioCutAt, KeepsInstants, PartsFit, InstantOf, FromTables, ShiftOf;
    VideoIsCut(file, head, parts, movieScale, kv, video, g1, g2, clipVideo);
    DelayKeepsInstants(video, parts[kv].plan.delay, movieScale, clipVideo.mediaEdit, clipVideo.samples, ShiftOf(parts[kv].source, a));
    if audio.Some? {
      AudioIsCut(file, head, parts, movieScale, ka, audio.value, c, d, clipAudio.value);
      DelayKeepsInstants(audio.value, parts[ka].plan.delay, movieScale, clipAudio.value.mediaEdit, clipAudio.value.samples, ShiftOf(parts[ka].source, c));
    }
  }

  /**
   Re-muxing whole GOPs with their audio and reading the result: *verified clip* over
   exactly the GOPs the plan kept, when the file presents them as signed and no edit
   trims them.
   */
  lemma RemuxedCutVerifies(h: Hash, b64: Base64, verifies: Verifier, sign: Buffer -> Buffer, captureId: Buffer,
                           file: Buffer, video: Track, audio: Option<Track>, presentation: Option<Presentation>, layout: Option<string>,
                           head: Buffer, parts: seq<Part>, movieScale: nat, kv: nat, ka: nat, g1: nat, g2: nat, c: nat, d: nat,
                           clipVideo: Track, clipAudio: Option<Track>, clipPresentation: Option<Presentation>, clipLayout: Option<string>,
                           entries: seq<SegmentEntry>, media: SignedMedia, labels: seq<string>)
    requires b64.Faithful() && forall m :: verifies(m, sign(m))
    requires head <= file && video.lengthSize > 0 && UnitsReadable(file, video)
    requires var sealed := ReadingOf(h, file, Some(video), audio, presentation, layout);
             sealed.Read? && SealedProof(h, b64, sign, captureId, sealed.gops, sealed.timescales, entries, media) && NamedInOrder(sealed.gops, captureId)
    requires CutPlan(head, parts, movieScale, kv, ka, MediaOf(file, video, audio), g1, g2, c, d)
    requires PartsFit(parts, movieScale) && ClipTracks(head, parts, movieScale, kv, ka, MediaOf(file, video, audio), clipVideo, clipAudio)
    requires clipVideo.lengthSize > 0
    requires var reading := ReadingOf(h, Remuxed(head, parts, movieScale), Some(clipVideo), clipAudio, clipPresentation, clipLayout);
             reading.Read? && NoEditTrims(reading) && PresentedAsSigned(b64, media, reading)
    ensures var reading := ReadingOf(h, Remuxed(head, parts, movieScale), Some(clipVideo), clipAudio, clipPresentation, clipLayout);
            && WellTimed(reading.gops)
            && var verdict := VerdictOf(h, b64, verifies, captureId, entries, media, true, reading, false, labels);
            && verdict.outcome == VerifiedClip && verdict.verified == seq(g2 - g1, n => g1 + n)
  {
    PlanHasSource(head, parts, movieScale, kv, ka, MediaOf(file, video, audio), g1, g2, c, d);
    RemuxIsCut(file, head, parts, movieScale, kv, ka, video, audio, g1, g2, c, d, clipVideo, clipAudio);
    hide CutPlan, ClipTracks, SealedProof, VerdictOf, PresentedAsSigned, NoEditTrims, IsCut, ScalesOf, RescaledMedia, ReadingOf, UnitsReadable, FromTables, NamedInOrder, MediaOf, Remuxed, PartsFit, Aligned;
    var cut := MediaOf(Remuxed(head, parts, movieScale), clipVideo, clipAudio);
    RescaledByOne(cut);
    CutFileVerifies(h, b64, verifies, sign, captureId, file, video, parts[kv].source.tables, audio, presentation, layout,
                    Remuxed(head, parts, movieScale), clipVideo, clipAudio, clipPresentation, clipLayout,
                    cut, g1, g2, c, d, if audio.Some? then ShiftOf(parts[ka].source, c) else 0, 1, 1, entries, media, labels);
  }

  lemma PlanHasSource(head: Buffer, parts: seq<Part>, movieScale: nat, kv: nat, ka: nat, m: Media, g1: nat, g2: nat, c: nat, d: nat)
    requires CutPlan(head, parts, movieScale, kv, ka, m, g1, g2, c, d)
    ensures kv < |parts| && parts[kv].Planned? && FromTables(m.video, parts[kv].source.tables)
    ensures m.audio.Some? ==> ka < |parts| && parts[ka].Planned?
  {
    hide AudioCutAt, KeepsRange, BeforeMoov, PartFits, Fits, DelayKeeps, Boundary, Starts, Samples;
  }
}

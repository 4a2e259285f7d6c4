/**
 From bytes to verdict: the re-muxed file is walked, its tracks are read, and they are the
 cut its plan asked for (tools/src/remux.ts, tools/src/container.ts, tools/src/verify.ts).
 */
module RemuxReads {
  import opened ByteStrings
  import opened Primitives
  import opened SampleTables
  import opened TableBytes
  import opened Timing
  import opened Gops
  import opened ClipCut
  import opened Segments
  import opened Verdict
  import opened ClipSoundness
  import opened ClipCompleteness
  import opened Remux
  import opened RemuxCut
  import opened WrittenEdits
  import opened BoxWalk
  import opened EditLists
  import opened RemuxWalk

  /** A track read from its `trak` box; `shape` has what the copied boxes say, its timescale and codec. None where the tables cannot be read. */
  function TrackIn(file: Buffer, trak: FoundBox, shape: Track, movieScale: nat): Option<Track>
    requires trak.end <= |file|
  {
    var stbl := StblOf(file, trak);
    if stbl.None? then None
    else
      var payloads := PayloadsOf(file, stbl.value);
      if payloads.None? then None
      else
        var tables := ReadTables(payloads.value);
        if tables.None? then None else Assembled(shape, Samples(tables.value), EditsOf(file, trak, movieScale), movieScale)
  }

  function Assembled(shape: Track, samples: Option<seq<Sample>>, edits: Option<Edits>, movieScale: nat): Option<Track> {
    if samples.None? || edits.None? then None
    else
      var e := edits.value;
      Some(shape.(delayNum := e.delayNum, delayDen := e.delayDen, mediaStart := e.mediaStart,
                  mediaEdit := if e.mediaEdit.None? then None else Some(MediaEdit(e.mediaEdit.value.mediaTime, e.mediaEdit.value.duration, movieScale, shape.timescale)),
                  unsupportedEdit := e.unsupported, samples := samples.value))
  }

  /** Child `k` of the file's `moov`, read as a track. */
  function TrackAt(file: Buffer, k: nat, shape: Track, movieScale: nat): Option<Track> {
    var moov := MoovOf(file);
    if moov.None? then None
    else
      var kids := Children(file, moov.value);
      if kids.None? || k >= |kids.value| || kids.value[k].name != TRAK || kids.value[k].end > |file| then None
      else TrackIn(file, kids.value[k], shape, movieScale)
  }

  /** The track a reader finds where part `k` was planned: the plan's samples, delay and edit. */
  lemma TrackIsPlanned(head: Buffer, heads: seq<Buffer>, parts: seq<Part>, movieScale: nat, k: nat, c: Copied, shape: Track)
    requires Fits(parts, movieScale, |head|) && Boxed(head, heads, parts)
    requires k < |parts| && parts[k].Planned? && PartFits(parts[k].source, parts[k].plan, movieScale) && Consists(parts[k].source.around, c)
    requires BeforeMoov(parts[k].source, parts[k].plan, |head|)
    ensures var track := TrackAt(Remuxed(head, parts, movieScale), k, shape, movieScale);
            && track.Some? && PartsFit(parts, movieScale) && ReadsBack(head, parts, movieScale, k, track.value.samples)
            && track.value == ClipTrack(shape, parts[k].plan.delay, movieScale, track.value.mediaEdit, track.value.samples)
            && track.value.mediaEdit == EditFor(parts[k].source, parts[k].plan, movieScale, shape.timescale)
  {
    hide Fits, Boxed, Consists, BeforeMoov, MoovOf, Children, StblOf, PayloadsOf, EditsOf, Remuxed, TablePayloads, ReadTables, Samples, PlannedEdits, Assembled, ReadsBack, EditFor, PartFits, PartsFit, Start, NewOffsets, MoovSize;
    RemuxedReadsBack(head, heads, parts, movieScale, k, c);
    PlannedReads(head, parts, movieScale, k);
    AssembledIs(shape, SamplesPlanned(head, parts, movieScale, k).value, parts[k].source, parts[k].plan, movieScale);
  }

  /** The samples of the tables planned for part `k`, as the reader expands them. */
  function SamplesPlanned(head: Buffer, parts: seq<Part>, movieScale: nat, k: nat): Option<seq<Sample>>
    requires Fits(parts, movieScale, |head|) && k < |parts| && parts[k].Planned? && PartFits(parts[k].source, parts[k].plan, movieScale)
  {
    var tables := ReadTables(TablePayloads(parts[k].source, parts[k].plan, NewOffsets(parts[k].source, parts[k].plan, Start(parts, |head|, MoovSize(parts, movieScale, |head|), k))));
    if tables.None? then None else Samples(tables.value)
  }

  lemma PlannedReads(head: Buffer, parts: seq<Part>, movieScale: nat, k: nat)
    requires Fits(parts, movieScale, |head|) && k < |parts| && parts[k].Planned?
    requires PartFits(parts[k].source, parts[k].plan, movieScale) && BeforeMoov(parts[k].source, parts[k].plan, |head|)
    ensures SamplesPlanned(head, parts, movieScale, k).Some? && PartsFit(parts, movieScale)
    ensures ReadsBack(head, parts, movieScale, k, SamplesPlanned(head, parts, movieScale, k).value)
  {
    RemuxPlaysThePlan(head, parts, movieScale, k);
    hide Plays, Remuxed, TablePayloads, ReadTables, Samples, MoovSize, Start;
  }

  lemma AssembledIs(shape: Track, samples: seq<Sample>, source: Source, plan: Plan, movieScale: nat)
    requires PartFits(source, plan, movieScale)
    ensures Assembled(shape, Some(samples), Some(PlannedEdits(source, plan, movieScale)), movieScale)
         == Some(ClipTrack(shape, plan.delay, movieScale, EditFor(source, plan, movieScale, shape.timescale), samples))
  {
    hide PartFits, EditDuration;
  }

  function EditFor(source: Source, plan: Plan, movieScale: nat, timescale: int): Option<MediaEdit>
    requires PartFits(source, plan, movieScale)
  {
    if plan.delay > 0 then Some(MediaEdit(0, EditDuration(source, plan, movieScale), movieScale, timescale)) else None
  }

  /** The copied boxes of the planned tracks, and what surrounds them. */
  ghost predicate WrittenBoxes(head: Buffer, heads: seq<Buffer>, parts: seq<Part>, movieScale: nat, kv: nat, ka: nat, cv: Copied, ca: Copied, audio: bool)
  {
    && Fits(parts, movieScale, |head|) && Boxed(head, heads, parts)
    && kv < |parts| && parts[kv].Planned? && Consists(parts[kv].source.around, cv)
    && (audio ==> ka < |parts| && parts[ka].Planned? && Consists(parts[ka].source.around, ca))
  }

  /** The tracks read from the re-muxed file are the plan's. */
  lemma TracksAreRead(head: Buffer, heads: seq<Buffer>, parts: seq<Part>, movieScale: nat, kv: nat, ka: nat, cv: Copied, ca: Copied, m: Media, g1: nat, g2: nat, c: nat, d: nat)
    requires WrittenBoxes(head, heads, parts, movieScale, kv, ka, cv, ca, m.audio.Some?) && CutPlan(head, parts, movieScale, kv, ka, m, g1, g2, c, d)
    ensures PartsFit(parts, movieScale)
    ensures var out := Remuxed(head, parts, movieScale);
            var video, audio := TrackAt(out, kv, m.video, movieScale), if m.audio.Some? then TrackAt(out, ka, m.audio.value, movieScale) else None;
            && video.Some? && (m.audio.Some? ==> audio.Some?)
            && ClipTracks(head, parts, movieScale, kv, ka, m, video.value, audio)
            && Played(head, parts, movieScale, kv, m.video, video.value)
            && (m.audio.Some? ==> Played(head, parts, movieScale, ka, m.audio.value, audio.value))
  {
    CutParts(head, parts, movieScale, kv, ka, m, g1, g2, c, d);
    hide CutPlan, Fits, Boxed, Consists, Remuxed, TrackAt, PartFits, BeforeMoov, ReadsBack, PartsFit, EditFor, IsSource;
    PlannedTrack(head, heads, parts, movieScale, kv, cv, m.video);
    if m.audio.Some? {
      PlannedTrack(head, heads, parts, movieScale, ka, ca, m.audio.value);
    }
  }

  /** A part's track in the file: its samples, timescale and edit as planned. */
  ghost predicate Played(head: Buffer, parts: seq<Part>, movieScale: nat, k: nat, shape: Track, track: Track)
    requires PartsFit(parts, movieScale) && k < |parts| && parts[k].Planned?
  {
    && ReadsBack(head, parts, movieScale, k, track.samples)
    && track == ClipTrack(shape, parts[k].plan.delay, movieScale, track.mediaEdit, track.samples)
    && PartFits(parts[k].source, parts[k].plan, movieScale)
    && track.mediaEdit == EditFor(parts[k].source, parts[k].plan, movieScale, shape.timescale)
  }

  lemma PlannedTrack(head: Buffer, heads: seq<Buffer>, parts: seq<Part>, movieScale: nat, k: nat, c: Copied, shape: Track)
    requires Fits(parts, movieScale, |head|) && Boxed(head, heads, parts)
    requires k < |parts| && parts[k].Planned? && PartFits(parts[k].source, parts[k].plan, movieScale) && Consists(parts[k].source.around, c)
    requires BeforeMoov(parts[k].source, parts[k].plan, |head|)
    ensures var track := TrackAt(Remuxed(head, parts, movieScale), k, shape, movieScale);
            PartsFit(parts, movieScale) && track.Some? && Played(head, parts, movieScale, k, shape, track.value)
  {
    hide Fits, Boxed, Consists, Remuxed, TrackAt, PartFits, BeforeMoov, ReadsBack, PartsFit, EditFor;
    TrackIsPlanned(head, heads, parts, movieScale, k, c, shape);
  }

  lemma CutParts(head: Buffer, parts: seq<Part>, movieScale: nat, kv: nat, ka: nat, m: Media, g1: nat, g2: nat, c: nat, d: nat)
    requires CutPlan(head, parts, movieScale, kv, ka, m, g1, g2, c, d)
    ensures kv < |parts| && parts[kv].Planned? && PartFits(parts[kv].source, parts[kv].plan, movieScale) && BeforeMoov(parts[kv].source, parts[kv].plan, |head|)
    ensures parts[kv].plan.timescale.None? && IsSource(m.video, parts[kv].source)
    ensures m.audio.Some? ==>
              && ka < |parts| && parts[ka].Planned? && PartFits(parts[ka].source, parts[ka].plan, movieScale) && BeforeMoov(parts[ka].source, parts[ka].plan, |head|)
              && parts[ka].plan.timescale.None? && IsSource(m.audio.value, parts[ka].source)
  {
    hide AudioCutAt, DelayKeeps, Boundary, Starts, Samples, Fits, PartFits, BeforeMoov, FromTables;
  }

  // ---- the written edits trim nothing ----

  lemma EditIsWritten(head: Buffer, parts: seq<Part>, movieScale: nat, k: nat, shape: Track, track: Track)
    requires Fits(parts, movieScale, |head|) && PartsFit(parts, movieScale) && k < |parts| && parts[k].Planned?
    requires PartFits(parts[k].source, parts[k].plan, movieScale) && BeforeMoov(parts[k].source, parts[k].plan, |head|)
    requires Played(head, parts, movieScale, k, shape, track)
    requires parts[k].plan.timescale.None? && shape.timescale == parts[k].source.timescale > 0
    ensures track.timescale > 0 && IsWritten(track.mediaEdit, track.samples, movieScale, track.timescale) && DtsArePrefixSums(track.samples)
  {
    hide Fits, PartsFit, BeforeMoov, EditDuration, DtsArePrefixSums, MediaEnd, Floored, PartFits, Plannable, MoovSize, Start, NewOffsets, TablePayloads, ReadTables;
    SamplesAreRead(head, parts, movieScale, k, track.samples);
    EditDurationIsMedia(head, parts, movieScale, k, track.samples);
  }

  lemma SamplesAreRead(head: Buffer, parts: seq<Part>, movieScale: nat, k: nat, samples: seq<Sample>)
    requires PartsFit(parts, movieScale) && k < |parts| && parts[k].Planned? && ReadsBack(head, parts, movieScale, k, samples)
    ensures DtsArePrefixSums(samples)
  {
    hide PartsFit, PartFits, MoovSize, Start, NewOffsets, TablePayloads, ReadTables, Samples;
    PartFitsAt(parts, movieScale, k);
    var tables := ReadTables(TablePayloads(parts[k].source, parts[k].plan, NewOffsets(parts[k].source, parts[k].plan, Start(parts, |head|, MoovSize(parts, movieScale, |head|), k)))).value;
    SamplesDts(tables);
  }

  lemma PartFitsAt(parts: seq<Part>, movieScale: nat, k: nat)
    requires PartsFit(parts, movieScale) && k < |parts| && parts[k].Planned?
    ensures PartFits(parts[k].source, parts[k].plan, movieScale) && Plannable(parts[k].source, parts[k].plan) && Int32s(parts[k].plan.cts)
  {
  }

  /** Where the sealed samples have no composition offsets, neither have the clip's. */
  lemma NoOffsetsKept(file: Buffer, head: Buffer, parts: seq<Part>, movieScale: nat, k: nat, a: nat, b: nat, source: Track, samples: seq<Sample>)
    requires head <= file && CutPart(head, parts, movieScale, k, a, b) && ReadsBack(head, parts, movieScale, k, samples)
    requires IsSource(source, parts[k].source) && NoOffsetsIn(source.samples) && b <= |source.samples|
    ensures NoOffsetsIn(samples)
  {
    assert source.samples == Samples(parts[k].source.tables).value;
    hide CutPart, ReadsBack, Samples;
    PartKept(file, head, parts, movieScale, k, a, b, samples);
    forall n | 0 <= n < |samples|
      ensures samples[n].cts == 0
    {
      assert SameSample(file, source.samples[a + n], Remuxed(head, parts, movieScale), samples[n], ShiftOf(parts[k].source, a));
    }
  }

  lemma ClipHasNoOffsets(file: Buffer, head: Buffer, parts: seq<Part>, movieScale: nat, kv: nat, ka: nat, video: Track, audio: Option<Track>,
                         g1: nat, g2: nat, c: nat, d: nat, samples: seq<Sample>)
    requires head <= file && video.lengthSize > 0 && UnitsReadable(file, video) && NoOffsetsIn(video.samples)
    requires CutPlan(head, parts, movieScale, kv, ka, MediaOf(file, video, audio), g1, g2, c, d)
    requires PartsFit(parts, movieScale) && kv < |parts| && parts[kv].Planned? && ReadsBack(head, parts, movieScale, kv, samples)
    ensures NoOffsetsIn(samples)
  {
    var units := UnitsOf(file, video);
    hide CutPart, ReadsBack, NoOffsetsIn, PartsFit, AudioCutAt, DelayKeeps, UnitOf, StartsUpTo;
    NoOffsetsKept(file, head, parts, movieScale, kv, Boundary(units, g1), Boundary(units, g2), video, samples);
  }

  /**
   From bytes to verdict. A file is sealed over its own reading; a re-mux keeps whole GOPs
   of it and their audio, delayed to where they were shown. The tracks are read back from
   the bytes written, and the verdict over them is *verified clip* with exactly the GOPs
   kept, when the presentation is the signed one; without composition offsets nothing else
   is asked, and with them that the edits trim no GOP.
   */
  lemma RemuxedFileVerifies(h: Hash, b64: Base64, verifies: Verifier, sign: Buffer -> Buffer, captureId: Buffer,
                            file: Buffer, video: Track, audio: Option<Track>, presentation: Option<Presentation>, layout: Option<string>,
                            head: Buffer, heads: seq<Buffer>, parts: seq<Part>, movieScale: nat, kv: nat, ka: nat, cv: Copied, ca: Copied, g1: nat, g2: nat, c: nat, d: nat,
                            clipPresentation: Option<Presentation>, clipLayout: Option<string>,
                            entries: seq<SegmentEntry>, media: SignedMedia, labels: seq<string>)
    requires b64.Faithful() && forall m :: verifies(m, sign(m))
    requires head <= file && video.lengthSize > 0 && UnitsReadable(file, video)
    requires var sealed := ReadingOf(h, file, Some(video), audio, presentation, layout);
             sealed.Read? && SealedProof(h, b64, sign, captureId, sealed.gops, sealed.timescales, entries, media) && NamedInOrder(sealed.gops, captureId)
    requires WrittenBoxes(head, heads, parts, movieScale, kv, ka, cv, ca, audio.Some?)
    requires CutPlan(head, parts, movieScale, kv, ka, MediaOf(file, video, audio), g1, g2, c, d)
    requires var out := Remuxed(head, parts, movieScale);
             var clipAudio := if audio.Some? then TrackAt(out, ka, audio.value, movieScale) else None;
             var reading := ReadingOf(h, out, TrackAt(out, kv, video, movieScale), clipAudio, clipPresentation, clipLayout);
             reading.Read? && PresentedAsSigned(b64, media, reading) && (NoOffsetsIn(video.samples) || NoEditTrims(reading))
    ensures var out := Remuxed(head, parts, movieScale);
            var clipAudio := if audio.Some? then TrackAt(out, ka, audio.value, movieScale) else None;
            var reading := ReadingOf(h, out, TrackAt(out, kv, video, movieScale), clipAudio, clipPresentation, clipLayout);
            && WellTimed(reading.gops)
            && var verdict := VerdictOf(h, b64, verifies, captureId, entries, media, true, reading, false, labels);
            && verdict.outcome == VerifiedClip && verdict.verified == seq(g2 - g1, n => g1 + n)
  {
    var m := MediaOf(file, video, audio);
    var out := Remuxed(head, parts, movieScale);
    hide WrittenBoxes, CutPlan, TrackAt, Remuxed, SealedProof, VerdictOf, PresentedAsSigned, ReadingOf, UnitsReadable, NamedInOrder, NoEditTrims, NoOffsetsIn, ClipTracks, PartsFit, Played;
    TracksAreRead(head, heads, parts, movieScale, kv, ka, cv, ca, m, g1, g2, c, d);
    var clipVideo := TrackAt(out, kv, video, movieScale).value;
    var clipAudio := if audio.Some? then TrackAt(out, ka, audio.value, movieScale) else None;
    if NoOffsetsIn(video.samples) {
      NothingTrimmed(h, file, head, parts, movieScale, kv, ka, video, audio, g1, g2, c, d, clipVideo, clipAudio, clipPresentation, clipLayout);
    }
    ClipIsVideo(head, parts, movieScale, kv, ka, m, g1, g2, c, d, clipVideo, clipAudio);
    RemuxedCutVerifies(h, b64, verifies, sign, captureId, file, video, audio, presentation, layout, head, parts, movieScale, kv, ka, g1, g2, c, d,
                       clipVideo, clipAudio, clipPresentation, clipLayout, entries, media, labels);
  }

  lemma ClipIsVideo(head: Buffer, parts: seq<Part>, movieScale: nat, kv: nat, ka: nat, m: Media, g1: nat, g2: nat, c: nat, d: nat, clipVideo: Track, clipAudio: Option<Track>)
    requires CutPlan(head, parts, movieScale, kv, ka, m, g1, g2, c, d) && PartsFit(parts, movieScale)
    requires kv < |parts| && parts[kv].Planned? && (m.audio.Some? ==> ka < |parts| && parts[ka].Planned?) && ClipTracks(head, parts, movieScale, kv, ka, m, clipVideo, clipAudio)
    ensures clipVideo.lengthSize == m.video.lengthSize
  {
    hide CutPlan, PartsFit, ReadsBack;
  }

  lemma NothingTrimmed(h: Hash, file: Buffer, head: Buffer, parts: seq<Part>, movieScale: nat, kv: nat, ka: nat, video: Track, audio: Option<Track>,
                       g1: nat, g2: nat, c: nat, d: nat, clipVideo: Track, clipAudio: Option<Track>, clipPresentation: Option<Presentation>, clipLayout: Option<string>)
    requires head <= file && video.lengthSize > 0 && UnitsReadable(file, video) && NoOffsetsIn(video.samples)
    requires Fits(parts, movieScale, |head|) && PartsFit(parts, movieScale)
    requires CutPlan(head, parts, movieScale, kv, ka, MediaOf(file, video, audio), g1, g2, c, d)
    requires kv < |parts| && parts[kv].Planned? && Played(head, parts, movieScale, kv, video, clipVideo)
    requires audio.Some? <==> clipAudio.Some?
    requires audio.Some? ==> ka < |parts| && parts[ka].Planned? && Played(head, parts, movieScale, ka, audio.value, clipAudio.value)
    requires ReadingOf(h, Remuxed(head, parts, movieScale), Some(clipVideo), clipAudio, clipPresentation, clipLayout).Read?
    ensures NoEditTrims(ReadingOf(h, Remuxed(head, parts, movieScale), Some(clipVideo), clipAudio, clipPresentation, clipLayout))
  {
    var m := MediaOf(file, video, audio);
    CutParts(head, parts, movieScale, kv, ka, m, g1, g2, c, d);
    PlanScales(head, parts, movieScale, kv, ka, m, g1, g2, c, d);
    PlayedSamples(head, parts, movieScale, kv, video, clipVideo);
    hide CutPlan, Fits, PartsFit, Played, PartFits, BeforeMoov, ReadingOf, NoEditTrims, NoOffsetsIn, IsWritten, DtsArePrefixSums, UnitsReadable, ReadsBack, Remuxed, MediaOf;
    ClipHasNoOffsets(file, head, parts, movieScale, kv, ka, video, audio, g1, g2, c, d, clipVideo.samples);
    EditIsWritten(head, parts, movieScale, kv, video, clipVideo);
    if audio.Some? {
      EditIsWritten(head, parts, movieScale, ka, audio.value, clipAudio.value);
    }
    WrittenEditsTrimNothing(h, Remuxed(head, parts, movieScale), clipVideo, clipAudio, clipPresentation, clipLayout, movieScale);
  }

  lemma PlayedSamples(head: Buffer, parts: seq<Part>, movieScale: nat, k: nat, shape: Track, track: Track)
    requires PartsFit(parts, movieScale) && k < |parts| && parts[k].Planned? && Played(head, parts, movieScale, k, shape, track)
    ensures ReadsBack(head, parts, movieScale, k, track.samples) && track.lengthSize == shape.lengthSize
  {
    hide ReadsBack;
  }

  lemma PlanScales(head: Buffer, parts: seq<Part>, movieScale: nat, kv: nat, ka: nat, m: Media, g1: nat, g2: nat, c: nat, d: nat)
    requires CutPlan(head, parts, movieScale, kv, ka, m, g1, g2, c, d)
    ensures movieScale > 0 && m.video.timescale > 0 && (m.audio.Some? ==> m.audio.value.timescale > 0)
  {
    hide CutPart, AudioCutAt, FromTables, Boundary, Starts;
  }
}

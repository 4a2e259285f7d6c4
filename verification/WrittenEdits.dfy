/**
 The edit lists a re-mux writes, read back: each lasts the track's whole new media,
 rounded down into movie ticks, so without composition offsets no segment is trimmed
 (tools/src/remux.ts, tools/src/timing.ts).
 */
module WrittenEdits {
  import opened ByteStrings
  import opened Primitives
  import opened SampleTables
  import opened Timing
  import opened Nal
  import opened Gops
  import opened EditSlack
  import opened ClipSoundness
  import opened ClipCompleteness
  import opened Remux
  import opened RemuxCut

  /** Where a track's media ends. */
  function MediaEnd(samples: seq<Sample>): nat {
    if |samples| == 0 then 0 else samples[|samples| - 1].dts + samples[|samples| - 1].duration
  }

  lemma PlaysEnd(head: Buffer, source: Source, plan: Plan, offsets: seq<nat>, out: Buffer, samples: seq<Sample>)
    requires Plannable(source, plan) && BeforeMoov(source, plan, |head|) && 0 < |plan.samples| == |offsets| == |samples|
    requires Plays(head, source, plan, offsets, out, samples, |samples| - 1)
    ensures MediaEnd(samples) == Sum(NewDurations(source, plan))
  {
    hide Plannable, NewDuration, NewSize, PlannedBytes, BeforeMoov;
    var durations := NewDurations(source, plan);
    assert durations[..|durations| - 1] == durations[..|samples| - 1];
  }

  /** The duration the writer puts into the edit is the new media, as a reader finds it, rounded down. */
  lemma EditDurationIsMedia(head: Buffer, parts: seq<Part>, movieScale: nat, k: nat, samples: seq<Sample>)
    requires Fits(parts, movieScale, |head|) && k < |parts| && parts[k].Planned? && MediaScale(parts[k].source, parts[k].plan) > 0
    requires PartFits(parts[k].source, parts[k].plan, movieScale) && BeforeMoov(parts[k].source, parts[k].plan, |head|)
    requires ReadsBack(head, parts, movieScale, k, samples)
    ensures MediaEnd(samples) == Sum(NewDurations(parts[k].source, parts[k].plan))
    ensures EditDuration(parts[k].source, parts[k].plan, movieScale) == Floored(MediaEnd(samples), movieScale, MediaScale(parts[k].source, parts[k].plan))
  {
    MediaEndIsSum(head, parts, movieScale, k, samples);
    hide Fits, PartFits, ReadsBack, BeforeMoov, NewDurations, Plannable, MediaScale, Floored, MediaEnd, Sum;
    FlooredIsNatural(Sum(NewDurations(parts[k].source, parts[k].plan)), movieScale, MediaScale(parts[k].source, parts[k].plan));
  }

  lemma FlooredIsNatural(media: nat, movieScale: nat, mediaScale: nat)
    requires mediaScale > 0
    ensures Floored(media, movieScale, mediaScale) >= 0
  {
    FloorAtLeast(media * movieScale, mediaScale, 0);
  }

  lemma MediaEndIsSum(head: Buffer, parts: seq<Part>, movieScale: nat, k: nat, samples: seq<Sample>)
    requires Fits(parts, movieScale, |head|) && k < |parts| && parts[k].Planned?
    requires PartFits(parts[k].source, parts[k].plan, movieScale) && BeforeMoov(parts[k].source, parts[k].plan, |head|)
    requires ReadsBack(head, parts, movieScale, k, samples)
    ensures MediaEnd(samples) == Sum(NewDurations(parts[k].source, parts[k].plan))
  {
    ReadPlays(head, parts, movieScale, k, samples);
    assert Plannable(parts[k].source, parts[k].plan) && PartsFit(parts, movieScale);
    hide Fits, PartFits, ReadsBack, BeforeMoov, Plannable, Remuxed, PartsFit, MoovSize, Start, NewOffset, Plays, NewDuration, MediaEnd, Sum;
    if |samples| > 0 {
      PlaysEnd(head, parts[k].source, parts[k].plan, NewOffsets(parts[k].source, parts[k].plan, Start(parts, |head|, MoovSize(parts, movieScale, |head|), k)),
               Remuxed(head, parts, movieScale), samples);
    } else {
      NoMedia(parts[k].source, parts[k].plan);
    }
  }

  lemma NoMedia(source: Source, plan: Plan)
    requires Plannable(source, plan)
    ensures |plan.samples| == 0 ==> MediaEnd([]) == Sum(NewDurations(source, plan))
  {
  }

  /** The edit as written over the whole media, or none. */
  predicate IsWritten(edit: Option<MediaEdit>, samples: seq<Sample>, movieScale: int, timescale: int)
    requires timescale > 0
  {
    edit.Some? ==> edit.value == MediaEdit(0, Floored(MediaEnd(samples), movieScale, timescale), movieScale, timescale)
  }

  /** Each sample ends no later than the media. */
  lemma {:induction false} EndsWithin(samples: seq<Sample>, i: nat)
    requires DtsArePrefixSums(samples) && i < |samples|
    ensures samples[i].dts + samples[i].duration <= MediaEnd(samples)
    decreases |samples| - i
  {
    if i + 1 < |samples| {
      EndsWithin(samples, i + 1);
      assert samples[i + 1].dts == samples[i].dts + samples[i].duration;
    }
  }

  lemma {:induction false} ChosenFrom(audio: Track, frames: seq<Frame>, from: Instant, to: Option<Instant>, f: Frame)
    requires f in Chosen(audio, frames, from, to)
    ensures f in frames
  {
    hide InstantOf, Within;
    if f in Chosen(audio, frames[..|frames| - 1], from, to) {
      ChosenFrom(audio, frames[..|frames| - 1], from, to, f);
    }
  }

  lemma AudioFits(file: Buffer, video: Track, audio: Track, units: seq<AccessUnit>, g: nat)
    requires DtsArePrefixSums(audio.samples) && g < |Starts(units)|
    ensures var taken := FramesIn(video, Some(audio), units, FramesOf(file, audio.samples), g);
            |taken| > 0 ==> taken[|taken| - 1].dts + taken[|taken| - 1].duration <= MediaEnd(audio.samples)
  {
    hide Chosen, InstantOf;
    var frames := FramesOf(file, audio.samples);
    var taken := FramesIn(video, Some(audio), units, frames, g);
    if |taken| > 0 {
      var last := taken[|taken| - 1];
      ChosenFrom(audio, frames, IntervalStart(video, units, Starts(units), g), IntervalEnd(video, units, Starts(units), g), last);
      var i: nat :| i < |frames| && frames[i] == last;
      EndsWithin(audio.samples, i);
    }
  }

  lemma UnitsEnd(file: Buffer, video: Track)
    requires video.lengthSize > 0 && UnitsReadable(file, video)
    ensures var units := UnitsOf(file, video); TimeAt(units, |units|) == MediaEnd(video.samples)
  {
    hide Nals, HasIdr;
    if |video.samples| > 0 {
      assert UnitOf(file, video, video.samples[|video.samples| - 1]).Some?;
    }
  }

  predicate NoOffsetsIn(samples: seq<Sample>) {
    forall i | 0 <= i < |samples| :: samples[i].cts == 0
  }

  lemma UnitsPlain(file: Buffer, video: Track)
    requires video.lengthSize > 0 && UnitsReadable(file, video) && NoOffsetsIn(video.samples)
    ensures NoOffsets(UnitsOf(file, video))
  {
    hide Nals, HasIdr;
    assert forall i | 0 <= i < |video.samples| :: UnitOf(file, video, video.samples[i]).Some?;
  }

  /** One GOP under the written edits. */
  lemma GopUntrimmed(h: Hash, file: Buffer, video: Track, audio: Option<Track>, g: nat, movieScale: int)
    requires video.lengthSize > 0 && UnitsReadable(file, video) && DtsArePrefixSums(video.samples) && NoOffsetsIn(video.samples)
    requires audio.Some? ==> DtsArePrefixSums(audio.value.samples) && audio.value.timescale > 0
    requires movieScale > 0 && video.timescale > 0 && IsWritten(video.mediaEdit, video.samples, movieScale, video.timescale)
    requires audio.Some? ==> IsWritten(audio.value.mediaEdit, audio.value.samples, movieScale, audio.value.timescale)
    requires var m := MediaOf(file, video, audio); g < |Starts(m.units)| && AllStored(FramesIn(video, audio, m.units, m.frames, g))
    ensures var m := MediaOf(file, video, audio);
            var gop := SegmentOf(h, video.hevc, UnitsIn(m.units, g), FramesIn(video, audio, m.units, m.frames, g));
            && (video.mediaEdit.Some? ==> !EditTrims(video.mediaEdit.value, gop.videoExtent))
            && (audio.Some? && audio.value.mediaEdit.Some? && gop.audioExtent.Some? ==> !EditTrims(audio.value.mediaEdit.value, gop.audioExtent.value))
  {
    var m := MediaOf(file, video, audio);
    var taken := FramesIn(video, audio, m.units, m.frames, g);
    UnitsEnd(file, video);
    UnitsPlain(file, video);
    UnitsAreContiguous(file, video);
    var gop := SegmentOf(h, video.hevc, UnitsIn(m.units, g), taken);
    if audio.Some? {
      AudioFits(file, video, audio.value, m.units, g);
      AudioExtentIs(h, video.hevc, UnitsIn(m.units, g), taken);
    }
    hide SegmentOf, FramesIn, UnitsIn, AllStored, UnitsOf, UnitsReadable, Starts, EditTrims, DtsArePrefixSums, NoOffsetsIn, MediaEnd, FramesOf, Contiguous, NoOffsets, Floored;
    RemuxEditTrimsNoGop(h, video.hevc, m.units, taken, g, movieScale, video.timescale);
    if gop.audioExtent.Some? && audio.Some? {
      WrittenEditTrimsNothing(MediaEnd(audio.value.samples), movieScale, audio.value.timescale, gop.audioExtent.value);
    }
  }

  lemma AudioExtentIs(h: Hash, hevc: bool, units: seq<AccessUnit>, frames: seq<Frame>)
    requires |units| > 0 && AllStored(frames)
    ensures var extent := SegmentOf(h, hevc, units, frames).audioExtent;
            if |frames| == 0 then extent.None?
            else extent == Some(Extent(frames[0].dts, frames[|frames| - 1].dts + frames[|frames| - 1].duration))
  {
    hide AllNals, HashedNals, SeisIn, ProblemIn, FrameBytes, VideoExtentOf, AllStored;
  }

  /** No written edit trims any GOP. */
  lemma WrittenEditsTrimNothing(h: Hash, file: Buffer, video: Track, audio: Option<Track>, presentation: Option<Presentation>, layout: Option<string>, movieScale: int)
    requires video.lengthSize > 0 && DtsArePrefixSums(video.samples) && NoOffsetsIn(video.samples)
    requires audio.Some? ==> DtsArePrefixSums(audio.value.samples) && audio.value.timescale > 0
    requires movieScale > 0 && video.timescale > 0 && IsWritten(video.mediaEdit, video.samples, movieScale, video.timescale)
    requires audio.Some? ==> IsWritten(audio.value.mediaEdit, audio.value.samples, movieScale, audio.value.timescale)
    requires ReadingOf(h, file, Some(video), audio, presentation, layout).Read?
    ensures NoEditTrims(ReadingOf(h, file, Some(video), audio, presentation, layout))
  {
    ReadingOfMedia(h, file, video, audio, presentation, layout);
    var m := MediaOf(file, video, audio);
    var reading := ReadingOf(h, file, Some(video), audio, presentation, layout);
    assert reading.videoEdit == video.mediaEdit && reading.audioEdit == if audio.Some? then audio.value.mediaEdit else None;
    hide ReadingOf, UnitsReadable, SegmentOf, FramesIn, UnitsIn, AllStored, Starts, EditTrims, DtsArePrefixSums, NoOffsetsIn, IsWritten, MediaOf;
    forall g | 0 <= g < |reading.gops|
      ensures reading.videoEdit.Some? ==> !EditTrims(reading.videoEdit.value, reading.gops[g].videoExtent)
      ensures reading.audioEdit.Some? && reading.gops[g].audioExtent.Some? ==> !EditTrims(reading.audioEdit.value, reading.gops[g].audioExtent.value)
    {
      GopUntrimmed(h, file, video, audio, g, movieScale);
    }
  }
}

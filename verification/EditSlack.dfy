/**
 Without composition offsets the GOPs' extents tile their track, so the one media
 edit a re-mux writes, floored into movie ticks, trims none of them
 (tools/src/timing.ts, tools/src/remux.ts, tools/src/container.ts).
 */
module EditSlack {
  import opened ByteStrings
  import opened Primitives
  import opened SampleTables
  import opened Timing
  import opened Nal
  import opened Gops
  import opened ClipCut

  /** Each unit starts where the one before it ends, the first at 0, as sample tables place them. */
  ghost predicate Contiguous(units: seq<AccessUnit>) {
    && (|units| > 0 ==> units[0].dts == 0)
    && forall i | 0 <= i && i + 1 < |units| :: units[i + 1].dts == units[i].dts + units[i].duration
  }

  lemma UnitsAreContiguous(file: Buffer, video: Track)
    requires video.lengthSize > 0 && UnitsReadable(file, video) && DtsArePrefixSums(video.samples)
    ensures Contiguous(UnitsOf(file, video))
  {
    hide Nals, HasIdr;
    var units := UnitsOf(file, video);
    assert forall i | 0 <= i < |units| :: UnitOf(file, video, video.samples[i]).Some?;
    forall i | 0 <= i && i + 1 < |units|
      ensures units[i + 1].dts == units[i].dts + units[i].duration
    {
      assert video.samples[i + 1].dts == video.samples[i].dts + video.samples[i].duration;
    }
  }

  /** Media time at boundary `at` of a track: a unit's DTS, or the end of the last unit. */
  function TimeAt(units: seq<AccessUnit>, at: nat): int
    requires at <= |units|
  {
    if at < |units| then units[at].dts else if |units| > 0 then units[|units| - 1].dts + units[|units| - 1].duration else 0
  }

  lemma {:induction false} TimeAscends(units: seq<AccessUnit>, i: nat, j: nat)
    requires Contiguous(units) && i <= j <= |units|
    ensures 0 <= TimeAt(units, i) <= TimeAt(units, j)
    decreases j - i
  {
    if i < j {
      TimeAscends(units, i, j - 1);
    }
  }

  lemma TimeStep(units: seq<AccessUnit>, i: nat)
    requires Contiguous(units) && i < |units|
    ensures TimeAt(units, i + 1) == units[i].dts + units[i].duration
  {
  }

  ghost predicate NoOffsets(units: seq<AccessUnit>) {
    forall i | 0 <= i < |units| :: units[i].cts == 0
  }

  /** A run of units without composition offsets is shown from its first DTS to the DTS after it. */
  lemma SliceExtent(units: seq<AccessUnit>, from: nat, to: nat, frames: seq<Frame>)
    requires Contiguous(units) && NoOffsets(units) && from < to <= |units|
    ensures VideoExtentOf(TimingOf(units[from..to], frames), units[from].dts) == Extent(TimeAt(units, from), TimeAt(units, to))
  {
    var slice := units[from..to];
    var t := TimingOf(slice, frames);
    var n := to - from;
    assert slice[0] == units[from] && slice[n - 1] == units[to - 1];
    forall i | 0 <= i < n
      ensures t.videoDts[i] <= NextDts(t, i) && t.videoCts[i] == 0
    {
      assert slice[i] == units[from + i];
      TimeStep(units, from + i);
      if i + 1 < n {
        assert slice[i + 1] == units[from + i + 1];
      }
    }
    PlainExtent(t, n);
    TimeStep(units, to - 1);
  }

  /** GOP extents tile the track: each ends where the next starts, from 0 to the end of the media. */
  lemma ExtentsTile(h: Hash, hevc: bool, units: seq<AccessUnit>, frames: seq<Frame>, g: nat)
    requires Contiguous(units) && NoOffsets(units) && g < |Starts(units)| && AllStored(frames)
    ensures SegmentOf(h, hevc, UnitsIn(units, g), frames).videoExtent
         == Extent(TimeAt(units, Boundary(units, g)), TimeAt(units, Boundary(units, g + 1)))
    ensures Boundary(units, 0) == 0 && Boundary(units, |Starts(units)|) == |units|
  {
    UnitsBetween(units, g);
    StartsPartition(units, |units|);
    hide AllNals, HashedNals, SeisIn, ProblemIn, FrameBytes, TimingOf, VideoExtentOf, StartsUpTo;
    SliceExtent(units, Boundary(units, g), Boundary(units, g + 1), frames);
    assert UnitsIn(units, g)[0] == units[Boundary(units, g)];
  }

  /** So the edit a re-mux writes over the whole kept media trims no GOP. */
  lemma RemuxEditTrimsNoGop(h: Hash, hevc: bool, units: seq<AccessUnit>, frames: seq<Frame>, g: nat, movieTimescale: int, mediaTimescale: int)
    requires Contiguous(units) && NoOffsets(units) && g < |Starts(units)| && AllStored(frames)
    requires movieTimescale > 0 && mediaTimescale > 0
    ensures var media := TimeAt(units, |units|);
            !EditTrims(MediaEdit(0, Floored(media, movieTimescale, mediaTimescale), movieTimescale, mediaTimescale),
                       SegmentOf(h, hevc, UnitsIn(units, g), frames).videoExtent)
  {
    hide SegmentOf, StartsUpTo, EditTrims;
    ExtentsTile(h, hevc, units, frames, g);
    TimeAscends(units, 0, Boundary(units, g));
    TimeAscends(units, Boundary(units, g + 1), |units|);
    WrittenEditTrimsNothing(TimeAt(units, |units|), movieTimescale, mediaTimescale, SegmentOf(h, hevc, UnitsIn(units, g), frames).videoExtent);
  }

  /** And one a whole movie tick shorter trims the last. */
  lemma ShorterEditTrimsLastGop(h: Hash, hevc: bool, units: seq<AccessUnit>, frames: seq<Frame>, duration: int, movieTimescale: int, mediaTimescale: int)
    requires Contiguous(units) && NoOffsets(units) && |units| > 0 && AllStored(frames)
    requires movieTimescale > 0 && mediaTimescale > 0
    requires duration <= Floored(TimeAt(units, |units|), movieTimescale, mediaTimescale) - 1
    ensures |Starts(units)| > 0
    ensures EditTrims(MediaEdit(0, duration, movieTimescale, mediaTimescale),
                      SegmentOf(h, hevc, UnitsIn(units, |Starts(units)| - 1), frames).videoExtent)
  {
    hide SegmentOf, StartsUpTo, EditTrims;
    StartsPartition(units, |units|);
    var g := |Starts(units)| - 1;
    ExtentsTile(h, hevc, units, frames, g);
    TimeAscends(units, 0, Boundary(units, g));
    ShorterEditTrims(TimeAt(units, |units|), duration, movieTimescale, mediaTimescale, SegmentOf(h, hevc, UnitsIn(units, g), frames).videoExtent);
  }
}

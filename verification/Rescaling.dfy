/**
 A re-mux to finer timescales: the tracks' timescales and all their times multiplied,
 each track by its own factor. Every GOP takes the same units and frames and shows them
 at the same instants (tools/src/container.ts, tools/src/timing.ts).
 */
module Rescaling {
  import opened ByteStrings
  import opened Primitives
  import opened Timing
  import opened Nal
  import opened Gops
  import opened Timeline
  import opened ClipCut

  function RescaledUnit(unit: AccessUnit, k: nat): AccessUnit {
    unit.(dts := unit.dts * k, duration := unit.duration * k, cts := unit.cts * k)
  }

  function RescaledUnits(units: seq<AccessUnit>, k: nat): seq<AccessUnit> {
    seq(|units|, i requires 0 <= i < |units| => RescaledUnit(units[i], k))
  }

  function RescaledFrame(frame: Frame, l: nat): Frame {
    frame.(dts := frame.dts * l, duration := frame.duration * l)
  }

  function RescaledFrames(frames: seq<Frame>, l: nat): seq<Frame> {
    seq(|frames|, j requires 0 <= j < |frames| => RescaledFrame(frames[j], l))
  }

  /** The video track `k` times finer, the audio track `l` times. */
  function RescaledMedia(m: Media, k: nat, l: nat): Media {
    Media(RescaledTrack(m.video, k), if m.audio.Some? then Some(RescaledTrack(m.audio.value, l)) else None,
          RescaledUnits(m.units, k), RescaledFrames(m.frames, l))
  }

  function ScalesOf(m: Media): Timescales {
    Timescales(m.video.timescale, if m.audio.Some? then Some(m.audio.value.timescale) else None)
  }

  /** A factor of one is no change. */
  lemma RescaledByOne(m: Media)
    ensures RescaledMedia(m, 1, 1) == m
  {
    assert RescaledUnits(m.units, 1) == m.units;
    assert RescaledFrames(m.frames, 1) == m.frames;
  }

  lemma {:induction false} StartsRescaled(units: seq<AccessUnit>, k: nat, n: nat)
    requires n <= |units|
    ensures StartsUpTo(RescaledUnits(units, k), n) == StartsUpTo(units, n)
  {
    if n > 0 {
      StartsRescaled(units, k, n - 1);
    }
  }

  lemma {:induction false} NalsRescaled(units: seq<AccessUnit>, k: nat)
    ensures AllNals(RescaledUnits(units, k)) == AllNals(units)
  {
    if |units| > 0 {
      var n := |units| - 1;
      NalsRescaled(units[..n], k);
      assert RescaledUnits(units, k)[..n] == RescaledUnits(units[..n], k);
    }
  }

  lemma {:induction false} BytesRescaled(frames: seq<Frame>, l: nat)
    ensures AllStored(RescaledFrames(frames, l)) <==> AllStored(frames)
    ensures AllStored(frames) ==> FrameBytes(RescaledFrames(frames, l)) == FrameBytes(frames)
  {
    if |frames| > 0 {
      var n := |frames| - 1;
      BytesRescaled(frames[..n], l);
      assert RescaledFrames(frames, l)[..n] == RescaledFrames(frames[..n], l);
      StoredPush(frames, n);
      StoredPush(RescaledFrames(frames, l), n);
    }
  }

  /** The frames of an interval are the same frames, rescaled. */
  lemma {:induction false} ChosenRescaled(video: Track, k: nat, audio: Track, l: nat, frames: seq<Frame>, from: int, to: Option<int>)
    requires Aligned(video) && Aligned(audio) && k > 0 && l > 0
    ensures Chosen(RescaledTrack(audio, l), RescaledFrames(frames, l), InstantOf(RescaledTrack(video, k), from * k),
                   if to.Some? then Some(InstantOf(RescaledTrack(video, k), to.value * k)) else None)
         == RescaledFrames(Chosen(audio, frames, InstantOf(video, from), if to.Some? then Some(InstantOf(video, to.value)) else None), l)
  {
    hide InstantOf, RescaledTrack, Within;
    if |frames| > 0 {
      var n := |frames| - 1;
      ChosenRescaled(video, k, audio, l, frames[..n], from, to);
      assert RescaledFrames(frames, l)[..n] == RescaledFrames(frames[..n], l);
      RescaledAssignment(video, k, audio, l, frames[n].dts, from, to);
    }
  }

  /** Every GOP of the rescaled tracks takes the frames it took. */
  lemma FramesRescaled(m: Media, k: nat, l: nat, g: nat)
    requires Aligned(m.video) && (m.audio.Some? ==> Aligned(m.audio.value)) && k > 0 && l > 0 && g < |Starts(m.units)|
    ensures var r := RescaledMedia(m, k, l);
            && Starts(r.units) == Starts(m.units)
            && FramesIn(r.video, r.audio, r.units, r.frames, g) == if m.audio.Some? then RescaledFrames(FramesIn(m.video, m.audio, m.units, m.frames, g), l) else []
  {
    StartsRescaled(m.units, k, |m.units|);
    if m.audio.Some? {
      hide InstantOf, RescaledTrack, Chosen, Aligned, StartsUpTo;
      var starts := Starts(m.units);
      var to := EndOf(m.units, starts, g);
      var r := RescaledMedia(m, k, l);
      assert IntervalStart(r.video, r.units, starts, g) == InstantOf(r.video, m.units[starts[g]].dts * k);
      assert IntervalEnd(r.video, r.units, starts, g) == if to < |m.units| then Some(InstantOf(r.video, m.units[to].dts * k)) else None;
      assert IntervalEnd(m.video, m.units, starts, g) == if to < |m.units| then Some(InstantOf(m.video, m.units[to].dts)) else None;
      ChosenRescaled(m.video, k, m.audio.value, l, m.frames, m.units[starts[g]].dts, if to < |m.units| then Some(m.units[to].dts) else None);
    }
  }

  lemma UnitsRescaled(units: seq<AccessUnit>, k: nat, g: nat)
    requires g < |Starts(units)|
    ensures g < |Starts(RescaledUnits(units, k))| && UnitsIn(RescaledUnits(units, k), g) == RescaledUnits(UnitsIn(units, g), k)
  {
    StartsRescaled(units, k, |units|);
    StartsPartition(units, |units|);
    hide StartsUpTo, RescaledUnits;
    SliceRescaled(units, k, Starts(units)[g], EndOf(units, Starts(units), g));
  }

  lemma SliceRescaled(units: seq<AccessUnit>, k: nat, from: nat, to: nat)
    requires from <= to <= |units|
    ensures RescaledUnits(units, k)[from..to] == RescaledUnits(units[from..to], k)
  {
    hide RescaledUnit;
    var slice := RescaledUnits(units, k)[from..to];
    forall i | 0 <= i < to - from
      ensures slice[i] == RescaledUnits(units[from..to], k)[i]
    {
      assert slice[i] == RescaledUnits(units, k)[from + i];
    }
  }

  lemma TimesTogether(x: int, y: int, k: int, t: int)
    ensures (x * k - y * k) * t == (x - y) * (t * k) && (x * k) * t == x * (t * k)
  {
    assert x * k - y * k == (x - y) * k;
  }

  /** The timing of rescaled units and frames names the same instants. */
  lemma TimingRescaled(units: seq<AccessUnit>, k: nat, frames: seq<Frame>, l: nat, scales: Timescales)
    requires |units| > 0 && k > 0 && l > 0 && scales.video > 0 && (if scales.audio.Some? then scales.audio.value > 0 else frames == [])
    ensures SameInstants(TimingOf(RescaledUnits(units, k), RescaledFrames(frames, l)),
                         Timescales(scales.video * k, if scales.audio.Some? then Some(scales.audio.value * l) else None),
                         TimingOf(units, frames), scales)
  {
    var a, b := TimingOf(RescaledUnits(units, k), RescaledFrames(frames, l)), TimingOf(units, frames);
    ProductPositive(scales.video, k);
    forall i | 0 <= i < |units|
      ensures SameInstant(a.videoDts[i], scales.video * k, b.videoDts[i], scales.video)
      ensures SameInstant(a.videoCts[i], scales.video * k, b.videoCts[i], scales.video)
    {
      TimesTogether(units[i].dts, units[0].dts, k, scales.video);
      TimesTogether(units[i].cts, 0, k, scales.video);
    }
    var last := units[|units| - 1];
    assert last.dts * k + last.duration * k == (last.dts + last.duration) * k;
    TimesTogether(last.dts + last.duration, units[0].dts, k, scales.video);
    if frames != [] {
      var t := scales.audio.value;
      ProductPositive(t, l);
      forall j | 0 <= j < |frames|
        ensures SameInstant(a.audioDts[j], t * l, b.audioDts[j], t)
        ensures SameInstant(a.audioDur[j], t * l, b.audioDur[j], t)
      {
        TimesTogether(frames[j].dts, frames[0].dts, l, t);
        TimesTogether(frames[j].duration, 0, l, t);
      }
    }
  }

  /** Index, capture, SEIs and hashed bytes agree. */
  predicate SameNaming(original: Segment, kept: Segment) {
    && kept.index == original.index && kept.captureId == original.captureId && kept.seiCount == original.seiCount
    && kept.problem == original.problem && kept.hashed == original.hashed && kept.contentHash == original.contentHash
  }

  lemma SegmentRescaled(h: Hash, hevc: bool, units: seq<AccessUnit>, k: nat, frames: seq<Frame>, l: nat)
    requires |units| > 0 && AllStored(frames)
    ensures AllStored(RescaledFrames(frames, l))
    ensures var original, rescaled := SegmentOf(h, hevc, units, frames), SegmentOf(h, hevc, RescaledUnits(units, k), RescaledFrames(frames, l));
            SameNaming(original, rescaled) && original.timing == TimingOf(units, frames)
            && rescaled.timing == TimingOf(RescaledUnits(units, k), RescaledFrames(frames, l))
  {
    hide TimingOf, AllNals, FrameBytes, HashedNals, SeisIn, ProblemIn, VideoExtentOf, AudioExtent, AllStored, RescaledFrames;
    NalsRescaled(units, k);
    BytesRescaled(frames, l);
  }

  /** One GOP of the rescaled media. */
  lemma GopRescaled(h: Hash, m: Media, k: nat, l: nat, g: nat)
    requires Aligned(m.video) && (m.audio.Some? ==> Aligned(m.audio.value)) && k > 0 && l > 0 && g < |Starts(m.units)|
    requires AllStored(FramesIn(m.video, m.audio, m.units, m.frames, g))
    ensures var r := RescaledMedia(m, k, l);
            && g < |Starts(r.units)| && AllStored(FramesIn(r.video, r.audio, r.units, r.frames, g))
            && var original := SegmentOf(h, m.video.hevc, UnitsIn(m.units, g), FramesIn(m.video, m.audio, m.units, m.frames, g));
            && var rescaled := SegmentOf(h, r.video.hevc, UnitsIn(r.units, g), FramesIn(r.video, r.audio, r.units, r.frames, g));
            && SameNaming(original, rescaled) && SameInstants(rescaled.timing, ScalesOf(r), original.timing, ScalesOf(m))
  {
    var units, frames := UnitsIn(m.units, g), FramesIn(m.video, m.audio, m.units, m.frames, g);
    FramesRescaled(m, k, l, g);
    UnitsRescaled(m.units, k, g);
    NoFrames(m, g);
    assert RescaledFrames([], l) == [];
    hide FramesIn, UnitsIn, SegmentOf, TimingOf, RescaledUnits, RescaledFrames, AllStored, SameInstants;
    SegmentRescaled(h, m.video.hevc, units, k, frames, l);
    TimingRescaled(units, k, frames, l, ScalesOf(m));
  }

  lemma NoFrames(m: Media, g: nat)
    requires g < |Starts(m.units)|
    ensures m.audio.None? ==> FramesIn(m.video, m.audio, m.units, m.frames, g) == []
  {
  }

  /** Rescaled media are read as the same GOPs, at the same instants. */
  lemma RescaledKeepsGops(h: Hash, m: Media, k: nat, l: nat)
    requires Aligned(m.video) && (m.audio.Some? ==> Aligned(m.audio.value)) && k > 0 && l > 0
    requires GopsOf(h, m.video, m.audio, m.units, m.frames).Some?
    ensures var r := RescaledMedia(m, k, l);
            && GopsOf(h, r.video, r.audio, r.units, r.frames).Some?
            && var gops, rescaled := GopsOf(h, m.video, m.audio, m.units, m.frames).value, GopsOf(h, r.video, r.audio, r.units, r.frames).value;
            && |rescaled| == |gops|
            && forall g | 0 <= g < |gops| :: SameNaming(gops[g], rescaled[g]) && SameInstants(rescaled[g].timing, ScalesOf(r), gops[g].timing, ScalesOf(m))
  {
    var r := RescaledMedia(m, k, l);
    StartsRescaled(m.units, k, |m.units|);
    hide SegmentOf, FramesIn, UnitsIn, AllStored, StartsUpTo, SameNaming, SameInstants;
    forall g | 0 <= g < |Starts(m.units)|
      ensures AllStored(FramesIn(r.video, r.audio, r.units, r.frames, g))
    {
      GopRescaled(h, m, k, l, g);
    }
    var gops, rescaled := GopsOf(h, m.video, m.audio, m.units, m.frames).value, GopsOf(h, r.video, r.audio, r.units, r.frames).value;
    forall g | 0 <= g < |gops|
      ensures SameNaming(gops[g], rescaled[g]) && SameInstants(rescaled[g].timing, ScalesOf(r), gops[g].timing, ScalesOf(m))
    {
      GopRescaled(h, m, k, l, g);
    }
  }
}

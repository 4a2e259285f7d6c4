/**
 Cutting whole GOPs off either end of a track, as a re-mux does, changes neither
 what a surviving GOP hashes nor the timing it shows (tools/src/container.ts).
 */
module ClipCut {
  import opened ByteStrings
  import opened Primitives
  import opened SampleTables
  import opened Timing
  import opened Nal
  import opened Gops
  import opened Timeline

  /** One access unit of the original and of the cut, `shift` ticks apart. */
  predicate SameUnit(unit: AccessUnit, kept: AccessUnit, shift: int) {
    && kept.nals == unit.nals && kept.idr == unit.idr
    && kept.duration == unit.duration && kept.cts == unit.cts
    && kept.dts + shift == unit.dts
  }

  predicate SameFrame(frame: Frame, kept: Frame, shift: int) {
    kept.data == frame.data && kept.duration == frame.duration && kept.dts + shift == frame.dts
  }

  ghost predicate SameUnits(units: seq<AccessUnit>, kept: seq<AccessUnit>, shift: int) {
    |units| == |kept| && forall i | 0 <= i < |units| :: SameUnit(units[i], kept[i], shift)
  }

  ghost predicate SameFrames(frames: seq<Frame>, kept: seq<Frame>, shift: int) {
    |frames| == |kept| && forall j | 0 <= j < |frames| :: SameFrame(frames[j], kept[j], shift)
  }

  /** The cut track shows media time `dts - shift` when the original shows `dts`. */
  predicate KeepsInstants(track: Track, cut: Track, shift: int) {
    && Aligned(track) && Aligned(cut) && cut.timescale == track.timescale
    && Seconds(InstantOf(cut, 0)) == Seconds(InstantOf(track, shift))
  }

  lemma SameInstantThroughout(track: Track, cut: Track, shift: int, dts: int)
    requires KeepsInstants(track, cut, shift)
    ensures InstantOf(cut, dts).den > 0 && InstantOf(track, dts + shift).den > 0
    ensures Seconds(InstantOf(cut, dts)) == Seconds(InstantOf(track, dts + shift))
  {
    InstantSeconds(cut, 0);
    InstantSeconds(cut, dts);
    InstantSeconds(track, shift);
    InstantSeconds(track, dts + shift);
    Fractions(-cut.mediaStart, dts, cut.timescale);
    Fractions(shift - track.mediaStart, dts, track.timescale);
  }

  lemma Fractions(a: int, b: int, t: int)
    requires t > 0
    ensures (a + b) as real / t as real == a as real / t as real + b as real / t as real
  {
  }

  /** Instants that stay where they were fall into the intervals they fell into. */
  lemma WithinKept(audio: Track, audioCut: Track, audioShift: int, video: Track, videoCut: Track, videoShift: int, dts: int, from: int, to: Option<int>)
    requires KeepsInstants(audio, audioCut, audioShift) && KeepsInstants(video, videoCut, videoShift)
    ensures Within(InstantOf(audioCut, dts), InstantOf(videoCut, from), if to.Some? then Some(InstantOf(videoCut, to.value)) else None)
        <==> Within(InstantOf(audio, dts + audioShift), InstantOf(video, from + videoShift),
                    if to.Some? then Some(InstantOf(video, to.value + videoShift)) else None)
  {
    hide InstantOf, Seconds, Before;
    SameInstantThroughout(audio, audioCut, audioShift, dts);
    SameInstantThroughout(video, videoCut, videoShift, from);
    BeforeIsEarlier(InstantOf(audioCut, dts), InstantOf(videoCut, from));
    BeforeIsEarlier(InstantOf(audio, dts + audioShift), InstantOf(video, from + videoShift));
    if to.Some? {
      SameInstantThroughout(video, videoCut, videoShift, to.value);
      BeforeIsEarlier(InstantOf(audioCut, dts), InstantOf(videoCut, to.value));
      BeforeIsEarlier(InstantOf(audio, dts + audioShift), InstantOf(video, to.value + videoShift));
    }
  }

  /** The same frames are chosen, in the same order. */
  lemma {:induction false} ChosenKept(audio: Track, audioCut: Track, audioShift: int, video: Track, videoCut: Track, videoShift: int,
                                      frames: seq<Frame>, kept: seq<Frame>, from: int, to: Option<int>)
    requires KeepsInstants(audio, audioCut, audioShift) && KeepsInstants(video, videoCut, videoShift)
    requires SameFrames(frames, kept, audioShift)
    ensures SameFrames(
              Chosen(audio, frames, InstantOf(video, from + videoShift), if to.Some? then Some(InstantOf(video, to.value + videoShift)) else None),
              Chosen(audioCut, kept, InstantOf(videoCut, from), if to.Some? then Some(InstantOf(videoCut, to.value)) else None),
              audioShift)
  {
    if |frames| > 0 {
      hide InstantOf, KeepsInstants, Within;
      var n := |frames| - 1;
      ChosenKept(audio, audioCut, audioShift, video, videoCut, videoShift, frames[..n], kept[..n], from, to);
      assert SameFrame(frames[n], kept[n], audioShift);
      WithinKept(audio, audioCut, audioShift, video, videoCut, videoShift, kept[n].dts, from, to);
    }
  }

  lemma {:induction false} ChosenAppend(audio: Track, a: seq<Frame>, b: seq<Frame>, from: Instant, to: Option<Instant>)
    ensures Chosen(audio, a + b, from, to) == Chosen(audio, a, from, to) + Chosen(audio, b, from, to)
  {
    if |b| == 0 {
      assert a + b == a;
    } else {
      assert (a + b)[..|a + b| - 1] == a + b[..|b| - 1];
      ChosenAppend(audio, a, b[..|b| - 1], from, to);
    }
  }

  lemma {:induction false} ChosenNone(audio: Track, frames: seq<Frame>, from: Instant, to: Option<Instant>)
    requires forall j | 0 <= j < |frames| :: !Within(InstantOf(audio, frames[j].dts), from, to)
    ensures Chosen(audio, frames, from, to) == []
  {
    if |frames| > 0 {
      ChosenNone(audio, frames[..|frames| - 1], from, to);
    }
  }

  /** Frames that are not in the interval may be dropped at either end. */
  lemma ChosenMiddle(audio: Track, frames: seq<Frame>, c: nat, d: nat, from: Instant, to: Option<Instant>)
    requires c <= d <= |frames|
    requires forall j | 0 <= j < c || d <= j < |frames| :: !Within(InstantOf(audio, frames[j].dts), from, to)
    ensures Chosen(audio, frames, from, to) == Chosen(audio, frames[c..d], from, to)
  {
    assert frames == frames[..c] + frames[c..d] + frames[d..];
    ChosenAppend(audio, frames[..c] + frames[c..d], frames[d..], from, to);
    ChosenAppend(audio, frames[..c], frames[c..d], from, to);
    ChosenNone(audio, frames[..c], from, to);
    ChosenNone(audio, frames[d..], from, to);
  }

  // ---- what one GOP gives ----

  lemma {:induction false} SameNals(units: seq<AccessUnit>, kept: seq<AccessUnit>, shift: int)
    requires SameUnits(units, kept, shift)
    ensures AllNals(kept) == AllNals(units)
  {
    if |units| > 0 {
      SameNals(units[..|units| - 1], kept[..|kept| - 1], shift);
      assert SameUnit(units[|units| - 1], kept[|units| - 1], shift);
    }
  }

  lemma {:induction false} SameBytes(frames: seq<Frame>, kept: seq<Frame>, shift: int)
    requires SameFrames(frames, kept, shift)
    ensures AllStored(frames) <==> AllStored(kept)
    ensures AllStored(frames) ==> FrameBytes(kept) == FrameBytes(frames)
  {
    if |frames| > 0 {
      var n := |frames| - 1;
      SameBytes(frames[..n], kept[..n], shift);
      assert SameFrame(frames[n], kept[n], shift);
      StoredPush(frames, n);
      StoredPush(kept, n);
    }
  }

  lemma StoredPush(frames: seq<Frame>, n: nat)
    requires |frames| == n + 1
    ensures AllStored(frames) <==> AllStored(frames[..n]) && frames[n].data.Some?
  {
    assert frames == frames[..n] + [frames[n]];
  }

  lemma SameTiming(units: seq<AccessUnit>, kept: seq<AccessUnit>, shift: int, frames: seq<Frame>, keptFrames: seq<Frame>, audioShift: int)
    requires |units| > 0 && SameUnits(units, kept, shift) && SameFrames(frames, keptFrames, audioShift)
    ensures TimingOf(kept, keptFrames) == TimingOf(units, frames)
  {
    var a, b := TimingOf(units, frames), TimingOf(kept, keptFrames);
    assert SameUnit(units[0], kept[0], shift) && SameUnit(units[|units| - 1], kept[|units| - 1], shift);
    forall i | 0 <= i < |units|
      ensures a.videoDts[i] == b.videoDts[i] && a.videoCts[i] == b.videoCts[i]
    {
      assert SameUnit(units[i], kept[i], shift);
    }
    forall j | 0 <= j < |frames|
      ensures a.audioDts[j] == b.audioDts[j] && a.audioDur[j] == b.audioDur[j]
    {
      assert SameFrame(frames[j], keptFrames[j], audioShift) && SameFrame(frames[0], keptFrames[0], audioShift);
    }
    SameEntries(a.videoDts, b.videoDts);
    SameEntries(a.videoCts, b.videoCts);
    SameEntries(a.audioDts, b.audioDts);
    SameEntries(a.audioDur, b.audioDur);
  }

  /** Read from the cut, a GOP is what it was but for where it sits in its track. */
  predicate SameSegment(original: Segment, kept: Segment) {
    kept == original.(videoExtent := kept.videoExtent, audioExtent := kept.audioExtent)
  }

  lemma SegmentKept(h: Hash, hevc: bool, units: seq<AccessUnit>, kept: seq<AccessUnit>, shift: int,
                    frames: seq<Frame>, keptFrames: seq<Frame>, audioShift: int)
    requires |units| > 0 && SameUnits(units, kept, shift) && SameFrames(frames, keptFrames, audioShift) && AllStored(frames)
    ensures AllStored(keptFrames)
    ensures SameSegment(SegmentOf(h, hevc, units, frames), SegmentOf(h, hevc, kept, keptFrames))
  {
    hide TimingOf, AllNals, FrameBytes, HashedNals, SeisIn, ProblemIn, VideoExtentOf, AudioExtent, AllStored, SameUnit, SameFrame;
    SameNals(units, kept, shift);
    SameBytes(frames, keptFrames, audioShift);
    SameTiming(units, kept, shift, frames, keptFrames, audioShift);
  }

  // ---- where the boundaries fall ----

  lemma {:induction false} StartsPrefix(units: seq<AccessUnit>, n: nat, m: nat)
    requires n <= m <= |units|
    ensures StartsUpTo(units, n) <= StartsUpTo(units, m)
    decreases m
  {
    if n < m {
      StartsPrefix(units, n, m - 1);
    }
  }

  /** There are `g` boundaries before boundary `g`. */
  lemma StartsBefore(units: seq<AccessUnit>, g: nat)
    requires g < |Starts(units)|
    ensures |StartsUpTo(units, Starts(units)[g])| == g
  {
    var starts := Starts(units);
    StartsPartition(units, |units|);
    var at := starts[g];
    var before := StartsUpTo(units, at);
    StartsPrefix(units, at, |units|);
    StartsPrefix(units, at + 1, |units|);
    assert StartsUpTo(units, at + 1) == before + [at];
    AscendingOnce(starts, |before|, g);
  }

  lemma AscendingOnce(starts: seq<nat>, i: nat, j: nat)
    requires i < |starts| && j < |starts| && starts[i] == starts[j]
    requires forall k, l | 0 <= k < l < |starts| :: starts[k] < starts[l]
    ensures i == j
  {
  }

  function Shifted(starts: seq<nat>, offset: nat): seq<nat> {
    seq(|starts|, k requires 0 <= k < |starts| => starts[k] + offset)
  }

  lemma ShiftedPush(starts: seq<nat>, last: nat, offset: nat)
    ensures Shifted(starts + [last], offset) == Shifted(starts, offset) + [last + offset]
  {
  }

  lemma StartsStep(units: seq<AccessUnit>, n: nat)
    requires n < |units|
    ensures Opens(units, n) ==> StartsUpTo(units, n + 1) == StartsUpTo(units, n) + [n]
    ensures !Opens(units, n) ==> StartsUpTo(units, n + 1) == StartsUpTo(units, n)
  {
  }

  /** Boundaries of the cut are boundaries of the original, `a` units later. */
  lemma {:induction false} StartsOfCut(units: seq<AccessUnit>, a: nat, kept: seq<AccessUnit>, n: nat)
    requires n <= |kept| && a + |kept| <= |units|
    requires |kept| > 0 ==> Opens(units, a)
    requires forall i | 0 <= i < |kept| :: kept[i].idr == units[a + i].idr
    ensures StartsUpTo(units, a + n) == StartsUpTo(units, a) + Shifted(StartsUpTo(kept, n), a)
  {
    if n > 0 {
      StartsOfCut(units, a, kept, n - 1);
      assert kept[n - 1].idr == units[a + (n - 1)].idr;
      ShiftedPush(StartsUpTo(kept, n - 1), n - 1, a);
      StartsStep(units, a + n - 1);
      StartsStep(kept, n - 1);
      hide StartsUpTo, Shifted;
    }
  }

  // ---- the cut ----

  /** The units, frames and timelines a reading starts from. */
  datatype Media = Media(video: Track, audio: Option<Track>, units: seq<AccessUnit>, frames: seq<Frame>)

  /** Where GOP `g` starts in the track; the end of the track past the last GOP. */
  function Boundary(units: seq<AccessUnit>, g: nat): (at: nat)
    requires g <= |Starts(units)|
    ensures at <= |units|
  {
    if g < |Starts(units)| then Starts(units)[g] else |units|
  }

  /**
   `cut` keeps GOPs `g1` up to `g2` of `m`, whole, and the audio frames `c` up to
   `d`: those dropped at the front are before the first kept GOP, those dropped at
   the back are the ones from the next GOP on, and what is kept keeps its instants.
   */
  ghost predicate IsCut(m: Media, cut: Media, g1: nat, g2: nat, c: nat, d: nat, audioShift: int) {
    && g1 < g2 <= |Starts(m.units)|
    && var a := Boundary(m.units, g1);
    && var b := Boundary(m.units, g2);
    && a < b
    && SameUnits(m.units[a..b], cut.units, m.units[a].dts)
    && cut.video.hevc == m.video.hevc
    && (m.audio.Some? <==> cut.audio.Some?)
    && (m.audio.Some? ==>
          && c <= d <= |m.frames|
          && SameFrames(m.frames[c..d], cut.frames, audioShift)
          && KeepsInstants(m.video, cut.video, m.units[a].dts)
          && KeepsInstants(m.audio.value, cut.audio.value, audioShift)
          && AudioCutAt(m, a, b, c, d))
  }

  ghost predicate AudioCutAt(m: Media, a: nat, b: nat, c: nat, d: nat)
    requires m.audio.Some? && a < b <= |m.units| && c <= d <= |m.frames|
  {
    && (forall j | 0 <= j < c :: Before(InstantOf(m.audio.value, m.frames[j].dts), InstantOf(m.video, m.units[a].dts)))
    && if b == |m.units| then d == |m.frames|
       else forall j | 0 <= j < |m.frames| :: j < d <==> Before(InstantOf(m.audio.value, m.frames[j].dts), InstantOf(m.video, m.units[b].dts))
  }

  lemma BoundariesKept(m: Media, cut: Media, g1: nat, g2: nat, c: nat, d: nat, audioShift: int)
    requires IsCut(m, cut, g1, g2, c, d, audioShift)
    ensures g2 <= |Starts(m.units)| && |Starts(cut.units)| == g2 - g1
    ensures forall k | 0 <= k <= g2 - g1 :: Boundary(cut.units, k) + Boundary(m.units, g1) == Boundary(m.units, g1 + k)
  {
    var a, b := Boundary(m.units, g1), Boundary(m.units, g2);
    SameUnitsSlice(m.units, a, b, cut.units, m.units[a].dts, 0, 0);
    BoundariesOf(m.units, cut.units, g1, g2);
  }

  lemma BoundariesOf(units: seq<AccessUnit>, kept: seq<AccessUnit>, g1: nat, g2: nat)
    requires g1 < g2 <= |Starts(units)|
    requires |kept| == Boundary(units, g2) - Boundary(units, g1)
    requires forall i | 0 <= i < |kept| :: kept[i].idr == units[Boundary(units, g1) + i].idr
    ensures |Starts(kept)| == g2 - g1
    ensures forall k | 0 <= k <= g2 - g1 :: Boundary(kept, k) + Boundary(units, g1) == Boundary(units, g1 + k)
  {
    hide StartsUpTo, Shifted;
    var a, b := Boundary(units, g1), Boundary(units, g2);
    StartsPartition(units, |units|);
    StartsOfCut(units, a, kept, |kept|);
    StartsBefore(units, g1);
    if g2 < |Starts(units)| {
      StartsBefore(units, g2);
    }
    StartsPrefix(units, b, |units|);
    ShiftedTail(StartsUpTo(units, b), StartsUpTo(units, a), Starts(kept), a, Starts(units));
  }

  lemma ShiftedTail(all: seq<nat>, before: seq<nat>, mine: seq<nat>, a: nat, starts: seq<nat>)
    requires all == before + Shifted(mine, a) && all <= starts
    ensures |mine| == |all| - |before|
    ensures forall k | 0 <= k < |mine| :: mine[k] + a == starts[|before| + k]
  {
    forall k | 0 <= k < |mine|
      ensures mine[k] + a == starts[|before| + k]
    {
      assert all[|before| + k] == Shifted(mine, a)[k];
    }
  }

  /** GOP `k` of the cut is GOP `g1 + k` of the original, unit for unit. */
  lemma UnitsKept(m: Media, cut: Media, g1: nat, g2: nat, c: nat, d: nat, audioShift: int, k: nat)
    requires IsCut(m, cut, g1, g2, c, d, audioShift) && k < g2 - g1
    ensures k < |Starts(cut.units)| && g1 + k < |Starts(m.units)|
    ensures SameUnits(UnitsIn(m.units, g1 + k), UnitsIn(cut.units, k), m.units[Boundary(m.units, g1)].dts)
  {
    BoundariesKept(m, cut, g1, g2, c, d, audioShift);
    hide UnitsIn, SameUnits;
    var a, b := Boundary(m.units, g1), Boundary(m.units, g2);
    var x, y := Boundary(cut.units, k), Boundary(cut.units, k + 1);
    assert x + a == Boundary(m.units, g1 + k) && y + a == Boundary(m.units, g1 + k + 1);
    UnitsBetween(cut.units, k);
    UnitsBetween(m.units, g1 + k);
    SameUnitsSlice(m.units, a, b, cut.units, m.units[a].dts, x, y);
  }

  lemma UnitsBetween(units: seq<AccessUnit>, g: nat)
    requires g < |Starts(units)|
    ensures Boundary(units, g) < Boundary(units, g + 1) <= |units|
    ensures UnitsIn(units, g) == units[Boundary(units, g)..Boundary(units, g + 1)]
  {
    StartsPartition(units, |units|);
  }

  lemma SameUnitsSlice(units: seq<AccessUnit>, a: nat, b: nat, kept: seq<AccessUnit>, shift: int, x: nat, y: nat)
    requires a <= b <= |units| && SameUnits(units[a..b], kept, shift) && x <= y <= |kept|
    ensures SameUnits(units[x + a..y + a], kept[x..y], shift)
    ensures forall i | 0 <= i < |kept| :: kept[i].idr == units[a + i].idr
  {
    assert forall i | 0 <= i < |kept| :: SameUnit(units[a..b][i], kept[i], shift);
    forall i | 0 <= i < y - x
      ensures SameUnit(units[x + a..y + a][i], kept[x..y][i], shift)
    {
      assert units[x + a..y + a][i] == units[a..b][x + i];
    }
    forall i | 0 <= i < |kept|
      ensures kept[i].idr == units[a + i].idr
    {
      assert units[a + i] == units[a..b][i];
    }
  }

  /** If every frame is before `end`, an interval without an end takes what one ending there takes. */
  lemma {:induction false} ChosenOpenEnd(audio: Track, frames: seq<Frame>, from: Instant, end: Instant)
    requires forall j | 0 <= j < |frames| :: Before(InstantOf(audio, frames[j].dts), end)
    ensures Chosen(audio, frames, from, None) == Chosen(audio, frames, from, Some(end))
  {
    if |frames| > 0 {
      ChosenOpenEnd(audio, frames[..|frames| - 1], from, end);
    }
  }

  /** The interval of a kept GOP, in the original and in the cut. */
  lemma IntervalsKept(m: Media, cut: Media, g1: nat, g2: nat, c: nat, d: nat, audioShift: int, k: nat)
    requires IsCut(m, cut, g1, g2, c, d, audioShift) && m.audio.Some? && k < g2 - g1 == |Starts(cut.units)|
    ensures Boundary(cut.units, k) < |cut.units| && Boundary(m.units, g1 + k) < |m.units|
    ensures var shift := m.units[Boundary(m.units, g1)].dts;
            cut.units[Boundary(cut.units, k)].dts + shift == m.units[Boundary(m.units, g1 + k)].dts
    ensures var shift := m.units[Boundary(m.units, g1)].dts;
            k + 1 < g2 - g1 ==> Boundary(cut.units, k + 1) < |cut.units| && Boundary(m.units, g1 + k + 1) < |m.units| &&
                                cut.units[Boundary(cut.units, k + 1)].dts + shift == m.units[Boundary(m.units, g1 + k + 1)].dts
  {
    BoundariesKept(m, cut, g1, g2, c, d, audioShift);
    UnitsBetween(cut.units, k);
    UnitsBetween(m.units, g1 + k);
    var a, b := Boundary(m.units, g1), Boundary(m.units, g2);
    assert SameUnit(m.units[a..b][Boundary(cut.units, k)], cut.units[Boundary(cut.units, k)], m.units[a].dts);
    if k + 1 < g2 - g1 {
      UnitsBetween(cut.units, k + 1);
      UnitsBetween(m.units, g1 + k + 1);
      assert SameUnit(m.units[a..b][Boundary(cut.units, k + 1)], cut.units[Boundary(cut.units, k + 1)], m.units[a].dts);
    }
  }

  /** GOP `k` of the cut takes the frames GOP `g1 + k` of the original took. */
  lemma FramesKept(m: Media, cut: Media, g1: nat, g2: nat, c: nat, d: nat, audioShift: int, k: nat)
    requires IsCut(m, cut, g1, g2, c, d, audioShift) && UnitsInOrder(m.units)
    requires k < g2 - g1 == |Starts(cut.units)|
    ensures SameFrames(FramesIn(m.video, m.audio, m.units, m.frames, g1 + k),
                       FramesIn(cut.video, cut.audio, cut.units, cut.frames, k), audioShift)
  {
    if m.audio.Some? {
      hide InstantOf, Chosen, KeepsInstants, Before, SameUnits, SameFrames, StartsUpTo;
      IntervalsKept(m, cut, g1, g2, c, d, audioShift, k);
      DroppedFramesOutside(m, g1, g2, c, d, g1 + k);
      var start, end := IntervalStart(m.video, m.units, Starts(m.units), g1 + k), IntervalEnd(m.video, m.units, Starts(m.units), g1 + k);
      ChosenMiddle(m.audio.value, m.frames, c, d, start, end);
      if k + 1 < g2 - g1 {
        InnerFramesKept(m, cut, g1, g2, c, d, audioShift, k);
      } else {
        LastFramesKept(m, cut, g1, g2, c, d, audioShift);
      }
    }
  }

  lemma InnerFramesKept(m: Media, cut: Media, g1: nat, g2: nat, c: nat, d: nat, audioShift: int, k: nat)
    requires IsCut(m, cut, g1, g2, c, d, audioShift) && m.audio.Some?
    requires k + 1 < g2 - g1 == |Starts(cut.units)|
    ensures Boundary(m.units, g1 + k) < |m.units|
    ensures SameFrames(Chosen(m.audio.value, m.frames[c..d], IntervalStart(m.video, m.units, Starts(m.units), g1 + k), IntervalEnd(m.video, m.units, Starts(m.units), g1 + k)),
                       FramesIn(cut.video, cut.audio, cut.units, cut.frames, k), audioShift)
  {
    hide InstantOf, Chosen, KeepsInstants, Before, SameUnits, SameFrames, StartsUpTo;
    IntervalsKept(m, cut, g1, g2, c, d, audioShift, k);
    ChosenKept(m.audio.value, cut.audio.value, audioShift, m.video, cut.video, m.units[Boundary(m.units, g1)].dts, m.frames[c..d], cut.frames,
               cut.units[Boundary(cut.units, k)].dts, Some(cut.units[Boundary(cut.units, k + 1)].dts));
  }

  /** The last GOP a cut keeps runs to the end of the cut track, where no frame of the next one is left. */
  lemma LastFramesKept(m: Media, cut: Media, g1: nat, g2: nat, c: nat, d: nat, audioShift: int)
    requires IsCut(m, cut, g1, g2, c, d, audioShift) && m.audio.Some?
    requires g2 - g1 == |Starts(cut.units)|
    ensures Boundary(m.units, g2 - 1) < |m.units|
    ensures SameFrames(Chosen(m.audio.value, m.frames[c..d], IntervalStart(m.video, m.units, Starts(m.units), g2 - 1), IntervalEnd(m.video, m.units, Starts(m.units), g2 - 1)),
                       FramesIn(cut.video, cut.audio, cut.units, cut.frames, g2 - g1 - 1), audioShift)
  {
    hide InstantOf, Chosen, KeepsInstants, Before, SameUnits, SameFrames, StartsUpTo;
    var k := g2 - g1 - 1;
    IntervalsKept(m, cut, g1, g2, c, d, audioShift, k);
    ChosenKept(m.audio.value, cut.audio.value, audioShift, m.video, cut.video, m.units[Boundary(m.units, g1)].dts, m.frames[c..d], cut.frames,
               cut.units[Boundary(cut.units, k)].dts, None);
    var b := Boundary(m.units, g2);
    if b < |m.units| {
      ChosenOpenEnd(m.audio.value, m.frames[c..d], IntervalStart(m.video, m.units, Starts(m.units), g2 - 1), InstantOf(m.video, m.units[b].dts));
    }
  }

  /** The frames a cut drops are in no GOP it keeps. */
  lemma DroppedFramesOutside(m: Media, g1: nat, g2: nat, c: nat, d: nat, g: nat)
    requires m.audio.Some? && Aligned(m.video) && Aligned(m.audio.value) && UnitsInOrder(m.units)
    requires g1 <= g < g2 <= |Starts(m.units)| && c <= d <= |m.frames|
    requires Boundary(m.units, g1) < Boundary(m.units, g2)
    requires AudioCutAt(m, Boundary(m.units, g1), Boundary(m.units, g2), c, d)
    ensures Boundary(m.units, g) < |m.units|
    ensures forall j | 0 <= j < c || d <= j < |m.frames| ::
              !Within(InstantOf(m.audio.value, m.frames[j].dts), IntervalStart(m.video, m.units, Starts(m.units), g), IntervalEnd(m.video, m.units, Starts(m.units), g))
  {
    hide InstantOf, Before;
    StartsPartition(m.units, |m.units|);
    var a, b, at := Boundary(m.units, g1), Boundary(m.units, g2), Boundary(m.units, g);
    var end := Boundary(m.units, g + 1);
    assert a <= at && end <= b;
    hide UnitsInOrder, Boundary, Starts;
    forall j | 0 <= j < c || d <= j < |m.frames|
      ensures !Within(InstantOf(m.audio.value, m.frames[j].dts), IntervalStart(m.video, m.units, Starts(m.units), g), IntervalEnd(m.video, m.units, Starts(m.units), g))
    {
      if j < c {
        EarlierIsOutside(m.video, m.audio.value, m.frames[j].dts, m.units[a].dts, m.units[at].dts);
      } else {
        LaterIsOutside(m.video, m.audio.value, m.frames[j].dts, m.units[b].dts, m.units[end].dts);
      }
    }
  }

  lemma EarlierIsOutside(video: Track, audio: Track, frame: int, a: int, at: int)
    requires Aligned(video) && Aligned(audio) && a <= at && Before(InstantOf(audio, frame), InstantOf(video, a))
    ensures Before(InstantOf(audio, frame), InstantOf(video, at))
  {
    InstantPositive(audio, frame);
    InstantPositive(video, a);
    InstantPositive(video, at);
    hide InstantOf, Before;
    LaterIsNotBefore(video, a, at);
    BeforeTransitive(InstantOf(audio, frame), InstantOf(video, a), InstantOf(video, at));
  }

  lemma LaterIsOutside(video: Track, audio: Track, frame: int, b: int, end: int)
    requires Aligned(video) && Aligned(audio) && end <= b && !Before(InstantOf(audio, frame), InstantOf(video, b))
    ensures !Before(InstantOf(audio, frame), InstantOf(video, end))
  {
    InstantPositive(audio, frame);
    InstantPositive(video, b);
    InstantPositive(video, end);
    hide InstantOf, Before;
    LaterIsNotBefore(video, end, b);
    BeforeTransitive(InstantOf(audio, frame), InstantOf(video, b), InstantOf(video, end));
  }

  /**
   Whatever GOPs are cut off either end, the ones kept are read as they were:
   the same bytes hashed, the same SEIs, the same timing values.
   */
  lemma CutKeepsGops(h: Hash, m: Media, cut: Media, g1: nat, g2: nat, c: nat, d: nat, audioShift: int)
    requires IsCut(m, cut, g1, g2, c, d, audioShift) && UnitsInOrder(m.units)
    requires GopsOf(h, m.video, m.audio, m.units, m.frames).Some?
    ensures GopsOf(h, cut.video, cut.audio, cut.units, cut.frames).Some?
    ensures var gops, kept := GopsOf(h, m.video, m.audio, m.units, m.frames).value, GopsOf(h, cut.video, cut.audio, cut.units, cut.frames).value;
            |kept| == g2 - g1 && forall k | 0 <= k < |kept| :: SameSegment(gops[g1 + k], kept[k])
  {
    hide SegmentOf, FramesIn, UnitsIn, AllStored, IsCut, StartsUpTo, UnitsInOrder, SameSegment;
    BoundariesKept(m, cut, g1, g2, c, d, audioShift);
    forall k | 0 <= k < g2 - g1
      ensures AllStored(FramesIn(cut.video, cut.audio, cut.units, cut.frames, k))
    {
      GopKept(h, m, cut, g1, g2, c, d, audioShift, k);
    }
    var gops, kept := GopsOf(h, m.video, m.audio, m.units, m.frames).value, GopsOf(h, cut.video, cut.audio, cut.units, cut.frames).value;
    forall k | 0 <= k < g2 - g1
      ensures SameSegment(gops[g1 + k], kept[k])
    {
      GopKept(h, m, cut, g1, g2, c, d, audioShift, k);
    }
  }

  lemma GopKept(h: Hash, m: Media, cut: Media, g1: nat, g2: nat, c: nat, d: nat, audioShift: int, k: nat)
    requires IsCut(m, cut, g1, g2, c, d, audioShift) && UnitsInOrder(m.units)
    requires k < g2 - g1 == |Starts(cut.units)|
    requires AllStored(FramesIn(m.video, m.audio, m.units, m.frames, g1 + k))
    ensures AllStored(FramesIn(cut.video, cut.audio, cut.units, cut.frames, k))
    ensures SameSegment(SegmentOf(h, m.video.hevc, UnitsIn(m.units, g1 + k), FramesIn(m.video, m.audio, m.units, m.frames, g1 + k)),
                        SegmentOf(h, cut.video.hevc, UnitsIn(cut.units, k), FramesIn(cut.video, cut.audio, cut.units, cut.frames, k)))
  {
    UnitsKept(m, cut, g1, g2, c, d, audioShift, k);
    FramesKept(m, cut, g1, g2, c, d, audioShift, k);
    hide SegmentOf, FramesIn, UnitsIn, AllStored, SameUnits, SameFrames;
    SegmentKept(h, m.video.hevc, UnitsIn(m.units, g1 + k), UnitsIn(cut.units, k), m.units[Boundary(m.units, g1)].dts,
                FramesIn(m.video, m.audio, m.units, m.frames, g1 + k), FramesIn(cut.video, cut.audio, cut.units, cut.frames, k), audioShift);
  }
}

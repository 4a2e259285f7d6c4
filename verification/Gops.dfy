/**
 From sample tables to GOPs (`readContainer`, tools/src/container.ts): IDR
 boundaries, the bytes each GOP hashes, the audio frames it takes and the
 timing values it shows.
 */
module Gops {
  import opened ByteStrings
  import opened Primitives
  import opened SampleTables
  import opened Timing
  import opened Nal

  /** A track as the tables and its edit list give it. */
  datatype Track = Track(
    timescale: int, delayNum: int, delayDen: int, mediaStart: int, mediaEdit: Option<MediaEdit>,
    unsupportedEdit: Option<string>, lengthSize: nat, hevc: bool, samples: seq<Sample>)

  /** A time on the movie's presentation timeline, as an exact fraction of a second. */
  datatype Instant = Instant(num: int, den: int)

  predicate Before(a: Instant, b: Instant) {
    a.num * b.den < b.num * a.den
  }

  /** Delay + (dts - media start). */
  function InstantOf(track: Track, dts: int): Instant {
    Instant(track.delayNum * track.timescale + (dts - track.mediaStart) * track.delayDen, track.delayDen * track.timescale)
  }

  /** Half-open: `to` is none for the last segment, which runs to the end of the track. */
  predicate Within(at: Instant, from: Instant, to: Option<Instant>) {
    !Before(at, from) && (to.None? || Before(at, to.value))
  }

  // ---- access units and audio frames ----

  datatype AccessUnit = AccessUnit(nals: seq<Buffer>, idr: bool, dts: nat, duration: nat, cts: int)

  /** An audio frame; `data` is none when the sample lies beyond the end of the file. */
  datatype Frame = Frame(data: Option<Buffer>, dts: nat, duration: nat)

  function Stored(file: Buffer, sample: Sample): Option<Buffer> {
    if sample.offset + sample.size > |file| then None else Some(file[sample.offset..sample.offset + sample.size])
  }

  function HasIdr(nals: seq<Buffer>, hevc: bool): bool {
    exists i | 0 <= i < |nals| :: IsIdr(nals[i], hevc)
  }

  function UnitOf(file: Buffer, video: Track, sample: Sample): Option<AccessUnit>
    requires video.lengthSize > 0
  {
    var data := Stored(file, sample);
    if data.None? then None
    else
      var nals := Nals(data.value, video.lengthSize);
      if nals.None? then None
      else Some(AccessUnit(nals.value, HasIdr(nals.value, video.hevc), sample.dts, sample.duration, sample.cts))
  }

  predicate UnitsReadable(file: Buffer, video: Track)
    requires video.lengthSize > 0
  {
    forall i | 0 <= i < |video.samples| :: UnitOf(file, video, video.samples[i]).Some?
  }

  function UnitsOf(file: Buffer, video: Track): seq<AccessUnit>
    requires video.lengthSize > 0 && UnitsReadable(file, video)
  {
    seq(|video.samples|, i requires 0 <= i < |video.samples| => UnitOf(file, video, video.samples[i]).value)
  }

  function FrameOf(file: Buffer, sample: Sample): Frame {
    Frame(Stored(file, sample), sample.dts, sample.duration)
  }

  function FramesOf(file: Buffer, samples: seq<Sample>): (frames: seq<Frame>)
    ensures |frames| == |samples|
  {
    seq(|samples|, i requires 0 <= i < |samples| => FrameOf(file, samples[i]))
  }

  // ---- GOP boundaries ----

  predicate Opens(units: seq<AccessUnit>, i: nat)
    requires i < |units|
  {
    units[i].idr || i == 0
  }

  /** The boundaries among the first `n` units. */
  function StartsUpTo(units: seq<AccessUnit>, n: nat): (starts: seq<nat>)
    requires n <= |units|
    ensures forall k | 0 <= k < |starts| :: starts[k] < n
  {
    if n == 0 then [] else StartsUpTo(units, n - 1) + if Opens(units, n - 1) then [n - 1] else []
  }

  function Starts(units: seq<AccessUnit>): seq<nat> {
    StartsUpTo(units, |units|)
  }

  /** Where GOP `g` ends: the next boundary, or the end of the track. */
  function EndOf(units: seq<AccessUnit>, starts: seq<nat>, g: nat): nat
    requires g < |starts|
  {
    if g + 1 < |starts| then starts[g + 1] else |units|
  }

  /** Boundaries ascend from 0, open a GOP each, and nothing between two of them does. */
  lemma {:induction false} StartsPartition(units: seq<AccessUnit>, n: nat)
    requires n <= |units|
    ensures var starts := StartsUpTo(units, n);
            && (n > 0 ==> |starts| > 0 && starts[0] == 0)
            && (forall k | 0 <= k < |starts| :: Opens(units, starts[k]))
            && (forall k, l | 0 <= k < l < |starts| :: starts[k] < starts[l])
            && (forall i | 0 <= i < n && Opens(units, i) :: i in starts)
  {
    hide Opens;
    if n > 0 {
      StartsPartition(units, n - 1);
      var before, starts := StartsUpTo(units, n - 1), StartsUpTo(units, n);
      assert starts == before || starts == before + [n - 1];
      FirstOpens(units);
      hide StartsUpTo;
    }
  }

  lemma FirstOpens(units: seq<AccessUnit>)
    requires |units| > 0
    ensures Opens(units, 0)
  {
  }

  // ---- what a GOP's units give ----

  function AllNals(units: seq<AccessUnit>): seq<Buffer> {
    if |units| == 0 then [] else AllNals(units[..|units| - 1]) + units[|units| - 1].nals
  }

  /** The bytes hashed: every NAL but the ones that carry or misuse the vcap UUID. */
  function HashedNals(nals: seq<Buffer>, hevc: bool): Buffer {
    if |nals| == 0 then []
    else HashedNals(nals[..|nals| - 1], hevc) + if SeiOf(nals[|nals| - 1], hevc).NotVcap? then nals[|nals| - 1] else []
  }

  function SeisIn(nals: seq<Buffer>, hevc: bool): (seis: seq<SeiReading>)
    ensures forall i | 0 <= i < |seis| :: seis[i].Vcap?
  {
    if |nals| == 0 then []
    else
      var last := SeiOf(nals[|nals| - 1], hevc);
      SeisIn(nals[..|nals| - 1], hevc) + if last.Vcap? then [last] else []
  }

  /** The first vcap SEI in a shape the format does not allow. */
  function ProblemIn(nals: seq<Buffer>, hevc: bool): Option<SeiReading> {
    if |nals| == 0 then None
    else
      var before := ProblemIn(nals[..|nals| - 1], hevc);
      var last := SeiOf(nals[|nals| - 1], hevc);
      if before.None? && !last.Vcap? && !last.NotVcap? then Some(last) else before
  }

  /** The audio frames of `[from, to)`, in decode order. */
  function Chosen(audio: Track, frames: seq<Frame>, from: Instant, to: Option<Instant>): seq<Frame> {
    if |frames| == 0 then []
    else
      var last := frames[|frames| - 1];
      Chosen(audio, frames[..|frames| - 1], from, to) + if Within(InstantOf(audio, last.dts), from, to) then [last] else []
  }

  predicate AllStored(frames: seq<Frame>) {
    forall j | 0 <= j < |frames| :: frames[j].data.Some?
  }

  function FrameBytes(frames: seq<Frame>): Buffer
    requires AllStored(frames)
  {
    if |frames| == 0 then [] else FrameBytes(frames[..|frames| - 1]) + frames[|frames| - 1].data.value
  }

  /** The timing values of a GOP, measured from its first unit and its first audio frame. */
  function TimingOf(units: seq<AccessUnit>, frames: seq<Frame>): (t: TimingValues)
    requires |units| > 0
    ensures t.Paired() && |t.videoDts| == |units| && |t.audioDts| == |frames|
  {
    var dts0 := units[0].dts;
    var last := units[|units| - 1];
    TimingValues(
      seq(|units|, i requires 0 <= i < |units| => units[i].dts - dts0),
      seq(|units|, i requires 0 <= i < |units| => units[i].cts),
      last.dts + last.duration - dts0,
      seq(|frames|, j requires 0 <= j < |frames| => frames[j].dts - frames[0].dts),
      seq(|frames|, j requires 0 <= j < |frames| => frames[j].duration))
  }

  /** What a GOP of the received file is read as; `hashed` are the bytes `contentHash` is taken over. */
  datatype Segment = Segment(
    index: Option<nat>, captureId: Option<Buffer>, seiCount: nat, problem: Option<SeiReading>,
    hashed: Buffer, contentHash: Digest, timing: TimingValues, videoExtent: Extent, audioExtent: Option<Extent>)

  function SegmentOf(h: Hash, hevc: bool, units: seq<AccessUnit>, frames: seq<Frame>): Segment
    requires |units| > 0 && AllStored(frames)
  {
    var nals := AllNals(units);
    var seis := SeisIn(nals, hevc);
    var hashed := HashedNals(nals, hevc) + FrameBytes(frames);
    var timing := TimingOf(units, frames);
    Segment(
      if |seis| > 0 then Some(seis[0].index) else None,
      if |seis| > 0 then Some(seis[0].captureId) else None,
      |seis|, ProblemIn(nals, hevc), hashed, h(hashed), timing,
      VideoExtentOf(timing, units[0].dts),
      if |frames| > 0 then AudioExtent(timing, frames[0].dts) else None)
  }

  /** The interval GOP `g` occupies on the presentation timeline. */
  function IntervalStart(video: Track, units: seq<AccessUnit>, starts: seq<nat>, g: nat): Instant
    requires g < |starts| && starts[g] < |units|
  {
    InstantOf(video, units[starts[g]].dts)
  }

  function IntervalEnd(video: Track, units: seq<AccessUnit>, starts: seq<nat>, g: nat): Option<Instant>
    requires g < |starts|
  {
    var to := EndOf(units, starts, g);
    if to < |units| then Some(InstantOf(video, units[to].dts)) else None
  }

  /** The audio frames GOP `g` takes. */
  function FramesIn(video: Track, audio: Option<Track>, units: seq<AccessUnit>, frames: seq<Frame>, g: nat): seq<Frame>
    requires g < |Starts(units)|
  {
    if audio.None? then []
    else Chosen(audio.value, frames, IntervalStart(video, units, Starts(units), g), IntervalEnd(video, units, Starts(units), g))
  }

  function UnitsIn(units: seq<AccessUnit>, g: nat): (slice: seq<AccessUnit>)
    requires g < |Starts(units)|
    ensures |slice| > 0
  {
    StartsPartition(units, |units|);
    units[Starts(units)[g]..EndOf(units, Starts(units), g)]
  }

  datatype Presentation = Presentation(config: Buffer, matrix: seq<int>, display: seq<int>)

  datatype Reading =
    | Unreadable(reason: string)
    | Malformed
    | Read(gops: seq<Segment>, timescales: Timescales, videoEdit: Option<MediaEdit>, audioEdit: Option<MediaEdit>,
           presentation: Option<Presentation>, layout: Option<string>)

  /** The GOPs of a track, or none when a frame one of them takes lies beyond the end of the file. */
  function GopsOf(h: Hash, video: Track, audio: Option<Track>, units: seq<AccessUnit>, frames: seq<Frame>): Option<seq<Segment>> {
    if forall g | 0 <= g < |Starts(units)| :: AllStored(FramesIn(video, audio, units, frames, g))
    then Some(seq(|Starts(units)|, g requires 0 <= g < |Starts(units)| && AllStored(FramesIn(video, audio, units, frames, g)) =>
                  SegmentOf(h, video.hevc, UnitsIn(units, g), FramesIn(video, audio, units, frames, g))))
    else None
  }

  /** What `readContainer` answers for a file whose tracks were read. */
  function ReadingOf(h: Hash, file: Buffer, video: Option<Track>, audio: Option<Track>, presentation: Option<Presentation>, layout: Option<string>): Reading
    requires video.Some? ==> video.value.lengthSize > 0
  {
    if video.None? then Unreadable("no H.264 or H.265 video track")
    else
      var v := video.value;
      if v.unsupportedEdit.Some? then Unreadable(v.unsupportedEdit.value)
      else if audio.Some? && audio.value.unsupportedEdit.Some? then Unreadable(audio.value.unsupportedEdit.value)
      else if !UnitsReadable(file, v) then Malformed
      else
        var frames := if audio.Some? then FramesOf(file, audio.value.samples) else [];
        var gops := GopsOf(h, v, audio, UnitsOf(file, v), frames);
        if gops.None? then Malformed
        else Read(gops.value, Timescales(v.timescale, if audio.Some? then Some(audio.value.timescale) else None),
                  v.mediaEdit, if audio.Some? then audio.value.mediaEdit else None, presentation, layout)
  }

  // ---- the loops ----

  method FindStarts(units: seq<AccessUnit>) returns (starts: seq<nat>)
    ensures starts == Starts(units)
  {
    starts := [];
    for i := 0 to |units|
      invariant starts == StartsUpTo(units, i)
    {
      if units[i].idr || i == 0 {
        starts := starts + [i];
      }
    }
  }

  method ReadUnits(file: Buffer, video: Track) returns (units: Option<seq<AccessUnit>>)
    requires video.lengthSize > 0
    ensures units.Some? <==> UnitsReadable(file, video)
    ensures units.Some? ==> units.value == UnitsOf(file, video)
  {
    var out: seq<AccessUnit> := [];
    for i := 0 to |video.samples|
      invariant |out| == i
      invariant forall j | 0 <= j < i :: UnitOf(file, video, video.samples[j]) == Some(out[j])
    {
      var sample := video.samples[i];
      if sample.offset + sample.size > |file| {
        assert UnitOf(file, video, video.samples[i]).None?;
        return None;
      }
      var nals := NalsOf(file[sample.offset..sample.offset + sample.size], video.lengthSize);
      if nals.None? {
        assert UnitOf(file, video, video.samples[i]).None?;
        return None;
      }
      out := out + [AccessUnit(nals.value, HasIdr(nals.value, video.hevc), sample.dts, sample.duration, sample.cts)];
    }
    return Some(out);
  }

  /** The loop over one access unit's NALs: hash, skip or report each. */
  method TakeNals(nals: seq<Buffer>, hevc: bool, hashed: Buffer, seis: seq<SeiReading>, problem: Option<SeiReading>, ghost before: seq<Buffer>)
    returns (hashed': Buffer, seis': seq<SeiReading>, problem': Option<SeiReading>)
    requires hashed == HashedNals(before, hevc) && seis == SeisIn(before, hevc) && problem == ProblemIn(before, hevc)
    ensures hashed' == HashedNals(before + nals, hevc)
    ensures seis' == SeisIn(before + nals, hevc)
    ensures problem' == ProblemIn(before + nals, hevc)
  {
    hide SeiOf;
    hashed', seis', problem' := hashed, seis, problem;
    assert before + nals[..0] == before;
    for i := 0 to |nals|
      invariant hashed' == HashedNals(before + nals[..i], hevc)
      invariant seis' == SeisIn(before + nals[..i], hevc)
      invariant problem' == ProblemIn(before + nals[..i], hevc)
    {
      OneMoreNal(before, nals, i, hevc);
      hide HashedNals, SeisIn, ProblemIn;
      var sei := VcapSei(nals[i], hevc);
      if sei.Vcap? {
        seis' := seis' + [sei];
      } else if sei.NotVcap? {
        hashed' := hashed' + nals[i];
      } else if problem'.None? {
        problem' := Some(sei);
      }
    }
    assert before + nals[..|nals|] == before + nals;
  }

  lemma OneMoreNal(before: seq<Buffer>, nals: seq<Buffer>, i: nat, hevc: bool)
    requires i < |nals|
    ensures var sei, seen, next := SeiOf(nals[i], hevc), before + nals[..i], before + nals[..i + 1];
            && HashedNals(next, hevc) == (if sei.NotVcap? then HashedNals(seen, hevc) + nals[i] else HashedNals(seen, hevc))
            && SeisIn(next, hevc) == (if sei.Vcap? then SeisIn(seen, hevc) + [sei] else SeisIn(seen, hevc))
            && ProblemIn(next, hevc) == if ProblemIn(seen, hevc).None? && !sei.Vcap? && !sei.NotVcap? then Some(sei) else ProblemIn(seen, hevc)
  {
    hide SeiOf;
    var next := before + nals[..i + 1];
    assert next[..|next| - 1] == before + nals[..i] && next[|next| - 1] == nals[i];
  }

  lemma NoNals(hevc: bool)
    ensures HashedNals([], hevc) == [] && SeisIn([], hevc) == [] && ProblemIn([], hevc) == None
  {
  }

  /** The loop over a GOP's access units. */
  method TakeUnits(units: seq<AccessUnit>, hevc: bool) returns (
      hashed: Buffer, seis: seq<SeiReading>, problem: Option<SeiReading>, videoDts: seq<int>, videoCts: seq<int>)
    requires |units| > 0
    ensures var nals := AllNals(units);
            hashed == HashedNals(nals, hevc) && seis == SeisIn(nals, hevc) && problem == ProblemIn(nals, hevc)
    ensures |videoDts| == |videoCts| == |units|
    ensures forall i | 0 <= i < |units| :: videoDts[i] == units[i].dts - units[0].dts && videoCts[i] == units[i].cts
  {
    hide HashedNals, SeisIn, ProblemIn;
    hashed, seis, problem, videoDts, videoCts := [], [], None, [], [];
    NoNals(hevc);
    for i := 0 to |units|
      invariant hashed == HashedNals(AllNals(units[..i]), hevc)
      invariant seis == SeisIn(AllNals(units[..i]), hevc)
      invariant problem == ProblemIn(AllNals(units[..i]), hevc)
      invariant |videoDts| == |videoCts| == i
      invariant forall j | 0 <= j < i :: videoDts[j] == units[j].dts - units[0].dts && videoCts[j] == units[j].cts
    {
      videoDts := videoDts + [units[i].dts - units[0].dts];
      videoCts := videoCts + [units[i].cts];
      assert units[..i + 1][..i] == units[..i];
      hashed, seis, problem := TakeNals(units[i].nals, hevc, hashed, seis, problem, AllNals(units[..i]));
    }
    assert units[..|units|] == units;
  }

  /** What the audio loop has gathered once it took the frames `chosen`. */
  ghost predicate Gathered(chosen: seq<Frame>, bytes: Buffer, audioDts: seq<int>, audioDur: seq<int>, adts0: Option<nat>) {
    && AllStored(chosen) && bytes == FrameBytes(chosen)
    && |audioDts| == |audioDur| == |chosen|
    && (forall j | 0 <= j < |chosen| :: audioDts[j] == chosen[j].dts - chosen[0].dts && audioDur[j] == chosen[j].duration)
    && adts0 == if |chosen| > 0 then Some(chosen[0].dts) else None
  }

  lemma GatherOne(chosen: seq<Frame>, bytes: Buffer, audioDts: seq<int>, audioDur: seq<int>, adts0: Option<nat>, frame: Frame)
    requires Gathered(chosen, bytes, audioDts, audioDur, adts0) && frame.data.Some?
    ensures var first := if adts0.None? then frame.dts else adts0.value;
            Gathered(chosen + [frame], bytes + frame.data.value, audioDts + [frame.dts - first], audioDur + [frame.duration], Some(first))
  {
    assert (chosen + [frame])[..|chosen|] == chosen;
  }

  lemma ChosenStep(audio: Track, frames: seq<Frame>, from: Instant, to: Option<Instant>, i: nat)
    requires i < |frames|
    ensures !Within(InstantOf(audio, frames[i].dts), from, to) ==>
              Chosen(audio, frames[..i + 1], from, to) == Chosen(audio, frames[..i], from, to)
    ensures Within(InstantOf(audio, frames[i].dts), from, to) ==>
              Chosen(audio, frames[..i + 1], from, to) == Chosen(audio, frames[..i], from, to) + [frames[i]]
  {
    assert frames[..i + 1][..i] == frames[..i];
    assert Chosen(audio, frames[..i], from, to) + [] == Chosen(audio, frames[..i], from, to);
  }

  /** One audio frame into the hash and the timing values. */
  method TakeFrame(data: Buffer, sample: Sample, hashed: Buffer, audioDts: seq<int>, audioDur: seq<int>, adts0: Option<nat>, ghost chosen: seq<Frame>)
    returns (hashed': Buffer, audioDts': seq<int>, audioDur': seq<int>, adts0': Option<nat>)
    requires Gathered(chosen, hashed, audioDts, audioDur, adts0)
    ensures Gathered(chosen + [Frame(Some(data), sample.dts, sample.duration)], hashed', audioDts', audioDur', adts0')
  {
    GatherOne(chosen, hashed, audioDts, audioDur, adts0, Frame(Some(data), sample.dts, sample.duration));
    hide Gathered;
    hashed' := hashed + data;
    adts0' := if adts0.None? then Some(sample.dts) else adts0;
    audioDts' := audioDts + [sample.dts - adts0'.value];
    audioDur' := audioDur + [sample.duration];
  }

  /** The loop over the audio track: the frames of one GOP, or none when one of them is not in the file. */
  method TakeAudio(file: Buffer, audio: Track, from: Instant, to: Option<Instant>) returns (
      bytes: Option<Buffer>, audioDts: seq<int>, audioDur: seq<int>, adts0: Option<nat>)
    ensures var chosen := Chosen(audio, FramesOf(file, audio.samples), from, to);
            && (bytes.Some? <==> AllStored(chosen))
            && (bytes.Some? ==> Gathered(chosen, bytes.value, audioDts, audioDur, adts0))
  {
    hide Chosen, Gathered, Before, InstantOf, AllStored, FrameBytes;
    ghost var frames := FramesOf(file, audio.samples);
    var hashed: Buffer := [];
    audioDts, audioDur, adts0 := [], [], None;
    NothingGathered(audio, frames[..0], from, to);
    for i := 0 to |audio.samples|
      invariant Gathered(Chosen(audio, frames[..i], from, to), hashed, audioDts, audioDur, adts0)
    {
      var sample := audio.samples[i];
      var at := InstantOf(audio, sample.dts);
      ChosenStep(audio, frames, from, to, i);
      if !Before(at, from) && (to.None? || Before(at, to.value)) {
        if sample.offset + sample.size > |file| {
          MissingFrame(audio, frames, from, to, i);
          return None, audioDts, audioDur, adts0;
        }
        var data := file[sample.offset..sample.offset + sample.size];
        assert frames[i] == Frame(Some(data), sample.dts, sample.duration);
        hashed, audioDts, audioDur, adts0 := TakeFrame(data, sample, hashed, audioDts, audioDur, adts0, Chosen(audio, frames[..i], from, to));
      }
    }
    assert frames[..|frames|] == frames;
    WholeTrack(audio, frames, from, to, hashed, audioDts, audioDur, adts0);
    bytes := Some(hashed);
  }

  lemma NothingGathered(audio: Track, frames: seq<Frame>, from: Instant, to: Option<Instant>)
    requires |frames| == 0
    ensures Gathered(Chosen(audio, frames, from, to), [], [], [], None)
    ensures Gathered([], [], [], [], None)
  {
  }

  lemma WholeTrack(audio: Track, frames: seq<Frame>, from: Instant, to: Option<Instant>, hashed: Buffer, audioDts: seq<int>, audioDur: seq<int>, adts0: Option<nat>)
    requires Gathered(Chosen(audio, frames, from, to), hashed, audioDts, audioDur, adts0)
    ensures AllStored(Chosen(audio, frames, from, to))
  {
  }

  lemma {:induction false} ChosenGrows(audio: Track, frames: seq<Frame>, from: Instant, to: Option<Instant>, n: nat)
    requires n <= |frames|
    ensures Chosen(audio, frames[..n], from, to) <= Chosen(audio, frames, from, to)
    decreases |frames|
  {
    if n < |frames| {
      var most := frames[..|frames| - 1];
      ChosenGrows(audio, most, from, to, n);
      assert most[..n] == frames[..n];
    } else {
      assert frames[..n] == frames;
    }
  }

  /** The values the loops gather are the ones `SegmentOf` names. */
  lemma Assembled(h: Hash, hevc: bool, units: seq<AccessUnit>, frames: seq<Frame>, videoDts: seq<int>, videoCts: seq<int>,
                  bytes: Buffer, audioDts: seq<int>, audioDur: seq<int>, adts0: Option<nat>)
    requires |units| > 0 && Gathered(frames, bytes, audioDts, audioDur, adts0)
    requires |videoDts| == |videoCts| == |units|
    requires forall i | 0 <= i < |units| :: videoDts[i] == units[i].dts - units[0].dts && videoCts[i] == units[i].cts
    ensures var last := units[|units| - 1];
            TimingOf(units, frames) == TimingValues(videoDts, videoCts, last.dts + last.duration - units[0].dts, audioDts, audioDur)
    ensures bytes == FrameBytes(frames)
    ensures adts0 == if |frames| > 0 then Some(frames[0].dts) else None
  {
    hide FrameBytes;
    SameEntries(videoDts, seq(|units|, i requires 0 <= i < |units| => units[i].dts - units[0].dts));
    SameEntries(videoCts, seq(|units|, i requires 0 <= i < |units| => units[i].cts));
    SameEntries(audioDts, seq(|frames|, j requires 0 <= j < |frames| => frames[j].dts - frames[0].dts));
    SameEntries(audioDur, seq(|frames|, j requires 0 <= j < |frames| => frames[j].duration));
  }

  lemma SameEntries(a: seq<int>, b: seq<int>)
    requires |a| == |b| && forall i | 0 <= i < |a| :: a[i] == b[i]
    ensures a == b
  {
  }

  /** The frames GOP `g` of a file takes. */
  function FramesOfGop(file: Buffer, video: Track, audio: Option<Track>, units: seq<AccessUnit>, g: nat): seq<Frame>
    requires g < |Starts(units)|
  {
    FramesIn(video, audio, units, if audio.Some? then FramesOf(file, audio.value.samples) else [], g)
  }

  /** One chosen frame outside the file is enough. */
  lemma MissingFrame(audio: Track, frames: seq<Frame>, from: Instant, to: Option<Instant>, i: nat)
    requires i < |frames| && frames[i].data.None? && Within(InstantOf(audio, frames[i].dts), from, to)
    ensures !AllStored(Chosen(audio, frames, from, to))
  {
    ChosenGrows(audio, frames, from, to, i + 1);
    ChosenStep(audio, frames, from, to, i);
    var n := |Chosen(audio, frames[..i], from, to)|;
    assert Chosen(audio, frames, from, to)[n].data.None?;
  }

  method ReadGop(h: Hash, file: Buffer, video: Track, audio: Option<Track>, units: seq<AccessUnit>, starts: seq<nat>, g: nat)
    returns (segment: Option<Segment>)
    requires starts == Starts(units) && g < |starts|
    ensures var frames := FramesOfGop(file, video, audio, units, g);
            segment == if AllStored(frames) then Some(SegmentOf(h, video.hevc, UnitsIn(units, g), frames)) else None
  {
    hide HashedNals, SeisIn, ProblemIn, AllNals, Chosen, Gathered, TimingOf, VideoExtentOf, FrameBytes, InstantOf, StartsUpTo;
    StartsPartition(units, |units|);
    var from := starts[g];
    var to := if g + 1 < |starts| then starts[g + 1] else |units|;
    assert from < to <= |units|;
    var slice := units[from..to];
    assert slice[0] == units[from];
    assert slice == UnitsIn(units, g);
    assert slice[0] == units[from] && slice[|slice| - 1] == units[to - 1];
    var hashed, seis, problem, videoDts, videoCts := TakeUnits(slice, video.hevc);
    var dts0 := units[from].dts;
    var last := units[to - 1];
    var bytes: Option<Buffer>, audioDts: seq<int>, audioDur: seq<int>, adts0: Option<nat> := Some([]), [], [], None;
    if audio.Some? {
      var fromInstant := InstantOf(video, units[from].dts);
      var toInstant := if to < |units| then Some(InstantOf(video, units[to].dts)) else None;
      bytes, audioDts, audioDur, adts0 := TakeAudio(file, audio.value, fromInstant, toInstant);
    } else {
      NothingGathered(video, [], InstantOf(video, 0), None);
    }
    if bytes.None? {
      return None;
    }
    var timing := TimingValues(videoDts, videoCts, last.dts + last.duration - dts0, audioDts, audioDur);
    Assembled(h, video.hevc, slice, FramesOfGop(file, video, audio, units, g), videoDts, videoCts, bytes.value, audioDts, audioDur, adts0);
    var extent := VideoExtent(timing, dts0);
    hashed := hashed + bytes.value;
    return Some(Segment(
      if |seis| > 0 then Some(seis[0].index) else None,
      if |seis| > 0 then Some(seis[0].captureId) else None,
      |seis|, problem, hashed, h(hashed), timing, extent,
      if adts0.Some? then AudioExtent(timing, adts0.value) else None));
  }

  method ReadContainer(h: Hash, file: Buffer, video: Option<Track>, audio: Option<Track>, presentation: Option<Presentation>, layout: Option<string>)
    returns (reading: Reading)
    requires video.Some? ==> video.value.lengthSize > 0
    ensures reading == ReadingOf(h, file, video, audio, presentation, layout)
  {
    hide SegmentOf, FramesIn, UnitsIn, AllStored, UnitOf, StartsUpTo;
    if video.None? {
      return Unreadable("no H.264 or H.265 video track");
    }
    var v := video.value;
    if v.unsupportedEdit.Some? {
      return Unreadable(v.unsupportedEdit.value);
    }
    if audio.Some? && audio.value.unsupportedEdit.Some? {
      return Unreadable(audio.value.unsupportedEdit.value);
    }
    var units := ReadUnits(file, v);
    if units.None? {
      return Malformed;
    }
    var starts := FindStarts(units.value);
    ghost var frames := if audio.Some? then FramesOf(file, audio.value.samples) else [];
    var gops: seq<Segment> := [];
    for g := 0 to |starts|
      invariant |gops| == g
      invariant forall k | 0 <= k < g :: AllStored(FramesOfGop(file, v, audio, units.value, k)) &&
                  gops[k] == SegmentOf(h, v.hevc, UnitsIn(units.value, k), FramesOfGop(file, v, audio, units.value, k))
    {
      var segment := ReadGop(h, file, v, audio, units.value, starts, g);
      if segment.None? {
        assert !AllStored(FramesOfGop(file, v, audio, units.value, g));
        return Malformed;
      }
      gops := gops + [segment.value];
    }
    forall g | 0 <= g < |starts|
      ensures AllStored(FramesIn(v, audio, units.value, frames, g))
      ensures gops[g] == SegmentOf(h, v.hevc, UnitsIn(units.value, g), FramesIn(v, audio, units.value, frames, g))
    {
      assert FramesOfGop(file, v, audio, units.value, g) == FramesIn(v, audio, units.value, frames, g);
    }
    assert gops == GopsOf(h, v, audio, units.value, frames).value;
    return Read(gops, Timescales(v.timescale, if audio.Some? then Some(audio.value.timescale) else None),
                v.mediaEdit, if audio.Some? then audio.value.mediaEdit else None, presentation, layout);
  }
}
